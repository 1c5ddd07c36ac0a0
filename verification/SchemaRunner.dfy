/** The runner as it executes: loops over requirements, files and statements inside a transaction. */
module SchemaRunner {
  import opened Wrappers
  import opened Bootstrap
  import opened BootstrapOrder
  import opened BootstrapRuns
  import Text

  /** What happens between two polls of the retry loop: this attempt's fault, then other services. */
  datatype Poll = Poll(fault: Fault, others: seq<Try>)

  /** Apply: attempts until one ends otherwise than in a missing dependency, or the deadline. */
  ghost function ApplyLoop(rows: Rows, img: Image, fleet: Fleet, digest: Digest, polls: seq<Poll>): (Rows, Outcome)
    decreases |polls|
  {
    if polls == [] then (rows, Failed(Deadline))
    else
      var (after, outcome) := Attempt(rows, img, digest, polls[0].fault);
      if outcome.Failed? && outcome.error.DependencyMissing? then
        ApplyLoop(RunTries(after, fleet, digest, polls[0].others), img, fleet, digest, polls[1..])
      else (after, outcome)
  }

  /** The loop is itself a run of the fleet; success means the image's rows and requirements are there. */
  lemma {:induction false} ApplyLoopResult(rows: Rows, img: Image, fleet: Fleet, digest: Digest, polls: seq<Poll>)
    returns (tries: seq<Try>)
    requires IsFleet(fleet) && img.service in fleet && fleet[img.service] == img
    ensures var (after, outcome) := ApplyLoop(rows, img, fleet, digest, polls);
            && after == RunTries(rows, fleet, digest, tries)
            && (outcome.Done? ==> Extends(TargetRows(img, digest), after) && RequirementsMet(after, img))
            && (outcome.Failed? ==> !outcome.error.DependencyMissing?)
    decreases |polls|
  {
    if polls == [] {
      tries := [];
    } else {
      var (after, outcome) := Attempt(rows, img, digest, polls[0].fault);
      var t := Try(img.service, polls[0].fault);
      AttemptEffect(rows, img, digest, polls[0].fault);
      RunOfOne(rows, fleet, digest, t);
      tries := [t];
      if outcome.Failed? && outcome.error.DependencyMissing? {
        RunConcat(rows, fleet, digest, [t], polls[0].others);
        var rest := ApplyLoopResult(RunTries(after, fleet, digest, polls[0].others), img, fleet, digest, polls[1..]);
        RunConcat(rows, fleet, digest, [t] + polls[0].others, rest);
        tries := [t] + polls[0].others + rest;
      }
    }
  }

  /** What other services do during the polls, in order. */
  function OthersDuring(polls: seq<Poll>): seq<Try> {
    if polls == [] then [] else polls[0].others + OthersDuring(polls[1..])
  }

  /** The table at poll i if every earlier attempt found a dependency missing. */
  ghost function RowsAtPoll(rows: Rows, fleet: Fleet, digest: Digest, polls: seq<Poll>, i: nat): Rows
    requires i <= |polls|
  {
    RunTries(rows, fleet, digest, OthersDuring(polls[..i]))
  }

  predicate WaitsAt(rows: Rows, img: Image, digest: Digest, poll: Poll) {
    var outcome := Attempt(rows, img, digest, poll.fault).1;
    outcome.Failed? && outcome.error.DependencyMissing?
  }

  lemma NoPollYet(rows: Rows, fleet: Fleet, digest: Digest, polls: seq<Poll>)
    ensures RowsAtPoll(rows, fleet, digest, polls, 0) == rows
  {
    assert polls[..0] == [];
  }

  lemma PollLater(rows: Rows, fleet: Fleet, digest: Digest, polls: seq<Poll>, i: nat)
    requires 1 <= i <= |polls|
    ensures RowsAtPoll(rows, fleet, digest, polls, i) ==
            RowsAtPoll(RunTries(rows, fleet, digest, polls[0].others), fleet, digest, polls[1..], i - 1)
  {
    assert polls[..i][0] == polls[0] && polls[..i][1..] == polls[1..][..i - 1];
    RunConcat(rows, fleet, digest, polls[0].others, OthersDuring(polls[1..][..i - 1]));
  }

  /**
   The loop keeps polling exactly as long as a dependency is missing: its result is that of the
   first attempt that finds none missing, at the table others have left by then, or the deadline.
   */
  lemma {:induction false} ApplyLoopExactly(rows: Rows, img: Image, fleet: Fleet, digest: Digest, polls: seq<Poll>)
    returns (n: nat)
    ensures n <= |polls|
    ensures forall i :: 0 <= i < n ==> WaitsAt(RowsAtPoll(rows, fleet, digest, polls, i), img, digest, polls[i])
    ensures n < |polls| ==> !WaitsAt(RowsAtPoll(rows, fleet, digest, polls, n), img, digest, polls[n])
    ensures ApplyLoop(rows, img, fleet, digest, polls) ==
            if n < |polls| then Attempt(RowsAtPoll(rows, fleet, digest, polls, n), img, digest, polls[n].fault)
            else (RowsAtPoll(rows, fleet, digest, polls, n), Failed(Deadline))
    decreases |polls|
  {
    n := 0;
    NoPollYet(rows, fleet, digest, polls);
    if polls != [] && WaitsAt(rows, img, digest, polls[0]) {
      var others := RunTries(rows, fleet, digest, polls[0].others);
      var m := ApplyLoopExactly(others, img, fleet, digest, polls[1..]);
      n := m + 1;
      PollLater(rows, fleet, digest, polls, n);
      forall i | 1 <= i < n ensures WaitsAt(RowsAtPoll(rows, fleet, digest, polls, i), img, digest, polls[i]) {
        PollLater(rows, fleet, digest, polls, i);
        assert polls[1..][i - 1] == polls[i];
      }
    }
  }

  lemma {:induction false} CollectErrorStays(rows: Rows, service: string, files: seq<DirEntry>, digest: Digest, i: nat)
    requires i <= |files| && CollectPending(rows, service, files[..i], digest).Err?
    ensures CollectPending(rows, service, files, digest) == CollectPending(rows, service, files[..i], digest)
  {
    if i == |files| {
      assert files[..i] == files;
    } else {
      assert files[..|files| - 1][..i] == files[..i];
      CollectErrorStays(rows, service, files[..|files| - 1], digest, i);
    }
  }

  class SchemaDatabase {
    var rows: Rows
    /** The migration statements sent so far. */
    var executed: seq<string>

    method EnsureRequirements(requirements: seq<Requirement>) returns (missing: Option<Requirement>)
      ensures missing == MissingRequirement(rows, requirements)
    {
      var i := 0;
      while i < |requirements|
        invariant 0 <= i <= |requirements|
        invariant MissingRequirement(rows, requirements) == MissingRequirement(rows, requirements[i..])
      {
        if (requirements[i].service, requirements[i].migration) !in rows {
          return Some(requirements[i]);
        }
        i := i + 1;
      }
      return None;
    }

    method CollectPendingMigrations(img: Image, digest: Digest) returns (r: Result<seq<Migration>, Error>)
      ensures r == CollectPending(rows, img.service, MigrationFiles(img.entries), digest)
    {
      var files := MigrationFiles(img.entries);
      var pending: seq<Migration> := [];
      var i := 0;
      while i < |files|
        invariant 0 <= i <= |files|
        invariant CollectPending(rows, img.service, files[..i], digest) == Ok(pending)
      {
        assert files[..i + 1][..i] == files[..i];
        var file := files[i];
        var checksum := digest(file.contents);
        if (img.service, file.name) in rows {
          if rows[(img.service, file.name)] != checksum {
            CollectErrorStays(rows, img.service, files, digest, i + 1);
            return Err(ChecksumChanged(file.name));
          }
        } else {
          pending := pending + [Migration(file.name, checksum, file.contents)];
        }
        i := i + 1;
      }
      assert files[..i] == files;
      return Ok(pending);
    }

    /** The statements of a transaction and the rows it would add, up to a failing statement. */
    method Execute(service: string, pending: seq<Migration>, fault: Fault)
      returns (transaction: Rows, failed: Option<Error>)
      modifies this`executed
      ensures executed == old(executed) + SqlOf(Sent(pending, fault))
      ensures failed == if fault.StatementFails? && fault.at < |pending|
                        then Some(StatementFailed(pending[fault.at].name)) else None
      ensures failed.None? ==> transaction == InsertRows(rows, service, pending)
    {
      transaction := rows;
      var i := 0;
      while i < |pending|
        invariant 0 <= i <= |pending|
        invariant transaction == InsertRows(rows, service, pending[..i])
        invariant fault.StatementFails? ==> i <= fault.at
        invariant executed == old(executed) + SqlOf(pending[..i])
      {
        assert pending[..i + 1][..i] == pending[..i];
        executed := executed + [pending[i].sql];
        if fault == StatementFails(i) { return transaction, Some(StatementFailed(pending[i].name)); }
        transaction := transaction[(service, pending[i].name) := pending[i].checksum];
        i := i + 1;
      }
      assert pending[..i] == pending;
      failed := None;
    }

    /** One transaction: whatever happens before the commit leaves the table as it was. */
    method ApplyOnce(img: Image, digest: Digest, fault: Fault) returns (outcome: Outcome)
      modifies this
      ensures (rows, outcome) == Attempt(old(rows), img, digest, fault)
      ensures executed == old(executed) + Statements(old(rows), img, digest, fault)
    {
      if fault.Unreachable? { return Failed(Infrastructure); }
      var missing := EnsureRequirements(img.requirements);
      if missing.Some? { return Failed(DependencyMissing(missing.value)); }
      var collected := CollectPendingMigrations(img, digest);
      if collected.Err? { return Failed(collected.error); }
      var transaction, failed := Execute(img.service, collected.value, fault);
      if failed.Some? { return Failed(failed.value); }
      if fault.CommitFails? {
        if fault.durable { rows := transaction; }
        return Failed(Infrastructure);
      }
      rows := transaction;
      return Done;
    }

    method RunOthers(fleet: Fleet, digest: Digest, others: seq<Try>)
      modifies this
      ensures old(executed) <= executed
      ensures rows == RunTries(old(rows), fleet, digest, others)
    {
      var i := 0;
      while i < |others|
        invariant 0 <= i <= |others|
        invariant rows == RunTries(old(rows), fleet, digest, others[..i]) && old(executed) <= executed
      {
        assert others[..i + 1][..i] == others[..i];
        if others[i].service in fleet {
          var ignored := ApplyOnce(fleet[others[i].service], digest, others[i].fault);
        }
        i := i + 1;
      }
      assert others[..i] == others;
    }

    /** The retry loop; `polls` ends where the deadline falls. */
    method Apply(img: Image, fleet: Fleet, digest: Digest, polls: seq<Poll>) returns (outcome: Outcome)
      modifies this
      ensures Text.Trim(img.service) == "" ==> outcome == Failed(ServiceNameMissing) && rows == old(rows)
      ensures Text.Trim(img.service) != "" ==> (rows, outcome) == ApplyLoop(old(rows), img, fleet, digest, polls)
    {
      if Text.Trim(img.service) == "" { return Failed(ServiceNameMissing); }
      var i := 0;
      while i < |polls|
        invariant 0 <= i <= |polls|
        invariant ApplyLoop(old(rows), img, fleet, digest, polls) == ApplyLoop(rows, img, fleet, digest, polls[i..])
      {
        outcome := ApplyOnce(img, digest, polls[i].fault);
        if !(outcome.Failed? && outcome.error.DependencyMissing?) { return; }
        RunOthers(fleet, digest, polls[i].others);
        assert polls[i..][1..] == polls[i + 1..];
        i := i + 1;
      }
      return Failed(Deadline);
    }
  }
}
