/**
 Runs of bootstrap attempts by any set of services, in any interleaving, with any failures: the
 table only grows, batches are atomic, and every run that has come to rest ends in one table.
 */
module BootstrapRuns {
  import opened Bootstrap

  /** The services that share the table, each at one version. */
  type Fleet = map<string, Image>

  ghost predicate IsFleet(fleet: Fleet) {
    forall s :: s in fleet ==> fleet[s].service == s && IsDirectory(fleet[s].entries)
  }

  datatype Try = Try(service: string, fault: Fault)

  /** The advisory lock makes attempts take turns; a service outside the fleet never starts one. */
  ghost function RunTries(rows: Rows, fleet: Fleet, digest: Digest, tries: seq<Try>): Rows {
    if tries == [] then rows
    else
      var before := RunTries(rows, fleet, digest, tries[..|tries| - 1]);
      var last := tries[|tries| - 1];
      if last.service in fleet then Attempt(before, fleet[last.service], digest, last.fault).0 else before
  }

  ghost predicate Target(fleet: Fleet, digest: Digest, k: (string, string)) {
    k.0 in fleet && k in TargetRows(fleet[k.0], digest)
  }

  /** At rest: no service that may proceed has anything left to add. */
  ghost predicate AtRest(rows: Rows, fleet: Fleet, digest: Digest) {
    forall s :: s in fleet && Ready(rows, fleet[s], digest) ==> Extends(TargetRows(fleet[s], digest), rows)
  }

  /** The table grew out of rows0 by rows of the fleet only. */
  ghost predicate GrownFrom(rows0: Rows, rows: Rows, fleet: Fleet, digest: Digest) {
    Extends(rows0, rows) &&
    forall k :: k in rows && k !in rows0 ==> Target(fleet, digest, k) && rows[k] == TargetRows(fleet[k.0], digest)[k]
  }

  lemma TargetRowsKeys(img: Image, digest: Digest)
    ensures forall k :: k in TargetRows(img, digest) ==> k.0 == img.service
  {
    RowsOfFilesKeys(img.service, MigrationFiles(img.entries), digest);
  }

  lemma TryGrows(rows0: Rows, rows: Rows, fleet: Fleet, digest: Digest, t: Try)
    requires IsFleet(fleet) && GrownFrom(rows0, rows, fleet, digest) && t.service in fleet
    ensures GrownFrom(rows0, Attempt(rows, fleet[t.service], digest, t.fault).0, fleet, digest)
  {
    AttemptEffect(rows, fleet[t.service], digest, t.fault);
    TargetRowsKeys(fleet[t.service], digest);
  }

  /** Checksums never change and no row disappears, over any run. */
  lemma {:induction false} TableOnlyGrows(rows: Rows, fleet: Fleet, digest: Digest, tries: seq<Try>)
    requires IsFleet(fleet)
    ensures GrownFrom(rows, RunTries(rows, fleet, digest, tries), fleet, digest)
  {
    if tries != [] {
      TableOnlyGrows(rows, fleet, digest, tries[..|tries| - 1]);
      if tries[|tries| - 1].service in fleet {
        TryGrows(rows, RunTries(rows, fleet, digest, tries[..|tries| - 1]), fleet, digest, tries[|tries| - 1]);
      }
    }
  }

  // ----- All at once, and only after the requirements -----

  /** Once a service has added any row, it has added all of them, and what it requires is there. */
  ghost predicate BatchesWhole(rows0: Rows, rows: Rows, fleet: Fleet, digest: Digest) {
    forall k :: k in rows && k !in rows0 && k.0 in fleet ==>
      Extends(TargetRows(fleet[k.0], digest), rows) && RequirementsMet(rows, fleet[k.0])
  }

  lemma TryKeepsWhole(rows0: Rows, rows: Rows, fleet: Fleet, digest: Digest, t: Try)
    requires IsFleet(fleet) && t.service in fleet && BatchesWhole(rows0, rows, fleet, digest)
    ensures BatchesWhole(rows0, Attempt(rows, fleet[t.service], digest, t.fault).0, fleet, digest)
  {
    var img := fleet[t.service];
    var after := Attempt(rows, img, digest, t.fault).0;
    AttemptEffect(rows, img, digest, t.fault);
    TargetRowsKeys(img, digest);
    forall k | k in after && k !in rows0 && k.0 in fleet
      ensures Extends(TargetRows(fleet[k.0], digest), after) && RequirementsMet(after, fleet[k.0])
    {
      if after != rows {
        if k.0 == t.service {
          assert fleet[k.0] == img;
        } else {
          assert k in rows;
          forall q | q in TargetRows(fleet[k.0], digest)
            ensures q in after && after[q] == TargetRows(fleet[k.0], digest)[q]
          {
            TargetRowsKeys(fleet[k.0], digest);
          }
        }
      }
    }
  }

  lemma {:induction false} AllAtOnce(rows: Rows, fleet: Fleet, digest: Digest, tries: seq<Try>)
    requires IsFleet(fleet)
    ensures BatchesWhole(rows, RunTries(rows, fleet, digest, tries), fleet, digest)
  {
    if tries != [] {
      AllAtOnce(rows, fleet, digest, tries[..|tries| - 1]);
      if tries[|tries| - 1].service in fleet {
        TryKeepsWhole(rows, RunTries(rows, fleet, digest, tries[..|tries| - 1]), fleet, digest, tries[|tries| - 1]);
      }
    }
  }

  // ----- The least fixpoint -----

  /** A service that may proceed in a smaller table of this growth may proceed in the larger one. */
  lemma ReadyMonotone(rows0: Rows, small: Rows, large: Rows, fleet: Fleet, digest: Digest, s: string)
    requires IsFleet(fleet) && s in fleet
    requires Extends(rows0, small) && Extends(small, large) && GrownFrom(rows0, large, fleet, digest)
    requires Ready(small, fleet[s], digest)
    ensures Ready(large, fleet[s], digest)
  {
    TargetRowsKeys(fleet[s], digest);
  }

  lemma TryStaysBelow(rows0: Rows, rows: Rows, rest: Rows, fleet: Fleet, digest: Digest, t: Try)
    requires IsFleet(fleet) && t.service in fleet
    requires Extends(rows0, rows) && Extends(rows, rest) && GrownFrom(rows0, rest, fleet, digest)
    requires AtRest(rest, fleet, digest)
    ensures Extends(Attempt(rows, fleet[t.service], digest, t.fault).0, rest)
  {
    AttemptEffect(rows, fleet[t.service], digest, t.fault);
    if Ready(rows, fleet[t.service], digest) {
      ReadyMonotone(rows0, rows, rest, fleet, digest, t.service);
    }
  }

  /** Every run stays below every table at rest that grew from the same rows. */
  lemma {:induction false} RunsStayBelow(rows0: Rows, rest: Rows, fleet: Fleet, digest: Digest, tries: seq<Try>)
    requires IsFleet(fleet) && GrownFrom(rows0, rest, fleet, digest) && AtRest(rest, fleet, digest)
    ensures Extends(RunTries(rows0, fleet, digest, tries), rest)
  {
    if tries != [] {
      var front, t := tries[..|tries| - 1], tries[|tries| - 1];
      RunsStayBelow(rows0, rest, fleet, digest, front);
      TableOnlyGrows(rows0, fleet, digest, front);
      if t.service in fleet {
        TryStaysBelow(rows0, RunTries(rows0, fleet, digest, front), rest, fleet, digest, t);
      }
    }
  }

  lemma ExtendsBothWays(a: Rows, b: Rows)
    requires Extends(a, b) && Extends(b, a)
    ensures a == b
  {}

  /** Two interleavings that have come to rest, whatever failed on the way, end in the same table. */
  lemma BootstrapConfluence(rows: Rows, fleet: Fleet, digest: Digest, mine: seq<Try>, theirs: seq<Try>)
    requires IsFleet(fleet)
    requires AtRest(RunTries(rows, fleet, digest, mine), fleet, digest)
    requires AtRest(RunTries(rows, fleet, digest, theirs), fleet, digest)
    ensures RunTries(rows, fleet, digest, mine) == RunTries(rows, fleet, digest, theirs)
  {
    TableOnlyGrows(rows, fleet, digest, mine);
    TableOnlyGrows(rows, fleet, digest, theirs);
    RunsStayBelow(rows, RunTries(rows, fleet, digest, theirs), fleet, digest, mine);
    RunsStayBelow(rows, RunTries(rows, fleet, digest, mine), fleet, digest, theirs);
    ExtendsBothWays(RunTries(rows, fleet, digest, mine), RunTries(rows, fleet, digest, theirs));
  }

  // ----- Rest is always reachable -----

  ghost function FleetKeys(fleet: Fleet, digest: Digest): set<(string, string)> {
    set s, k | s in fleet && k in TargetRows(fleet[s], digest) :: k
  }

  lemma {:induction false} RunConcat(rows: Rows, fleet: Fleet, digest: Digest, a: seq<Try>, b: seq<Try>)
    ensures RunTries(rows, fleet, digest, a + b) == RunTries(RunTries(rows, fleet, digest, a), fleet, digest, b)
  {
    if b == [] {
      assert a + b == a;
    } else {
      var c := a + b;
      assert c[..|c| - 1] == a + b[..|b| - 1];
      RunConcat(rows, fleet, digest, a, b[..|b| - 1]);
    }
  }

  lemma RunOfOne(rows: Rows, fleet: Fleet, digest: Digest, t: Try)
    requires t.service in fleet
    ensures RunTries(rows, fleet, digest, [t]) == Attempt(rows, fleet[t.service], digest, t.fault).0
  {
    assert [t][..0] == [];
  }

  ghost function MissingCount(rows: Rows, fleet: Fleet, digest: Digest): nat {
    |FleetKeys(fleet, digest) - rows.Keys|
  }

  lemma FewerMissing(K: set<(string, string)>, A: set<(string, string)>, B: set<(string, string)>, k: (string, string))
    requires A <= B && k in K && k in B && k !in A
    ensures |K - B| < |K - A|
  {
    assert k in K - A && K - A == (K - B) + ((K - A) - (K - B));
    assert k in (K - A) - (K - B);
  }

  /** While the table is not at rest, some service can add a missing row. */
  lemma Progress(rows: Rows, fleet: Fleet, digest: Digest) returns (t: Try)
    requires IsFleet(fleet) && !AtRest(rows, fleet, digest)
    ensures t.service in fleet
    ensures MissingCount(Attempt(rows, fleet[t.service], digest, t.fault).0, fleet, digest) <
            MissingCount(rows, fleet, digest)
  {
    var s :| s in fleet && Ready(rows, fleet[s], digest) && !Extends(TargetRows(fleet[s], digest), rows);
    t := Try(s, NoFault);
    AttemptEffect(rows, fleet[s], digest, NoFault);
    var k :| k in TargetRows(fleet[s], digest) && k !in rows;
    assert k in FleetKeys(fleet, digest);
    var after := rows + TargetRows(fleet[s], digest);
    FewerMissing(FleetKeys(fleet, digest), rows.Keys, after.Keys, k);
  }

  /** From any table, so from any state of any run, some failure-free continuation comes to rest. */
  lemma {:induction false} RestIsReachable(rows: Rows, fleet: Fleet, digest: Digest) returns (tries: seq<Try>)
    requires IsFleet(fleet)
    ensures AtRest(RunTries(rows, fleet, digest, tries), fleet, digest)
    decreases MissingCount(rows, fleet, digest)
  {
    if AtRest(rows, fleet, digest) {
      tries := [];
    } else {
      var t := Progress(rows, fleet, digest);
      var rest := RestIsReachable(Attempt(rows, fleet[t.service], digest, t.fault).0, fleet, digest);
      RunOfOne(rows, fleet, digest, t);
      RunConcat(rows, fleet, digest, [t], rest);
      tries := [t] + rest;
    }
  }
}
