/**
 What the release gate buys: a candidate that passes never stops on a checksum, adds exactly the
 declared migrations, and leaves a table the previous images still accept.
 */
module GateMeetsBootstrap {
  import opened Wrappers
  import opened Bootstrap
  import opened BootstrapRuns
  import opened ReleaseGate

  /** The JSON rows are the rows of the table. */
  ghost predicate Describes(items: seq<Json>, rows: Rows) {
    && (forall i :: 0 <= i < |items| ==>
          IsRow(items[i]) && RowKey(items[i]) in rows && rows[RowKey(items[i])] == items[i].fields["checksum"].s)
    && (forall k :: k in rows ==> exists i :: 0 <= i < |items| && IsRow(items[i]) && RowKey(items[i]) == k)
  }

  function RowKey(row: Json): (string, string)
    requires IsRow(row)
  {
    (row.fields["service_name"].s, row.fields["migration_name"].s)
  }

  ghost predicate Matches(rows: Rows, inv: Inventory) {
    && (forall k :: k in rows ==> PathOf(k.0, k.1) in inv && inv[PathOf(k.0, k.1)] == rows[k])
    && (forall p :: p in inv ==> exists k :: k in rows && PathOf(k.0, k.1) == p)
  }

  /** The image embeds exactly the inventory's files of its service. */
  ghost predicate BuiltFrom(img: Image, inv: Inventory, digest: Digest) {
    IsDirectory(img.entries) &&
    forall name :: ((img.service, name) in TargetRows(img, digest) <==> PathOf(img.service, name) in inv) &&
      ((img.service, name) in TargetRows(img, digest) ==>
         TargetRows(img, digest)[(img.service, name)] == inv[PathOf(img.service, name)])
  }

  ghost predicate FleetBuiltFrom(fleet: Fleet, inv: Inventory, digest: Digest) {
    IsFleet(fleet) && forall s :: s in fleet ==> BuiltFrom(fleet[s], inv, digest)
  }

  lemma {:induction false} AppliedRows(items: seq<Json>)
    requires AppliedOf(items).Ok?
    ensures forall i :: 0 <= i < |items| ==>
              IsRow(items[i]) && RowPath(items[i]) in AppliedOf(items).value &&
              AppliedOf(items).value[RowPath(items[i])] == items[i].fields["checksum"].s
  {
    if items != [] {
      var front := items[..|items| - 1];
      AppliedRows(front);
      assert forall i :: 0 <= i < |front| ==> items[i] == front[i];
    }
  }

  lemma {:induction false} AppliedPaths(items: seq<Json>)
    requires AppliedOf(items).Ok?
    ensures forall p :: p in AppliedOf(items).value ==> HasPath(items, p)
  {
    if items != [] {
      var front := items[..|items| - 1];
      AppliedPaths(front);
      forall p | p in AppliedOf(items).value ensures HasPath(items, p) {
        if p in AppliedOf(front).value {
          assert HasPath(front, p);
          MorePaths(items, p);
        } else {
          assert RowPath(items[|items| - 1]) == p;
        }
      }
    }
  }

  lemma AppliedMeaning(items: seq<Json>)
    requires AppliedOf(items).Ok?
    ensures forall i :: 0 <= i < |items| ==>
              IsRow(items[i]) && RowPath(items[i]) in AppliedOf(items).value &&
              AppliedOf(items).value[RowPath(items[i])] == items[i].fields["checksum"].s
    ensures forall p :: p in AppliedOf(items).value ==> HasPath(items, p)
  {
    AppliedRows(items);
    AppliedPaths(items);
  }

  ghost predicate HasPath(items: seq<Json>, p: string) {
    exists i :: 0 <= i < |items| && IsRow(items[i]) && RowPath(items[i]) == p
  }

  lemma MorePaths(items: seq<Json>, p: string)
    requires items != [] && HasPath(items[..|items| - 1], p)
    ensures HasPath(items, p)
  {
    var front := items[..|items| - 1];
    var i :| 0 <= i < |front| && IsRow(front[i]) && RowPath(front[i]) == p;
    assert items[i] == front[i];
  }

  /** A state check that passes pins the table down to the previous inventory. */
  lemma StatePinsTable(previous: Inventory, items: seq<Json>, rows: Rows)
    requires Describes(items, rows)
    requires SchemaState(previous, List(items)) == Ok(())
    ensures Matches(rows, previous)
  {
    AppliedMeaning(items);
    forall k | k in rows ensures PathOf(k.0, k.1) in previous && previous[PathOf(k.0, k.1)] == rows[k] {
      var i :| 0 <= i < |items| && IsRow(items[i]) && RowKey(items[i]) == k;
      assert RowPath(items[i]) == PathOf(k.0, k.1);
    }
    forall p | p in previous ensures exists k :: k in rows && PathOf(k.0, k.1) == p {
      var i :| 0 <= i < |items| && IsRow(items[i]) && RowPath(items[i]) == p;
      assert RowKey(items[i]) in rows;
    }
  }

  ghost predicate RowsDistinct(items: seq<Json>) {
    (forall i :: 0 <= i < |items| ==> IsRow(items[i])) &&
    forall i, j :: 0 <= i < j < |items| ==> RowKey(items[i]) != RowKey(items[j])
  }

  lemma PathsDistinct(previous: Inventory, items: seq<Json>, rows: Rows, i: nat, j: nat)
    requires Describes(items, rows) && Matches(rows, previous) && IsInventory(previous) && RowsDistinct(items)
    requires i < j < |items|
    ensures RowPath(items[i]) != RowPath(items[j])
  {
    var a, b := RowKey(items[i]), RowKey(items[j]);
    assert PathOf(a.0, a.1) in previous;
    if RowPath(items[i]) == RowPath(items[j]) {
      PathDetermines(a.0, a.1, b.0, b.1);
    }
  }

  ghost predicate AllPathsDistinct(items: seq<Json>) {
    (forall i :: 0 <= i < |items| ==> IsRow(items[i])) &&
    forall i, j :: 0 <= i < j < |items| ==> RowPath(items[i]) != RowPath(items[j])
  }

  lemma AppliedSnoc(front: seq<Json>, row: Json)
    requires AppliedOf(front).Ok? && IsRow(row) && RowPath(row) !in AppliedOf(front).value
    ensures AppliedOf(front + [row]).Ok?
  {
    assert (front + [row])[..|front|] == front;
  }

  lemma FrontPathsDistinct(items: seq<Json>)
    requires items != [] && AllPathsDistinct(items)
    ensures AllPathsDistinct(items[..|items| - 1])
  {
    var front := items[..|items| - 1];
    forall i | 0 <= i < |front| ensures IsRow(front[i]) {
      assert front[i] == items[i];
    }
    forall i, j | 0 <= i < j < |front| ensures RowPath(front[i]) != RowPath(front[j]) {
      assert front[i] == items[i] && front[j] == items[j];
    }
  }

  lemma LastPathIsNew(front: seq<Json>, row: Json)
    requires AllPathsDistinct(front + [row]) && AppliedOf(front).Ok?
    ensures IsRow(row) && RowPath(row) !in AppliedOf(front).value
  {
    var items := front + [row];
    assert items[|front|] == row;
    forall i | 0 <= i < |front| ensures IsRow(front[i]) && RowPath(front[i]) != RowPath(row) {
      assert items[i] == front[i];
    }
    AppliedMeaning(front);
  }

  lemma {:induction false} DistinctPathsPass(items: seq<Json>)
    requires AllPathsDistinct(items)
    ensures AppliedOf(items).Ok?
  {
    if items != [] {
      var front, row := items[..|items| - 1], items[|items| - 1];
      assert items == front + [row];
      FrontPathsDistinct(items);
      DistinctPathsPass(front);
      LastPathIsNew(front, row);
      AppliedSnoc(front, row);
    }
  }

  lemma AppliedIsPrevious(previous: Inventory, items: seq<Json>, rows: Rows, p: string)
    requires Describes(items, rows) && Matches(rows, previous) && AppliedOf(items).Ok?
    ensures p in AppliedOf(items).value <==> p in previous
    ensures p in previous ==> AppliedOf(items).value[p] == previous[p]
  {
    AppliedMeaning(items);
    if p in previous {
      var k :| k in rows && PathOf(k.0, k.1) == p;
      var i :| 0 <= i < |items| && IsRow(items[i]) && RowKey(items[i]) == k;
      assert RowPath(items[i]) == p;
    }
    if p in AppliedOf(items).value {
      var i :| 0 <= i < |items| && IsRow(items[i]) && RowPath(items[i]) == p;
      var k := RowKey(items[i]);
      assert k in rows && PathOf(k.0, k.1) == p;
    }
  }

  lemma TablePathsDistinct(previous: Inventory, items: seq<Json>, rows: Rows)
    requires Describes(items, rows) && Matches(rows, previous) && IsInventory(previous) && RowsDistinct(items)
    ensures AllPathsDistinct(items)
  {
    forall i, j | 0 <= i < j < |items| ensures RowPath(items[i]) != RowPath(items[j]) {
      PathsDistinct(previous, items, rows, i, j);
    }
  }

  /** And conversely: the previous inventory's own table passes the check. */
  lemma MatchingTablePasses(previous: Inventory, items: seq<Json>, rows: Rows)
    requires Describes(items, rows) && Matches(rows, previous) && IsInventory(previous) && RowsDistinct(items)
    ensures SchemaState(previous, List(items)) == Ok(())
  {
    TablePathsDistinct(previous, items, rows);
    DistinctPathsPass(items);
    forall p ensures p in AppliedOf(items).value <==> p in previous
      ensures p in previous ==> AppliedOf(items).value[p] == previous[p]
    {
      AppliedIsPrevious(previous, items, rows, p);
    }
    assert AppliedOf(items).value == previous;
  }

  // ----- Rolling forward -----

  lemma MatchedRow(rows: Rows, inv: Inventory, service: string, name: string)
    requires Matches(rows, inv) && IsInventory(inv)
    ensures (service, name) in rows <==> PathOf(service, name) in inv
  {
    if PathOf(service, name) in inv {
      var k :| k in rows && PathOf(k.0, k.1) == PathOf(service, name);
      PathDetermines(service, name, k.0, k.1);
    }
  }

  lemma PolicyMeaning(a: string, b: string, previous: Inventory, candidate: Inventory, declaration: Json,
                      digest: InventoryDigest)
    requires SchemaPolicy(a, b, previous, candidate, declaration, digest).Ok?
    ensures NothingChanged(previous, candidate)
    ensures SchemaPolicy(a, b, previous, candidate, declaration, digest).value == Added(previous, candidate)
    ensures candidate.Keys <= previous.Keys || Confirms(declaration, a, b, previous, candidate, digest)
  {
    PolicyAcceptsExactly(a, b, previous, candidate, declaration, digest);
    forall p | p in previous ensures p in candidate && candidate[p] == previous[p] {
      assert !IsChanged(previous, candidate, p);
    }
  }

  /** The candidate meets no changed checksum, and lacks exactly the rows of the added paths. */
  lemma CandidateMeetsTable(rows: Rows, previous: Inventory, candidate: Inventory, img: Image, digest: Digest)
    requires Matches(rows, previous) && IsInventory(previous) && IsInventory(candidate)
    requires NothingChanged(previous, candidate) && BuiltFrom(img, candidate, digest)
    ensures NoDrift(rows, img, digest)
    ensures forall name :: (img.service, name) in TargetRows(img, digest) && (img.service, name) !in rows <==>
              PathOf(img.service, name) in Added(previous, candidate)
  {
    TargetRowsKeys(img, digest);
    forall k | k in TargetRows(img, digest) && k in rows ensures rows[k] == TargetRows(img, digest)[k] {
      assert k == (img.service, k.1);
      assert PathOf(k.0, k.1) in previous;
    }
    forall name ensures (img.service, name) in TargetRows(img, digest) && (img.service, name) !in rows <==>
                        PathOf(img.service, name) in Added(previous, candidate)
    {
      MatchedRow(rows, previous, img.service, name);
    }
  }

  /** Growth by the candidate fleet keeps every candidate free of drift: the error never occurs. */
  lemma NoDriftEver(rows: Rows, fleet: Fleet, digest: Digest, tries: seq<Try>, s: string)
    requires IsFleet(fleet) && s in fleet && NoDrift(rows, fleet[s], digest)
    ensures NoDrift(RunTries(rows, fleet, digest, tries), fleet[s], digest)
  {
    TableOnlyGrows(rows, fleet, digest, tries);
    TargetRowsKeys(fleet[s], digest);
  }

  /** Every file of the inventory belongs to a service of the fleet. */
  ghost predicate Covers(fleet: Fleet, inv: Inventory) {
    forall p :: p in inv ==> exists k: (string, string) :: k.0 in fleet && PathOf(k.0, k.1) == p
  }

  /** The paths of the migrations the fleet still has to apply. */
  ghost function MissingPaths(rows: Rows, fleet: Fleet, digest: Digest): set<string> {
    set k | k in FleetKeys(fleet, digest) && k !in rows :: PathOf(k.0, k.1)
  }

  lemma MissingWithinAdded(rows: Rows, previous: Inventory, candidate: Inventory, fleet: Fleet, digest: Digest)
    requires Matches(rows, previous) && IsInventory(previous) && IsInventory(candidate)
    requires NothingChanged(previous, candidate) && FleetBuiltFrom(fleet, candidate, digest)
    ensures MissingPaths(rows, fleet, digest) <= Added(previous, candidate)
  {
    forall p | p in MissingPaths(rows, fleet, digest) ensures p in Added(previous, candidate) {
      var k :| k in FleetKeys(fleet, digest) && k !in rows && PathOf(k.0, k.1) == p;
      MissingKeyIsAdded(rows, previous, candidate, fleet, digest, k);
    }
  }

  lemma AddedWithinMissing(rows: Rows, previous: Inventory, candidate: Inventory, fleet: Fleet, digest: Digest)
    requires Matches(rows, previous) && IsInventory(previous) && IsInventory(candidate)
    requires NothingChanged(previous, candidate) && FleetBuiltFrom(fleet, candidate, digest)
    requires Covers(fleet, candidate)
    ensures Added(previous, candidate) <= MissingPaths(rows, fleet, digest)
  {
    forall p | p in Added(previous, candidate) ensures p in MissingPaths(rows, fleet, digest) {
      assert p in candidate;
      var k: (string, string) :| k.0 in fleet && PathOf(k.0, k.1) == p;
      AddedKeyIsMissing(rows, previous, candidate, fleet, digest, k.0, k.1);
    }
  }

  lemma AddedKeyIsMissing(rows: Rows, previous: Inventory, candidate: Inventory, fleet: Fleet, digest: Digest,
                          s: string, name: string)
    requires Matches(rows, previous) && IsInventory(previous) && IsInventory(candidate)
    requires NothingChanged(previous, candidate) && FleetBuiltFrom(fleet, candidate, digest)
    requires s in fleet && PathOf(s, name) in Added(previous, candidate)
    ensures (s, name) in FleetKeys(fleet, digest) && (s, name) !in rows
  {
    CandidateMeetsTable(rows, previous, candidate, fleet[s], digest);
  }

  lemma MissingKeyIsAdded(rows: Rows, previous: Inventory, candidate: Inventory, fleet: Fleet, digest: Digest,
                          k: (string, string))
    requires Matches(rows, previous) && IsInventory(previous) && IsInventory(candidate)
    requires NothingChanged(previous, candidate) && FleetBuiltFrom(fleet, candidate, digest)
    requires k in FleetKeys(fleet, digest) && k !in rows
    ensures PathOf(k.0, k.1) in Added(previous, candidate)
  {
    var s :| s in fleet && k in TargetRows(fleet[s], digest);
    TargetRowsKeys(fleet[s], digest);
    CandidateMeetsTable(rows, previous, candidate, fleet[s], digest);
    assert k == (fleet[s].service, k.1);
  }

  lemma NoChecksumError(rows: Rows, img: Image, digest: Digest, fault: Fault)
    requires IsDirectory(img.entries) && NoDrift(rows, img, digest)
    ensures var outcome := Attempt(rows, img, digest, fault).1; !(outcome.Failed? && outcome.error.ChecksumChanged?)
  {
    MigrationFilesDistinct(img.entries);
    CollectPendingMeaning(rows, img.service, MigrationFiles(img.entries), digest);
  }

  lemma NeverStops(rows: Rows, previous: Inventory, candidate: Inventory, fleet: Fleet, digest: Digest,
                   tries: seq<Try>, s: string, fault: Fault)
    requires Matches(rows, previous) && IsInventory(previous) && IsInventory(candidate)
    requires NothingChanged(previous, candidate) && FleetBuiltFrom(fleet, candidate, digest) && s in fleet
    ensures var outcome := Attempt(RunTries(rows, fleet, digest, tries), fleet[s], digest, fault).1;
            !(outcome.Failed? && outcome.error.ChecksumChanged?)
  {
    CandidateMeetsTable(rows, previous, candidate, fleet[s], digest);
    NoDriftEver(rows, fleet, digest, tries, s);
    NoChecksumError(RunTries(rows, fleet, digest, tries), fleet[s], digest, fault);
  }

  lemma AddsExactly(rows: Rows, previous: Inventory, candidate: Inventory, fleet: Fleet, digest: Digest, s: string)
    requires Matches(rows, previous) && IsInventory(previous) && IsInventory(candidate)
    requires NothingChanged(previous, candidate) && FleetBuiltFrom(fleet, candidate, digest) && s in fleet
    ensures forall name :: (s, name) in TargetRows(fleet[s], digest) && (s, name) !in rows <==>
              PathOf(s, name) in Added(previous, candidate)
    ensures Covers(fleet, candidate) ==> MissingPaths(rows, fleet, digest) == Added(previous, candidate)
  {
    MissingWithinAdded(rows, previous, candidate, fleet, digest);
    if Covers(fleet, candidate) { AddedWithinMissing(rows, previous, candidate, fleet, digest); }
    CandidateMeetsTable(rows, previous, candidate, fleet[s], digest);
  }

  /**
   Roll-forward safety. If both checks pass, then in every state of every run of the candidate
   fleet no attempt ends in a checksum error, and new files come with the approval of this rollout.
   The migrations to come at the start are, service by service, the added ones; over a fleet that has
   a service for every file they are all of them.
   */
  lemma RollForwardSafety(previous: Inventory, candidate: Inventory, items: seq<Json>, rows: Rows,
                          a: string, b: string, declaration: Json, inventoryDigest: InventoryDigest,
                          fleet: Fleet, digest: Digest, tries: seq<Try>, s: string, fault: Fault)
    requires IsInventory(previous) && IsInventory(candidate) && FleetBuiltFrom(fleet, candidate, digest)
    requires Describes(items, rows) && SchemaState(previous, List(items)) == Ok(())
    requires SchemaPolicy(a, b, previous, candidate, declaration, inventoryDigest).Ok?
    requires s in fleet
    ensures var outcome := Attempt(RunTries(rows, fleet, digest, tries), fleet[s], digest, fault).1;
            !(outcome.Failed? && outcome.error.ChecksumChanged?)
    ensures forall name :: (s, name) in TargetRows(fleet[s], digest) && (s, name) !in rows <==>
              PathOf(s, name) in SchemaPolicy(a, b, previous, candidate, declaration, inventoryDigest).value
    ensures !Confirms(declaration, a, b, previous, candidate, inventoryDigest) ==> candidate.Keys <= previous.Keys
    ensures Covers(fleet, candidate) ==>
              MissingPaths(rows, fleet, digest) ==
              SchemaPolicy(a, b, previous, candidate, declaration, inventoryDigest).value
  {
    StatePinsTable(previous, items, rows);
    PolicyMeaning(a, b, previous, candidate, declaration, inventoryDigest);
    AddsExactly(rows, previous, candidate, fleet, digest, s);
    NeverStops(rows, previous, candidate, fleet, digest, tries, s, fault);
  }

  // ----- Rolling back -----

  lemma PreviousStaysApplied(previous: Inventory, rows: Rows, after: Rows, digest: Digest, image: Image)
    requires IsInventory(previous) && BuiltFrom(image, previous, digest)
    requires Matches(rows, previous) && Extends(rows, after)
    ensures Extends(TargetRows(image, digest), after)
  {
    TargetRowsKeys(image, digest);
    forall k | k in TargetRows(image, digest) ensures k in after && after[k] == TargetRows(image, digest)[k] {
      assert k == (image.service, k.1);
      MatchedRow(rows, previous, image.service, k.1);
    }
  }

  lemma NothingToAdd(after: Rows, image: Image, digest: Digest)
    requires IsDirectory(image.entries) && Extends(TargetRows(image, digest), after)
    ensures Attempt(after, image, digest, NoFault).0 == after
    ensures Attempt(after, image, digest, NoFault).1 == Done <==> RequirementsMet(after, image)
  {
    AttemptEffect(after, image, digest, NoFault);
    assert after + TargetRows(image, digest) == after;
  }

  /** What the image waits for is in the previous release. */
  ghost predicate RequirementsReleased(image: Image, previous: Inventory) {
    forall r :: r in image.requirements ==> PathOf(r.service, r.migration) in previous
  }

  lemma ReleasedIsMet(previous: Inventory, rows: Rows, image: Image)
    requires Matches(rows, previous) && IsInventory(previous) && RequirementsReleased(image, previous)
    ensures RequirementsMet(rows, image)
  {
    forall r | r in image.requirements ensures (r.service, r.migration) in rows {
      MatchedRow(rows, previous, r.service, r.migration);
    }
  }

  /**
   Image-rollback safety. After any run of the candidate fleet the previous image finds all its
   migrations applied: it adds nothing, and succeeds exactly when its requirements are in the
   table. They are if the previous release has a file for each of them, or if they were before.
   */
  lemma RollbackSafety(previous: Inventory, items: seq<Json>, rows: Rows, fleet: Fleet, digest: Digest,
                       tries: seq<Try>, image: Image)
    requires IsInventory(previous) && IsFleet(fleet) && BuiltFrom(image, previous, digest)
    requires Describes(items, rows) && SchemaState(previous, List(items)) == Ok(())
    ensures var after := RunTries(rows, fleet, digest, tries);
            && Attempt(after, image, digest, NoFault).0 == after
            && (Attempt(after, image, digest, NoFault).1 == Done <==> RequirementsMet(after, image))
            && (RequirementsMet(rows, image) ==> RequirementsMet(after, image))
            && (RequirementsReleased(image, previous) ==> Attempt(after, image, digest, NoFault) == (after, Done))
  {
    StatePinsTable(previous, items, rows);
    if RequirementsReleased(image, previous) { ReleasedIsMet(previous, rows, image); }
    TableOnlyGrows(rows, fleet, digest, tries);
    PreviousStaysApplied(previous, rows, RunTries(rows, fleet, digest, tries), digest, image);
    NothingToAdd(RunTries(rows, fleet, digest, tries), image, digest);
  }

  // ----- How sharp the gate is -----

  /**
   On a table that matches the previous inventory, the bootstrap of a candidate image would stop
   on a checksum exactly when one of its files changed; a removed file, which the gate refuses
   too, would go unnoticed by the bootstrap.
   */
  lemma DriftIsChange(rows: Rows, previous: Inventory, candidate: Inventory, img: Image, digest: Digest)
    requires Matches(rows, previous) && IsInventory(previous) && IsInventory(candidate)
    requires BuiltFrom(img, candidate, digest)
    ensures NoDrift(rows, img, digest) <==>
            forall name :: PathOf(img.service, name) in previous && PathOf(img.service, name) in candidate ==>
              candidate[PathOf(img.service, name)] == previous[PathOf(img.service, name)]
  {
    TargetRowsKeys(img, digest);
    forall name
      ensures (img.service, name) in TargetRows(img, digest) && (img.service, name) in rows <==>
              PathOf(img.service, name) in previous && PathOf(img.service, name) in candidate
      ensures (img.service, name) in rows ==> rows[(img.service, name)] == previous[PathOf(img.service, name)]
    {
      MatchedRow(rows, previous, img.service, name);
    }
    if NoDrift(rows, img, digest) {
      forall name | PathOf(img.service, name) in previous && PathOf(img.service, name) in candidate
        ensures candidate[PathOf(img.service, name)] == previous[PathOf(img.service, name)]
      {
        assert (img.service, name) in TargetRows(img, digest) && (img.service, name) in rows;
      }
    }
    if forall name :: PathOf(img.service, name) in previous && PathOf(img.service, name) in candidate ==>
         candidate[PathOf(img.service, name)] == previous[PathOf(img.service, name)] {
      forall k | k in TargetRows(img, digest) && k in rows ensures rows[k] == TargetRows(img, digest)[k] {
        assert k == (img.service, k.1);
      }
    }
  }
}
