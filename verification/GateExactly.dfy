/**
 Exactly which table the release gate takes for that of the previous release, and why it refuses
 another: the rows are read one by one, and the first bad one decides.
 */
module GateExactly {
  import opened Wrappers
  import opened ReleaseGate
  import opened GateMeetsBootstrap

  function RowOf(service: string, name: string, checksum: string): Json {
    Dict(map["service_name" := Str(service), "migration_name" := Str(name), "checksum" := Str(checksum)])
  }

  /** The JSON value is the row of this path and checksum, with nothing more or less to it. */
  ghost predicate IsRowOf(row: Json, path: string, checksum: string) {
    exists service, name ::
      row == RowOf(service, name, checksum) && path == "services/" + service + "/db/schema/" + name
  }

  lemma RowExactly(row: Json)
    ensures IsRow(row) <==> exists path, checksum :: IsRowOf(row, path, checksum)
    ensures IsRow(row) ==> IsRowOf(row, RowPath(row), row.fields["checksum"].s)
    ensures forall path, checksum :: IsRowOf(row, path, checksum) ==>
              IsRow(row) && path == RowPath(row) && checksum == row.fields["checksum"].s
  {
    if IsRow(row) {
      var service, name := row.fields["service_name"].s, row.fields["migration_name"].s;
      var same := RowOf(service, name, row.fields["checksum"].s);
      assert same.fields.Keys == ROW_KEYS;
      assert row.fields == same.fields && row == same;
      assert IsRowOf(row, RowPath(row), row.fields["checksum"].s);
    }
    forall path, checksum | IsRowOf(row, path, checksum)
      ensures IsRow(row) && path == RowPath(row) && checksum == row.fields["checksum"].s
    {
      var service, name :| row == RowOf(service, name, checksum) &&
                           path == "services/" + service + "/db/schema/" + name;
      assert row.fields.Keys == ROW_KEYS;
    }
  }

  // ----- When the state check passes -----

  ghost predicate IsRowIn(row: Json, previous: Inventory) {
    exists p :: p in previous && IsRowOf(row, p, previous[p])
  }

  ghost predicate SamePath(a: Json, b: Json) {
    exists p, c, d :: IsRowOf(a, p, c) && IsRowOf(b, p, d)
  }

  ghost predicate IsListed(items: seq<Json>, p: string, checksum: string) {
    exists i :: 0 <= i < |items| && IsRowOf(items[i], p, checksum)
  }

  /** One row for every path of the inventory, with its checksum, and no other row. */
  ghost predicate ListsInventory(items: seq<Json>, previous: Inventory) {
    && (forall i :: 0 <= i < |items| ==> IsRowIn(items[i], previous))
    && (forall i, j :: 0 <= i < j < |items| ==> !SamePath(items[i], items[j]))
    && (forall p :: p in previous ==> IsListed(items, p, previous[p]))
  }

  lemma RowInExactly(row: Json, previous: Inventory)
    ensures IsRowIn(row, previous) <==>
            IsRow(row) && RowPath(row) in previous && previous[RowPath(row)] == row.fields["checksum"].s
  {
    RowExactly(row);
  }

  lemma SamePathExactly(a: Json, b: Json)
    ensures SamePath(a, b) <==> IsRow(a) && IsRow(b) && RowPath(a) == RowPath(b)
  {
    RowExactly(a);
    RowExactly(b);
  }

  lemma ListedExactly(items: seq<Json>, p: string, checksum: string)
    ensures IsListed(items, p, checksum) <==>
            exists i :: 0 <= i < |items| && IsRow(items[i]) && RowPath(items[i]) == p &&
              items[i].fields["checksum"].s == checksum
  {
    forall i | 0 <= i < |items|
      ensures IsRowOf(items[i], p, checksum) <==>
              IsRow(items[i]) && RowPath(items[i]) == p && items[i].fields["checksum"].s == checksum
    {
      RowExactly(items[i]);
    }
  }

  lemma {:induction false} AppliedDistinct(items: seq<Json>)
    requires AppliedOf(items).Ok?
    ensures AllPathsDistinct(items)
  {
    if items != [] {
      var front := items[..|items| - 1];
      AppliedDistinct(front);
      AppliedMeaning(front);
      forall i, j | 0 <= i < j < |items|
        ensures IsRow(items[i]) && IsRow(items[j]) && RowPath(items[i]) != RowPath(items[j])
      {
        assert front[i] == items[i];
        if j < |front| { assert front[j] == items[j]; }
      }
      assert IsRow(items[|items| - 1]);
      forall i | 0 <= i < |items| ensures IsRow(items[i]) {
        if i < |front| { assert front[i] == items[i]; }
      }
    }
  }

  lemma PassedLists(previous: Inventory, items: seq<Json>)
    requires AppliedOf(items) == Ok(previous)
    ensures ListsInventory(items, previous)
  {
    AppliedMeaning(items);
    AppliedDistinct(items);
    forall i | 0 <= i < |items| ensures IsRowIn(items[i], previous) {
      RowInExactly(items[i], previous);
    }
    forall i, j | 0 <= i < j < |items| ensures !SamePath(items[i], items[j]) {
      SamePathExactly(items[i], items[j]);
    }
    forall p | p in previous ensures IsListed(items, p, previous[p]) {
      assert HasPath(items, p);
      ListedExactly(items, p, previous[p]);
    }
  }

  lemma ListedDistinct(previous: Inventory, items: seq<Json>)
    requires ListsInventory(items, previous)
    ensures AllPathsDistinct(items)
  {
    forall i | 0 <= i < |items| ensures IsRow(items[i]) {
      RowInExactly(items[i], previous);
    }
    forall i, j | 0 <= i < j < |items| ensures RowPath(items[i]) != RowPath(items[j]) {
      SamePathExactly(items[i], items[j]);
    }
  }

  lemma ListedIsApplied(previous: Inventory, items: seq<Json>, p: string)
    requires AppliedOf(items).Ok? && p in previous && IsListed(items, p, previous[p])
    ensures p in AppliedOf(items).value && AppliedOf(items).value[p] == previous[p]
  {
    AppliedRows(items);
    ListedExactly(items, p, previous[p]);
  }

  lemma AllListedApplied(previous: Inventory, items: seq<Json>)
    requires AppliedOf(items).Ok? && ListsInventory(items, previous)
    ensures forall p :: p in previous ==> p in AppliedOf(items).value && AppliedOf(items).value[p] == previous[p]
  {
    forall p | p in previous ensures p in AppliedOf(items).value && AppliedOf(items).value[p] == previous[p] {
      ListedIsApplied(previous, items, p);
    }
  }

  lemma AppliedIsListed(previous: Inventory, items: seq<Json>, p: string)
    requires AppliedOf(items).Ok? && p in AppliedOf(items).value
    requires forall i :: 0 <= i < |items| ==> IsRowIn(items[i], previous)
    ensures p in previous
  {
    AppliedPaths(items);
    assert HasPath(items, p);
    var i :| 0 <= i < |items| && IsRow(items[i]) && RowPath(items[i]) == p;
    RowInExactly(items[i], previous);
  }

  lemma AllAppliedListed(previous: Inventory, items: seq<Json>)
    requires AppliedOf(items).Ok? && ListsInventory(items, previous)
    ensures forall p :: p in AppliedOf(items).value ==> p in previous
  {
    forall p | p in AppliedOf(items).value ensures p in previous {
      AppliedIsListed(previous, items, p);
    }
  }

  lemma SameInventory(a: Inventory, b: Inventory)
    requires forall p :: p in b ==> p in a && a[p] == b[p]
    requires forall p :: p in a ==> p in b
    ensures a == b
  {}

  lemma ListedPasses(previous: Inventory, items: seq<Json>)
    requires ListsInventory(items, previous)
    ensures AppliedOf(items) == Ok(previous)
  {
    ListedDistinct(previous, items);
    DistinctPathsPass(items);
    AllListedApplied(previous, items);
    AllAppliedListed(previous, items);
    SameInventory(AppliedOf(items).value, previous);
  }

  /** The state check passes exactly on a list with one exact row for every path, and nothing else. */
  lemma StateAcceptsExactly(previous: Inventory, state: Json)
    ensures SchemaState(previous, state).Ok? <==> state.List? && ListsInventory(state.items, previous)
  {
    if state.List? {
      if SchemaState(previous, state).Ok? { PassedLists(previous, state.items); }
      if ListsInventory(state.items, previous) { ListedPasses(previous, state.items); }
    }
  }

  // ----- Which refusal -----

  lemma {:induction false} FirstBadRow(items: seq<Json>) returns (i: nat)
    requires AppliedOf(items).Err?
    ensures i < |items| && AllPathsDistinct(items[..i])
    ensures AppliedOf(items).error ==
            if IsRow(items[i]) then DuplicateRow else MalformedRow
    ensures IsRow(items[i]) ==> HasPath(items[..i], RowPath(items[i]))
  {
    var front, n := items[..|items| - 1], |items| - 1;
    if AppliedOf(front).Err? {
      i := FirstBadRow(front);
      assert front[..i] == items[..i] && front[i] == items[i];
    } else {
      i := n;
      AppliedDistinct(front);
      AppliedMeaning(front);
    }
  }

  /**
   Which refusal: not a list at all, or the first row that is malformed or repeats a path before it,
   or, all rows being good, another table than the inventory's.
   */
  lemma StateRefusesExactly(previous: Inventory, state: Json) returns (i: nat)
    requires SchemaState(previous, state).Err?
    ensures SchemaState(previous, state).error == NotAList <==> !state.List?
    ensures state.List? && AllPathsDistinct(state.items) ==> SchemaState(previous, state).error == SchemaMismatch
    ensures state.List? && !AllPathsDistinct(state.items) ==>
              && i < |state.items| && AllPathsDistinct(state.items[..i])
              && SchemaState(previous, state).error == (if IsRow(state.items[i]) then DuplicateRow else MalformedRow)
              && (IsRow(state.items[i]) ==> HasPath(state.items[..i], RowPath(state.items[i])))
  {
    i := 0;
    if state.List? {
      if AppliedOf(state.items).Err? {
        i := FirstBadRow(state.items);
      } else {
        AppliedDistinct(state.items);
      }
      if AllPathsDistinct(state.items) { DistinctPathsPass(state.items); }
    }
  }
}
