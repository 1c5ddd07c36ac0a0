/**
 The merge of a batch into a timeline: a Map filled from the current entries, the batch applied
 in sequence order, the values sorted and cut to the newest ones.
 */
module Merge {
  import opened Projection
  import opened Listings

  // ----- The stable sort of a batch -----

  function InsertBySequence(sorted: seq<Operation>, u: Operation): seq<Operation> {
    if sorted == [] || sorted[|sorted| - 1].sequence <= u.sequence then sorted + [u]
    else InsertBySequence(sorted[..|sorted| - 1], u) + [sorted[|sorted| - 1]]
  }

  function SortBySequence(ops: seq<Operation>): seq<Operation> {
    if ops == [] then [] else InsertBySequence(SortBySequence(ops[..|ops| - 1]), ops[|ops| - 1])
  }

  ghost predicate InSequence(ops: seq<Operation>) {
    forall i, j :: 0 <= i <= j < |ops| ==> ops[i].sequence <= ops[j].sequence
  }

  /** The operations of one sequence, in their order. */
  function AtSequence(ops: seq<Operation>, n: int): seq<Operation> {
    if ops == [] then []
    else AtSequence(ops[..|ops| - 1], n) +
         (if ops[|ops| - 1].sequence == n then [ops[|ops| - 1]] else [])
  }

  lemma {:induction false} InsertKeepsAll(sorted: seq<Operation>, u: Operation)
    ensures multiset(InsertBySequence(sorted, u)) == multiset(sorted) + multiset{u}
    ensures Elements(InsertBySequence(sorted, u)) == Elements(sorted) + {u}
  {
    var r := InsertBySequence(sorted, u);
    if sorted != [] {
      var front, last := sorted[..|sorted| - 1], sorted[|sorted| - 1];
      assert sorted == front + [last];
      InsertKeepsAll(front, u);
    }
    assert multiset(r) == multiset(sorted) + multiset{u};
    assert forall x :: x in r <==> x in multiset(r);
    assert forall x :: x in sorted <==> x in multiset(sorted);
  }

  lemma {:induction false} InsertSorts(sorted: seq<Operation>, u: Operation)
    requires InSequence(sorted)
    ensures InSequence(InsertBySequence(sorted, u))
  {
    if sorted != [] && sorted[|sorted| - 1].sequence > u.sequence {
      var front, last := sorted[..|sorted| - 1], sorted[|sorted| - 1];
      InsertSorts(front, u);
      InsertKeepsAll(front, u);
      var r := InsertBySequence(front, u);
      forall i | 0 <= i < |r| ensures r[i].sequence <= last.sequence {
        assert r[i] in Elements(r);
        assert r[i] == u || r[i] in front;
      }
    }
  }

  lemma {:induction false} InsertKeepsTies(sorted: seq<Operation>, u: Operation, n: int)
    requires InSequence(sorted)
    ensures AtSequence(InsertBySequence(sorted, u), n) ==
            AtSequence(sorted, n) + (if u.sequence == n then [u] else [])
  {
    var r := InsertBySequence(sorted, u);
    if sorted == [] || sorted[|sorted| - 1].sequence <= u.sequence {
      assert r[..|r| - 1] == sorted;
    } else {
      var front, last := sorted[..|sorted| - 1], sorted[|sorted| - 1];
      InsertKeepsTies(front, u, n);
      assert r[..|r| - 1] == InsertBySequence(front, u);
    }
  }

  /** Ascending, the same operations, and ties left as they came. */
  lemma {:induction false} StableSort(ops: seq<Operation>)
    ensures InSequence(SortBySequence(ops)) && Elements(SortBySequence(ops)) == Elements(ops)
    ensures multiset(SortBySequence(ops)) == multiset(ops)
    ensures forall n :: AtSequence(SortBySequence(ops), n) == AtSequence(ops, n)
  {
    if ops != [] {
      var front, last := ops[..|ops| - 1], ops[|ops| - 1];
      assert ops == front + [last];
      StableSort(front);
      InsertSorts(SortBySequence(front), last);
      InsertKeepsAll(SortBySequence(front), last);
      forall n ensures AtSequence(SortBySequence(ops), n) == AtSequence(ops, n) {
        InsertKeepsTies(SortBySequence(front), last, n);
      }
    }
  }

  // ----- The table and its timeline -----

  ghost predicate KeysConsistent(t: Table) {
    forall k :: k in t ==> KeyOf(t[k]) == k
  }

  function TableOf(entries: seq<Entry>): Table {
    if entries == [] then map[]
    else TableOf(entries[..|entries| - 1])[KeyOf(entries[|entries| - 1]) := entries[|entries| - 1]]
  }

  lemma {:induction false} TableOfConsistent(entries: seq<Entry>)
    ensures KeysConsistent(TableOf(entries))
    ensures TableOf(entries).Values <= Elements(entries)
  {
    if entries != [] {
      var front := entries[..|entries| - 1];
      TableOfConsistent(front);
      assert entries == front + [entries[|entries| - 1]];
      forall e | e in TableOf(entries).Values ensures e in entries {
        var k :| k in TableOf(entries) && TableOf(entries)[k] == e;
        if k in TableOf(front) { assert TableOf(front)[k] in TableOf(front).Values; }
      }
    }
  }

  lemma ApplyOperationConsistent(f: Flavour, t: Table, op: Operation)
    requires KeysConsistent(t)
    ensures KeysConsistent(ApplyOperation(f, t, op))
  {}

  lemma {:induction false} ApplyAllConsistent(f: Flavour, t: Table, ops: seq<Operation>)
    requires KeysConsistent(t)
    ensures KeysConsistent(ApplyAll(f, t, ops))
  {
    if ops != [] {
      ApplyAllConsistent(f, t, ops[..|ops| - 1]);
      ApplyOperationConsistent(f, ApplyAll(f, t, ops[..|ops| - 1]), ops[|ops| - 1]);
    }
  }

  lemma EntriesLinear(S: set<Entry>)
    requires KeysDistinct(S)
    ensures Linear(S, EntryBefore)
  {
    forall a, b | a in S && b in S && a != b ensures EntryBefore(a, b) || EntryBefore(b, a) {
      EntryOrderTotal(a, b);
    }
    forall a, b, c | a in S && b in S && c in S && EntryBefore(a, b) && EntryBefore(b, c) ensures EntryBefore(a, c) {
      EntryOrderTransitive(a, b, c);
    }
  }

  lemma ValuesDistinct(t: Table)
    requires KeysConsistent(t)
    ensures KeysDistinct(t.Values) && Linear(t.Values, EntryBefore)
  {
    EntriesLinear(t.Values);
  }

  /** The values of the table, oldest origin first. */
  ghost function Timeline(t: Table): seq<Entry>
    requires KeysConsistent(t)
  {
    ValuesDistinct(t);
    Sorted(t.Values, EntryBefore)
  }

  /** The specification of both merge functions. */
  ghost function Merged(f: Flavour, current: seq<Entry>, updates: seq<Operation>, limit: nat): seq<Entry> {
    TableOfConsistent(current);
    ApplyAllConsistent(f, TableOf(current), SortBySequence(updates));
    SliceLast(Timeline(ApplyAll(f, TableOf(current), SortBySequence(updates))), limit)
  }

  // ----- What a merge says of failures -----

  /** Each failure of the table was one of the given entries, or is that of one of the operations. */
  ghost predicate FailuresFrom(t: Table, current: set<Entry>, ops: set<Operation>) {
    forall k :: k in t && t[k].Failure? ==> t[k] in current || exists op :: op in ops && IsFailureOf(t[k], op)
  }

  lemma StepFailuresFrom(f: Flavour, t: Table, op: Operation, current: set<Entry>, ops: set<Operation>)
    requires FailuresFrom(t, current, ops) && op in ops
    ensures FailuresFrom(ApplyOperation(f, t, op), current, ops)
  {
    var after := ApplyOperation(f, t, op);
    forall k | k in after && after[k].Failure?
      ensures after[k] in current || exists o :: o in ops && IsFailureOf(after[k], o)
    {
      if k !in t || after[k] != t[k] { assert IsFailureOf(after[k], op); }
    }
  }

  lemma {:induction false} AllFailuresFrom(f: Flavour, t: Table, ops: seq<Operation>, current: set<Entry>,
                                           all: set<Operation>)
    requires FailuresFrom(t, current, all) && Elements(ops) <= all
    ensures FailuresFrom(ApplyAll(f, t, ops), current, all)
  {
    if ops != [] {
      var front, op := ops[..|ops| - 1], ops[|ops| - 1];
      assert ops == front + [op];
      AllFailuresFrom(f, t, front, current, all);
      StepFailuresFrom(f, ApplyAll(f, t, front), op, current, all);
    }
  }

  /** Whatever was shown before: a failure in the result was shown before or copies an operation of the batch. */
  lemma MergedFailures(f: Flavour, current: seq<Entry>, updates: seq<Operation>, limit: nat, e: Entry)
    requires e in Merged(f, current, updates, limit) && e.Failure?
    ensures e in current || exists op :: op in updates && IsFailureOf(e, op)
  {
    var t := ApplyAll(f, TableOf(current), SortBySequence(updates));
    TableOfConsistent(current);
    ApplyAllConsistent(f, TableOf(current), SortBySequence(updates));
    StableSort(updates);
    TableFailures(current, Elements(updates));
    AllFailuresFrom(f, TableOf(current), SortBySequence(updates), Elements(current), Elements(updates));
    ValuesDistinct(t);
    assert e in Elements(Timeline(t));
    var k :| k in t && t[k] == e;
  }

  lemma TableFailures(current: seq<Entry>, ops: set<Operation>)
    ensures FailuresFrom(TableOf(current), Elements(current), ops)
  {
    TableOfConsistent(current);
    forall k | k in TableOf(current) ensures TableOf(current)[k] in Elements(current) {
      assert TableOf(current)[k] in TableOf(current).Values;
    }
  }

  // ----- The merge as the source runs it -----

  function InsertEntry(s: seq<Entry>, e: Entry): seq<Entry> {
    if s == [] || EntryBefore(s[|s| - 1], e) then s + [e] else InsertEntry(s[..|s| - 1], e) + [s[|s| - 1]]
  }

  lemma {:induction false} InsertEntryListing(s: seq<Entry>, S: set<Entry>, e: Entry)
    requires IsListing(s, S, EntryBefore) && KeysDistinct(S + {e}) && e !in S
    ensures IsListing(InsertEntry(s, e), S + {e}, EntryBefore)
  {
    var r := InsertEntry(s, e);
    EntriesLinear(S + {e});
    if s == [] || EntryBefore(s[|s| - 1], e) {
      forall i | 0 <= i < |s| ensures EntryBefore(s[i], e) {
        if i < |s| - 1 {
          EntryOrderTransitive(s[i], s[|s| - 1], e);
        }
      }
      assert Elements(r) == S + {e};
    } else {
      var front, last := s[..|s| - 1], s[|s| - 1];
      LinearSubset(S, S + {e}, EntryBefore);
      ListingFront(s, S, EntryBefore);
      InsertEntryListing(front, S - {last}, e);
      var q := InsertEntry(front, e);
      assert Elements(q) == S - {last} + {e} && last in S + {e};
      forall i | 0 <= i < |q| ensures EntryBefore(q[i], last) {
        assert q[i] in Elements(q);
        if q[i] != e {
          LastIsGreatest(s, S, EntryBefore);
          assert q[i] in S && q[i] != last;
        } else {
          EntryOrderTotal(e, last);
        }
      }
      assert Elements(r) == Elements(q) + {last};
    }
  }

  /** The Map the merge fills and mutates in place. */
  class ProjectionMap {
    var entries: Table

    constructor ()
      ensures entries == map[]
    {
      entries := map[];
    }

    /** nextEntries.set(entry.key, entry) for each current entry. */
    method Fill(current: seq<Entry>)
      requires entries == map[]
      modifies this
      ensures entries == TableOf(current)
    {
      var i := 0;
      while i < |current|
        invariant 0 <= i <= |current|
        invariant entries == TableOf(current[..i])
      {
        assert current[..i + 1][..i] == current[..i];
        entries := entries[KeyOf(current[i]) := current[i]];
        i := i + 1;
      }
      assert current[..i] == current;
    }

    method ApplyReadyProjection(f: Flavour, update: Operation) returns (applied: bool)
      requires update.Ready?
      modifies this
      ensures (entries, applied) == ApplyReady(f, old(entries), update)
    {
      if update.kind.Content? {
        var key := MessageKey(update.messageId);
        if key in entries && entries[key].Message? && entries[key].lastApplied >= update.sequence {
          return true;
        }
        entries := entries[key := ContentEntry(f, update)];
        return true;
      }
      var targetKey := MessageKey(TargetId(update));
      if targetKey !in entries || !entries[targetKey].Message? {
        entries := entries[OwnFailureKey(update) := FailureEntry(update)];
        return false;
      }
      entries := entries[targetKey := ApplyMutation(f, entries[targetKey], update)];
      return true;
    }

    /** Array.from(nextEntries.values()).sort(compareProjectionEntries) */
    method SortedValues() returns (s: seq<Entry>)
      requires KeysConsistent(entries)
      ensures s == Timeline(entries)
    {
      ValuesDistinct(entries);
      var rest := entries.Values;
      s := [];
      while rest != {}
        invariant rest <= entries.Values
        invariant IsListing(s, entries.Values - rest, EntryBefore)
        decreases |rest|
      {
        var e :| e in rest;
        InsertEntryListing(s, entries.Values - rest, e);
        s := InsertEntry(s, e);
        assert entries.Values - (rest - {e}) == entries.Values - rest + {e};
        rest := rest - {e};
      }
      assert entries.Values - rest == entries.Values;
      ListingUnique(s, entries.Values, EntryBefore);
    }
  }

  /** mergeEncryptedDirectMessageV2Projection and mergeEncryptedGroupProjection. */
  method MergeProjection(f: Flavour, current: seq<Entry>, updates: seq<Operation>, limit: nat)
    returns (items: seq<Entry>)
    ensures items == Merged(f, current, updates, limit)
  {
    var next := new ProjectionMap();
    next.Fill(current);
    var sorted := SortBySequence(updates);
    TableOfConsistent(current);
    var i := 0;
    while i < |sorted|
      invariant 0 <= i <= |sorted|
      invariant next.entries == ApplyAll(f, TableOf(current), sorted[..i])
    {
      assert sorted[..i + 1][..i] == sorted[..i];
      var update := sorted[i];
      if update.Undecrypted? {
        next.entries := next.entries[OwnFailureKey(update) := FailureEntry(update)];
      } else {
        var applied := next.ApplyReadyProjection(f, update);
        if applied {
          next.entries := next.entries - {OwnFailureKey(update)};
        }
      }
      i := i + 1;
    }
    assert sorted[..i] == sorted;
    ApplyAllConsistent(f, TableOf(current), sorted);
    var values := next.SortedValues();
    items := SliceLast(values, limit);
  }
}
