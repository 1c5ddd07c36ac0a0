/**
 Arrival-order confluence: whatever the order, batching and repetition of the deliveries, the
 lane shows the projection of the SET of delivered operations.
 */
module Confluence {
  import opened Projection
  import opened MessageRegisters
  import opened Log
  import opened Listings
  import opened Merge
  import opened LanePending

  // ----- The declarative projection of a set of operations -----

  ghost predicate IsOrphan(D: set<Operation>, u: Operation) {
    IsMutation(u) && !HasContent(D, TargetId(u))
  }

  ghost function Orphans(D: set<Operation>): set<Operation> {
    set u | u in D && IsOrphan(D, u)
  }

  /** What D makes effective, and what it leaves visible as failures. */
  ghost function SplitOf(D: set<Operation>): Split {
    Split(set o | o in D && o.Ready? && !IsOrphan(D, o),
          set o | o in D && (o.Undecrypted? || IsOrphan(D, o)))
  }

  /** One entry per content, with the registers of its mutations; one failure per other operation. */
  ghost function EntriesOf(f: Flavour, D: set<Operation>): set<Entry> {
    (set c | c in D && IsContent(c) :: Registers(f, c, MutationsOf(D, c.messageId))) +
    (set o | o in D && (o.Undecrypted? || IsOrphan(D, o)) :: FailureEntry(o))
  }

  lemma SplitOfOk(D: set<Operation>)
    requires WellFormed(D)
    ensures SplitOk(SplitOf(D)) && SplitOf(D).applied + SplitOf(D).failed == D
  {
    var s := SplitOf(D);
    WellFormedSubset(s.applied + s.failed, D);
    forall u | u in s.applied && IsMutation(u) ensures HasContent(s.applied, TargetId(u)) {
      var c :| c in D && IsContent(c) && c.messageId == TargetId(u);
      assert c in s.applied;
    }
  }

  lemma MutationsOfSplit(D: set<Operation>, c: Operation)
    requires c in D && IsContent(c)
    ensures MutationsOf(SplitOf(D).applied, c.messageId) == MutationsOf(D, c.messageId)
  {
    forall u | u in MutationsOf(D, c.messageId) ensures u in SplitOf(D).applied {
      assert HasContent(D, TargetId(u));
    }
  }

  /** The entries of a split: one per applied content, one per failed operation. */
  ghost function SplitEntries(f: Flavour, s: Split): set<Entry> {
    (set c | c in s.applied && IsContent(c) :: Registers(f, c, MutationsOf(s.applied, c.messageId))) +
    (set o | o in s.failed :: FailureEntry(o))
  }

  lemma EntriesOfSplit(f: Flavour, D: set<Operation>)
    ensures EntriesOf(f, D) == SplitEntries(f, SplitOf(D))
  {
    var s := SplitOf(D);
    forall c | c in D && IsContent(c)
      ensures c in s.applied && MutationsOf(s.applied, c.messageId) == MutationsOf(D, c.messageId)
    {
      MutationsOfSplit(D, c);
    }
    assert forall c :: c in s.applied ==> c in D;
  }

  /** A table that shows a split has the split's entries as its values. */
  lemma ShowsValues(f: Flavour, t: Table, s: Split)
    requires Shows(f, t, s) && KeysConsistent(t)
    ensures t.Values == SplitEntries(f, s)
  {
    forall e | e in t.Values ensures e in SplitEntries(f, s) {
      var k :| k in t && t[k] == e;
      assert KeyShown(k, s);
      match k
      case MessageKey(id) =>
        var c :| c in s.applied && IsContent(c) && c.messageId == id;
        assert e == Registers(f, c, MutationsOf(s.applied, c.messageId));
      case FailureKey(_, _) =>
        var o :| o in s.failed && OwnFailureKey(o) == k;
        assert e == FailureEntry(o);
    }
    forall c | c in s.applied && IsContent(c) ensures Registers(f, c, MutationsOf(s.applied, c.messageId)) in t.Values {
      assert t[MessageKey(c.messageId)] in t.Values;
    }
    forall o | o in s.failed ensures FailureEntry(o) in t.Values {
      assert t[OwnFailureKey(o)] in t.Values;
    }
  }

  lemma ValuesShow(f: Flavour, t: Table, s: Split)
    requires t.Values == SplitEntries(f, s) && KeysConsistent(t)
    ensures Shows(f, t, s)
  {
    forall c | c in s.applied && IsContent(c)
      ensures MessageKey(c.messageId) in t &&
              t[MessageKey(c.messageId)] == Registers(f, c, MutationsOf(s.applied, c.messageId))
    {
      var e := Registers(f, c, MutationsOf(s.applied, c.messageId));
      assert e in t.Values;
      var k :| k in t && t[k] == e;
    }
    forall o | o in s.failed ensures OwnFailureKey(o) in t && t[OwnFailureKey(o)] == FailureEntry(o) {
      assert FailureEntry(o) in t.Values;
      var k :| k in t && t[k] == FailureEntry(o);
    }
    forall k | k in t ensures KeyShown(k, s) {
      EntryKeyShown(f, s, t[k]);
    }
  }

  lemma EntryKeyShown(f: Flavour, s: Split, e: Entry)
    requires e in SplitEntries(f, s)
    ensures KeyShown(KeyOf(e), s)
  {
    if c :| c in s.applied && IsContent(c) && e == Registers(f, c, MutationsOf(s.applied, c.messageId)) {
      assert HasContent(s.applied, c.messageId);
    } else {
      var o :| o in s.failed && e == FailureEntry(o);
      assert OwnFailureKey(o) == KeyOf(e);
    }
  }

  lemma SplitDistinct(f: Flavour, s: Split)
    requires SplitOk(s)
    ensures KeysDistinct(SplitEntries(f, s)) && Linear(SplitEntries(f, s), EntryBefore)
  {
    forall a, b | a in SplitEntries(f, s) && b in SplitEntries(f, s) && KeyOf(a) == KeyOf(b) ensures a == b {
      EntryDetermined(f, s, a, b);
    }
    EntriesLinear(SplitEntries(f, s));
  }

  lemma EntryDetermined(f: Flavour, s: Split, a: Entry, b: Entry)
    requires SplitOk(s) && a in SplitEntries(f, s) && b in SplitEntries(f, s) && KeyOf(a) == KeyOf(b)
    ensures a == b
  {
    if a.Message? {
      var c :| c in s.applied && IsContent(c) && a == Registers(f, c, MutationsOf(s.applied, c.messageId));
      var d :| d in s.applied && IsContent(d) && b == Registers(f, d, MutationsOf(s.applied, d.messageId));
      assert Compatible(c, d);
    } else {
      var o :| o in s.failed && a == FailureEntry(o);
      var p :| p in s.failed && b == FailureEntry(p);
      assert KeyOf(FailureEntry(o)) == OwnFailureKey(o) && KeyOf(FailureEntry(p)) == OwnFailureKey(p);
      assert Compatible(o, p);
    }
  }

  lemma EntriesDistinct(f: Flavour, D: set<Operation>)
    requires WellFormed(D)
    ensures KeysDistinct(EntriesOf(f, D)) && Linear(EntriesOf(f, D), EntryBefore)
  {
    SplitOfOk(D);
    EntriesOfSplit(f, D);
    SplitDistinct(f, SplitOf(D));
  }

  /** The agreed timeline of a set of operations. */
  ghost function Project(f: Flavour, D: set<Operation>): (timeline: seq<Entry>)
    requires WellFormed(D)
    ensures |timeline| == |EntriesOf(f, D)|
  {
    EntriesDistinct(f, D);
    Sorted(EntriesOf(f, D), EntryBefore)
  }

  ghost predicate Fails(D: set<Operation>, o: Operation) {
    o in D && (o.Undecrypted? || IsOrphan(D, o))
  }

  lemma EntriesFailures(f: Flavour, D: set<Operation>)
    ensures forall e :: e in EntriesOf(f, D) && e.Failure? ==> exists o :: Fails(D, o) && IsFailureOf(e, o)
    ensures forall o :: Fails(D, o) ==> exists e :: e in EntriesOf(f, D) && IsFailureOf(e, o)
  {
    forall e | e in EntriesOf(f, D) && e.Failure? ensures exists o :: Fails(D, o) && IsFailureOf(e, o) {
      var o :| o in D && (o.Undecrypted? || IsOrphan(D, o)) && e == FailureEntry(o);
      FailureCopies(o);
    }
    forall o | Fails(D, o) ensures exists e :: e in EntriesOf(f, D) && IsFailureOf(e, o) {
      FailureCopies(o);
      assert FailureEntry(o) in EntriesOf(f, D);
    }
  }

  /** The failures of the timeline are those of the operations that failed or wait, each said in full. */
  lemma FailuresSaid(f: Flavour, D: set<Operation>)
    requires WellFormed(D)
    ensures forall e :: e in Project(f, D) && e.Failure? ==> exists o :: Fails(D, o) && IsFailureOf(e, o)
    ensures forall o :: Fails(D, o) ==> exists e :: e in Project(f, D) && IsFailureOf(e, o)
  {
    EntriesDistinct(f, D);
    EntriesFailures(f, D);
    assert forall e :: e in Project(f, D) <==> e in Elements(Project(f, D));
  }

  lemma OperationsLinear(S: set<Operation>)
    requires WellFormed(S)
    ensures Linear(S, SequenceBefore)
  {
    WellFormedSubset(S, S);
  }

  /** The mutations that still wait for their content, oldest first. */
  ghost function Waiting(D: set<Operation>): (pending: seq<Operation>)
    requires WellFormed(D)
    ensures Elements(pending) == Orphans(D) && |pending| == |Orphans(D)|
  {
    WellFormedSubset(Orphans(D), D);
    OperationsLinear(Orphans(D));
    Sorted(Orphans(D), SequenceBefore)
  }

  // ----- One merge of a sorted batch -----

  ghost predicate Resolved(s: Split, P: set<Operation>, o: Operation) {
    IsMutation(o) && HasContent(s.applied + P, TargetId(o))
  }

  /** The split after a batch P, said without the order of P. */
  ghost function AfterBatch(s: Split, P: set<Operation>): Split {
    Split(s.applied + (set o | o in P && (IsContent(o) || Resolved(s, P, o))),
          s.failed - (set o | o in P && Resolved(s, P, o)) +
          (set o | o in P && !IsContent(o) && !Resolved(s, P, o)))
  }

  /** In sequence order a mutation always finds the content of its own batch. */
  lemma AfterBatchStep(s: Split, P: set<Operation>, op: Operation)
    requires WellFormed(s.applied + P + {op})
    requires forall o :: o in P ==> o.sequence <= op.sequence
    ensures StepSplit(AfterBatch(s, P), op) == AfterBatch(s, P + {op})
  {
    forall o | o in P ensures Resolved(s, P + {op}, o) <==> Resolved(s, P, o) {
      if Resolved(s, P + {op}, o) {
        var c :| c in s.applied + (P + {op}) && IsContent(c) && c.messageId == TargetId(o);
        assert Compatible(o, c);
        assert c != op;
        assert c in s.applied + P;
      }
      if Resolved(s, P, o) {
        var c :| c in s.applied + P && IsContent(c) && c.messageId == TargetId(o);
        assert c in s.applied + (P + {op});
      }
    }
    if IsMutation(op) {
      assert Resolved(s, P + {op}, op) <==> HasContent(AfterBatch(s, P).applied, TargetId(op)) by {
        ContentsAfterBatch(s, P, op);
      }
    }
    AfterBatchShape(s, P, op);
  }

  lemma ContentsAfterBatch(s: Split, P: set<Operation>, op: Operation)
    requires IsMutation(op)
    ensures Resolved(s, P + {op}, op) <==> HasContent(AfterBatch(s, P).applied, TargetId(op))
  {
    if Resolved(s, P + {op}, op) {
      var c :| c in s.applied + (P + {op}) && IsContent(c) && c.messageId == TargetId(op);
      assert c in AfterBatch(s, P).applied;
    }
    if HasContent(AfterBatch(s, P).applied, TargetId(op)) {
      var c :| c in AfterBatch(s, P).applied && IsContent(c) && c.messageId == TargetId(op);
      assert c in s.applied + (P + {op});
    }
  }

  lemma AfterBatchShape(s: Split, P: set<Operation>, op: Operation)
    requires forall o :: o in P ==> (Resolved(s, P + {op}, o) <==> Resolved(s, P, o))
    requires IsMutation(op) ==> (Resolved(s, P + {op}, op) <==> HasContent(AfterBatch(s, P).applied, TargetId(op)))
    ensures StepSplit(AfterBatch(s, P), op) == AfterBatch(s, P + {op})
  {
    var x, y := StepSplit(AfterBatch(s, P), op), AfterBatch(s, P + {op});
    assert x.applied == y.applied;
    assert x.failed == y.failed;
  }

  lemma {:induction false} FoldIsAfterBatch(s: Split, ops: seq<Operation>, L: set<Operation>)
    requires WellFormed(L) && s.applied + Elements(ops) <= L && InSequence(ops)
    ensures FoldSplit(s, ops) == AfterBatch(s, Elements(ops))
  {
    if ops == [] {
      assert Elements(ops) == {};
      assert AfterBatch(s, {}).applied == s.applied && AfterBatch(s, {}).failed == s.failed;
    } else {
      var front, op := ops[..|ops| - 1], ops[|ops| - 1];
      assert ops == front + [op];
      FoldIsAfterBatch(s, front, L);
      LastIsLatest(ops);
      WellFormedSubset(s.applied + Elements(front) + {op}, L);
      AfterBatchStep(s, Elements(front), op);
    }
  }

  lemma LastIsLatest(ops: seq<Operation>)
    requires ops != [] && InSequence(ops)
    ensures InSequence(ops[..|ops| - 1])
    ensures forall o :: o in Elements(ops[..|ops| - 1]) ==> o.sequence <= ops[|ops| - 1].sequence
    ensures Elements(ops) == Elements(ops[..|ops| - 1]) + {ops[|ops| - 1]}
  {
    var front := ops[..|ops| - 1];
    assert ops == front + [ops[|ops| - 1]];
    forall o | o in front ensures o.sequence <= ops[|ops| - 1].sequence {
      var i :| 0 <= i < |front| && front[i] == o;
      assert ops[i] == o;
    }
  }

  /** Every waiting mutation whose content is in the batch is in the batch too. */
  ghost predicate ReplaysWaiting(D: set<Operation>, P: set<Operation>) {
    forall u :: u in D && IsOrphan(D, u) && HasContent(P, TargetId(u)) ==> u in P
  }

  lemma HasContentUnion(D: set<Operation>, P: set<Operation>, id: string)
    ensures HasContent(D + P, id) <==> HasContent(D, id) || HasContent(P, id)
    ensures HasContent(SplitOf(D).applied + P, id) <==> HasContent(D + P, id)
  {
    if HasContent(D, id) {
      var c :| c in D && IsContent(c) && c.messageId == id;
      assert c in D + P && c in SplitOf(D).applied + P;
    }
    if HasContent(P, id) {
      var c :| c in P && IsContent(c) && c.messageId == id;
      assert c in D + P && c in SplitOf(D).applied + P;
    }
  }

  lemma AfterBatchIsSplit(D: set<Operation>, P: set<Operation>)
    requires ReplaysWaiting(D, P)
    ensures AfterBatch(SplitOf(D), P) == SplitOf(D + P)
  {
    var s, x, y := SplitOf(D), AfterBatch(SplitOf(D), P), SplitOf(D + P);
    forall o | o in D + P ensures o in x.applied <==> o in y.applied {
      if IsMutation(o) { HasContentUnion(D, P, TargetId(o)); }
    }
    assert x.applied == y.applied;
    forall o | o in D + P ensures o in x.failed <==> o in y.failed {
      if IsMutation(o) { HasContentUnion(D, P, TargetId(o)); }
    }
    assert x.failed == y.failed;
  }

  /** The table a merge builds over the entries of a split: those of the split after the batch. */
  lemma MergedTable(f: Flavour, current: seq<Entry>, s: Split, batch: seq<Operation>)
    requires SplitOk(s) && WellFormed(s.applied + s.failed + Elements(batch))
    requires IsListing(current, SplitEntries(f, s), EntryBefore)
    ensures SplitOk(AfterBatch(s, Elements(batch)))
    ensures var after := ApplyAll(f, TableOf(current), SortBySequence(batch));
            KeysConsistent(after) && after.Values == SplitEntries(f, AfterBatch(s, Elements(batch)))
  {
    var L, ops, t := s.applied + s.failed + Elements(batch), SortBySequence(batch), TableOf(current);
    SplitDistinct(f, s);
    TableOfConsistent(current);
    TableOfListing(current);
    ValuesShow(f, t, s);
    StableSort(batch);
    FoldShows(f, t, s, ops, L);
    FoldIsAfterBatch(s, ops, L);
    ApplyAllConsistent(f, t, ops);
    ShowsValues(f, ApplyAll(f, t, ops), AfterBatch(s, Elements(batch)));
  }

  /** One merge over the whole projection of D gives the projection of D and the batch. */
  lemma MergeProjects(f: Flavour, current: seq<Entry>, D: set<Operation>, batch: seq<Operation>, limit: nat)
    requires WellFormed(D + Elements(batch)) && WellFormed(D)
    requires current == Project(f, D) && ReplaysWaiting(D, Elements(batch))
    ensures Merged(f, current, batch, limit) == SliceLast(Project(f, D + Elements(batch)), limit)
  {
    SplitOfOk(D);
    EntriesDistinct(f, D);
    EntriesOfSplit(f, D);
    EntriesOfSplit(f, D + Elements(batch));
    AfterBatchIsSplit(D, Elements(batch));
    MergedTable(f, current, SplitOf(D), batch);
  }

  lemma {:induction false} TableOfListing(entries: seq<Entry>)
    requires KeysDistinct(Elements(entries))
    ensures TableOf(entries).Values == Elements(entries)
  {
    TableOfConsistent(entries);
    if entries != [] {
      var front, last := entries[..|entries| - 1], entries[|entries| - 1];
      assert entries == front + [last];
      assert Elements(front) <= Elements(entries);
      TableOfListing(front);
      forall e | e in entries ensures e in TableOf(entries).Values {
        if e in front {
          assert e in TableOf(front).Values;
          var k :| k in TableOf(front) && TableOf(front)[k] == e;
          TableOfConsistent(front);
          if k == KeyOf(last) { assert e == last; }
          assert TableOf(entries)[k] == e;
        } else {
          assert TableOf(entries)[KeyOf(last)] == e;
        }
      }
    }
  }
}
