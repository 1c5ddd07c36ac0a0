/**
 The exact state of a bounded lane, whatever arrives: it holds the operations whose entries are
 still visible, each either applied or shown as a failure, and of the visibly unresolved mutations
 the newest ones that came by since. Nothing else influences what it shows next.
 */
module LaneHeld {
  import opened Projection
  import opened MessageRegisters
  import opened Log
  import opened Listings
  import opened Merge
  import opened LanePending
  import opened Confluence
  import opened LaneConfluence

  /** Applied operations, operations shown as failures, and the remembered mutations among these. */
  datatype Held = Held(split: Split, pending: set<Operation>)

  const HELD_NOTHING: Held := Held(Split({}, {}), {})

  ghost predicate HeldOk(h: Held) {
    SplitOk(h.split) && h.pending <= h.split.failed && forall u :: u in h.pending ==> IsMutation(u)
  }

  /** The lane shows what is held and nothing else. */
  ghost predicate Holds(f: Flavour, lane: Lane, h: Held) {
    && HeldOk(h)
    && IsListing(lane.items, SplitEntries(f, h.split), EntryBefore)
    && IsListing(lane.pending, h.pending, SequenceBefore)
  }

  /** The failures a lane shows are those of the held operations that failed, each said in full. */
  lemma HeldFailures(f: Flavour, lane: Lane, h: Held)
    requires Holds(f, lane, h)
    ensures forall e :: e in lane.items && e.Failure? ==> exists o :: o in h.split.failed && IsFailureOf(e, o)
    ensures forall o :: o in h.split.failed ==> exists e :: e in lane.items && IsFailureOf(e, o)
  {
    forall e | e in lane.items && e.Failure? ensures exists o :: o in h.split.failed && IsFailureOf(e, o) {
      assert e in Elements(lane.items);
      var o :| o in h.split.failed && e == FailureEntry(o);
      FailureCopies(o);
    }
    forall o | o in h.split.failed ensures exists e :: e in lane.items && IsFailureOf(e, o) {
      FailureCopies(o);
      assert FailureEntry(o) in Elements(lane.items);
    }
  }

  // ----- Forgetting what is no longer visible -----

  ghost function KeysOf(S: set<Entry>): set<Key> {
    set e | e in S :: KeyOf(e)
  }

  ghost predicate IsVisible(o: Operation, W: set<Entry>) {
    o.Ready? && MessageKey(if o.kind.Content? then o.messageId else TargetId(o)) in KeysOf(W)
  }

  ghost function Keep(s: Split, W: set<Entry>): Split {
    Split(set o | o in s.applied && IsVisible(o, W), set o | o in s.failed && OwnFailureKey(o) in KeysOf(W))
  }

  lemma KeptContent(f: Flavour, s: Split, W: set<Entry>, c: Operation)
    requires SplitOk(s) && W <= SplitEntries(f, s) && c in s.applied && IsContent(c)
    ensures c in Keep(s, W).applied <==> Registers(f, c, MutationsOf(s.applied, c.messageId)) in W
    ensures c in Keep(s, W).applied ==>
              MutationsOf(Keep(s, W).applied, c.messageId) == MutationsOf(s.applied, c.messageId)
  {
    var e := Registers(f, c, MutationsOf(s.applied, c.messageId));
    assert e in SplitEntries(f, s) && KeyOf(e) == MessageKey(c.messageId);
    SplitDistinct(f, s);
    if IsVisible(c, W) {
      var w :| w in W && KeyOf(w) == MessageKey(c.messageId);
      assert w == e;
    }
    if e in W { assert MessageKey(c.messageId) in KeysOf(W); }
  }

  lemma KeptFailure(f: Flavour, s: Split, W: set<Entry>, o: Operation)
    requires SplitOk(s) && W <= SplitEntries(f, s) && o in s.failed
    ensures o in Keep(s, W).failed <==> FailureEntry(o) in W
  {
    assert FailureEntry(o) in SplitEntries(f, s);
    SplitDistinct(f, s);
    if OwnFailureKey(o) in KeysOf(W) {
      var w :| w in W && KeyOf(w) == OwnFailureKey(o);
      assert w == FailureEntry(o);
    }
    if FailureEntry(o) in W { assert KeyOf(FailureEntry(o)) in KeysOf(W); }
  }

  lemma KeptOk(f: Flavour, s: Split, W: set<Entry>)
    requires SplitOk(s) && W <= SplitEntries(f, s)
    ensures SplitOk(Keep(s, W))
  {
    var k := Keep(s, W);
    WellFormedSubset(k.applied + k.failed, s.applied + s.failed);
    forall u | u in k.applied && IsMutation(u) ensures HasContent(k.applied, TargetId(u)) {
      KeptTarget(s, W, u);
    }
  }

  lemma KeptTarget(s: Split, W: set<Entry>, u: Operation)
    requires u in Keep(s, W).applied && IsMutation(u) && HasContent(s.applied, TargetId(u))
    ensures HasContent(Keep(s, W).applied, TargetId(u))
  {
    var c :| c in s.applied && IsContent(c) && c.messageId == TargetId(u);
    assert c in Keep(s, W).applied;
  }

  /** What is kept shows exactly the visible entries. */
  lemma KeptEntries(f: Flavour, s: Split, W: set<Entry>)
    requires SplitOk(s) && W <= SplitEntries(f, s)
    ensures SplitOk(Keep(s, W)) && SplitEntries(f, Keep(s, W)) == W
  {
    var k := Keep(s, W);
    KeptOk(f, s, W);
    forall e | e in W ensures e in SplitEntries(f, k) {
      if c :| c in s.applied && IsContent(c) && e == Registers(f, c, MutationsOf(s.applied, c.messageId)) {
        KeptContent(f, s, W, c);
      } else {
        var o :| o in s.failed && e == FailureEntry(o);
        KeptFailure(f, s, W, o);
      }
    }
    forall e | e in SplitEntries(f, k) ensures e in W {
      if c :| c in k.applied && IsContent(c) && e == Registers(f, c, MutationsOf(k.applied, c.messageId)) {
        KeptContent(f, s, W, c);
      } else {
        var o :| o in k.failed && e == FailureEntry(o);
        KeptFailure(f, s, W, o);
      }
    }
  }

  // ----- One delivery -----

  /** The remembered mutations whose content is in the batch. */
  ghost function Replayed(h: Held, B: set<Operation>): set<Operation> {
    set u | u in h.pending && HasContent(B, TargetIdOf(u))
  }

  function TargetIdOf(u: Operation): string {
    if u.Ready? then TargetId(u) else ""
  }

  ghost function AfterDelivery(h: Held, B: set<Operation>): Split {
    AfterBatch(h.split, B + Replayed(h, B))
  }

  ghost predicate Receives(h: Held, B: set<Operation>) {
    HeldOk(h) && WellFormed(h.split.applied + h.split.failed + B)
  }

  lemma AfterDeliveryOk(f: Flavour, lane: Lane, h: Held, batch: seq<Operation>)
    requires Holds(f, lane, h) && Receives(h, Elements(batch))
    ensures var ops := batch + RetryOf(lane.pending, ContentIds(batch));
            var after := ApplyAll(f, TableOf(lane.items), SortBySequence(ops));
            && SplitOk(AfterDelivery(h, Elements(batch))) && KeysConsistent(after)
            && after.Values == SplitEntries(f, AfterDelivery(h, Elements(batch)))
  {
    var retry := RetryOf(lane.pending, ContentIds(batch));
    RetryIsReplayed(f, lane, h, batch);
    assert Elements(batch + retry) == Elements(batch) + Replayed(h, Elements(batch));
    var all := h.split.applied + h.split.failed + Elements(batch);
    assert h.split.applied + h.split.failed + Elements(batch + retry) == all;
    MergedTable(f, lane.items, h.split, batch + retry);
  }

  lemma RetryIsReplayed(f: Flavour, lane: Lane, h: Held, batch: seq<Operation>)
    requires Holds(f, lane, h)
    ensures Elements(RetryOf(lane.pending, ContentIds(batch))) == Replayed(h, Elements(batch))
  {
    var ids := ContentIds(batch);
    forall u | u in h.pending ensures TargetsOneOf(u, ids) <==> HasContent(Elements(batch), TargetIdOf(u)) {
      assert Compatible(u, u);
      if TargetId(u) in ids {
        var c :| c in batch && IsContent(c) && c.messageId == TargetId(u);
        assert c in Elements(batch);
      }
    }
    assert forall u :: u in lane.pending <==> u in Elements(lane.pending);
  }

  /** The mutations at hand that are shown as unresolved. */
  ghost function Unresolved(ops: set<Operation>, s: Split): set<Operation> {
    set u | u in ops && IsMutation(u) && u in s.failed
  }

  /** What stays visible, and of the unresolved mutations at hand the newest. */
  ghost function NextHeld(f: Flavour, h: Held, B: set<Operation>, limit: nat): Held
    requires SplitOk(AfterDelivery(h, B)) && Receives(h, B)
  {
    var s := AfterDelivery(h, B);
    SplitDistinct(f, s);
    var kept := Keep(s, Window(SplitEntries(f, s), EntryBefore, limit));
    UnresolvedLinear(h.pending + B, kept, h.split.applied + h.split.failed + B);
    Held(kept, Window(Unresolved(h.pending + B, kept), SequenceBefore, PendingLimit(limit)))
  }

  lemma UnresolvedLinear(ops: set<Operation>, s: Split, L: set<Operation>)
    requires WellFormed(L) && ops <= L
    ensures Linear(Unresolved(ops, s), SequenceBefore)
  {
    WellFormedSubset(Unresolved(ops, s), L);
    OperationsLinear(Unresolved(ops, s));
  }

  lemma CandidateIsHeld(f: Flavour, s: Split, items: seq<Entry>, L: set<Operation>, u: Operation)
    requires SplitOk(s) && Elements(items) == SplitEntries(f, s)
    requires WellFormed(L) && s.applied + s.failed <= L && u in L
    ensures IsCandidate(u, UnresolvedIdentities(items)) <==> IsMutation(u) && u in s.failed
  {
    if IsCandidate(u, UnresolvedIdentities(items)) {
      var e :| e in items && IsUnresolved(e) && (e.messageId, e.sequence) == IdentityOf(u);
      assert e in SplitEntries(f, s);
      var o :| o in s.failed && e == FailureEntry(o);
      assert Compatible(o, u);
    }
    if IsMutation(u) && u in s.failed {
      assert FailureEntry(u) in Elements(items) && IsUnresolved(FailureEntry(u));
    }
  }

  lemma PendingHeld(f: Flavour, s: Split, items: seq<Entry>, ops: seq<Operation>, L: set<Operation>, limit: nat)
    requires SplitOk(s) && Elements(items) == SplitEntries(f, s)
    requires WellFormed(L) && s.applied + s.failed <= L && Elements(ops) <= L
    ensures Linear(Unresolved(Elements(ops), s), SequenceBefore)
    ensures RetainedPending(items, ops, limit) ==
            SliceLast(Sorted(Unresolved(Elements(ops), s), SequenceBefore), PendingLimit(limit))
  {
    var ids, unresolved := UnresolvedIdentities(items), Unresolved(Elements(ops), s);
    forall a, b | a in Elements(ops) && b in Elements(ops) && IdentityOf(a) == IdentityOf(b) ensures a == b {
      assert Compatible(a, b);
    }
    CandidatesElements(ops, ids);
    forall u | u in ops ensures IsCandidate(u, ids) <==> u in unresolved {
      assert u in Elements(ops);
      CandidateIsHeld(f, s, items, L, u);
    }
    assert Elements(CandidatesOf(ops, ids)) == unresolved;
    UnresolvedLinear(Elements(ops), s, L);
    SortIsListing(CandidatesOf(ops, ids));
  }

  /** The entries of a merge before the cut: the shown entries and the batch determine them. */
  ghost function MergedEntries(f: Flavour, items: seq<Entry>, batch: seq<Operation>): set<Entry> {
    ApplyAll(f, TableOf(items), SortBySequence(batch)).Values
  }

  /** The entries after one delivery, before and after the cut. */
  lemma ItemsShown(f: Flavour, lane: Lane, h: Held, batch: seq<Operation>, limit: nat)
    requires Holds(f, lane, h) && Receives(h, Elements(batch))
    ensures SplitOk(AfterDelivery(h, Elements(batch)))
    ensures Linear(SplitEntries(f, AfterDelivery(h, Elements(batch))), EntryBefore)
    ensures MergedEntries(f, lane.items, batch + RetryOf(lane.pending, ContentIds(batch))) ==
            SplitEntries(f, AfterDelivery(h, Elements(batch)))
    ensures Deliver(f, lane, batch, limit).items ==
            SliceLast(Sorted(SplitEntries(f, AfterDelivery(h, Elements(batch))), EntryBefore), limit)
  {
    AfterDeliveryOk(f, lane, h, batch);
    SplitDistinct(f, AfterDelivery(h, Elements(batch)));
  }

  lemma NextItems(f: Flavour, lane: Lane, h: Held, batch: seq<Operation>, limit: nat)
    requires Holds(f, lane, h) && Receives(h, Elements(batch)) && SplitOk(AfterDelivery(h, Elements(batch)))
    ensures var items, kept := Deliver(f, lane, batch, limit).items, NextHeld(f, h, Elements(batch), limit).split;
            SplitOk(kept) && IsListing(items, SplitEntries(f, kept), EntryBefore)
  {
    var s := AfterDelivery(h, Elements(batch));
    ItemsShown(f, lane, h, batch, limit);
    WindowIsListing(SplitEntries(f, s), EntryBefore, limit);
    KeptEntries(f, s, Window(SplitEntries(f, s), EntryBefore, limit));
  }

  /** One delivery to any lane, exactly: items and pending memory, whatever arrives and whatever is cut off. */
  lemma DeliverHeld(f: Flavour, lane: Lane, h: Held, batch: seq<Operation>, limit: nat)
    requires Holds(f, lane, h) && Receives(h, Elements(batch))
    ensures SplitOk(AfterDelivery(h, Elements(batch)))
    ensures Holds(f, Deliver(f, lane, batch, limit), NextHeld(f, h, Elements(batch), limit))
  {
    AfterDeliveryOk(f, lane, h, batch);
    NextItems(f, lane, h, batch, limit);
    NextPending(f, lane, h, batch, limit);
  }

  lemma NextPending(f: Flavour, lane: Lane, h: Held, batch: seq<Operation>, limit: nat)
    requires Holds(f, lane, h) && Receives(h, Elements(batch)) && SplitOk(AfterDelivery(h, Elements(batch)))
    ensures var next := NextHeld(f, h, Elements(batch), limit);
            && IsListing(Deliver(f, lane, batch, limit).pending, next.pending, SequenceBefore)
            && next.pending <= Unresolved(h.pending + Elements(batch), next.split)
  {
    var B, ops := Elements(batch), lane.pending + batch;
    var next, items := NextHeld(f, h, B, limit), Deliver(f, lane, batch, limit).items;
    var L := h.split.applied + h.split.failed + B;
    NextItems(f, lane, h, batch, limit);
    KeptWithin(f, h, B, limit);
    ElementsOfBoth(lane.pending, batch);
    PendingHeld(f, next.split, items, ops, L, limit);
    WindowIsListing(Unresolved(h.pending + B, next.split), SequenceBefore, PendingLimit(limit));
  }

  lemma ElementsOfBoth(a: seq<Operation>, b: seq<Operation>)
    ensures Elements(a + b) == Elements(a) + Elements(b)
  {}

  lemma KeptWithin(f: Flavour, h: Held, B: set<Operation>, limit: nat)
    requires Receives(h, B) && SplitOk(AfterDelivery(h, B))
    ensures var next := NextHeld(f, h, B, limit);
            next.split.applied + next.split.failed <= h.split.applied + h.split.failed + B
  {
    AfterDeliveryWithin(h, B, h.split.applied + h.split.failed);
  }

  lemma AfterDeliveryWithin(h: Held, B: set<Operation>, D: set<Operation>)
    requires h.split.applied + h.split.failed + h.pending <= D
    ensures AfterDelivery(h, B).applied + AfterDelivery(h, B).failed <= D + B
  {}

  // ----- Runs -----

  ghost function LaneOf(f: Flavour, h: Held): Lane
    requires HeldOk(h)
  {
    SplitDistinct(f, h.split);
    WellFormedSubset(h.pending, h.split.applied + h.split.failed);
    OperationsLinear(h.pending);
    Lane(Sorted(SplitEntries(f, h.split), EntryBefore), Sorted(h.pending, SequenceBefore))
  }

  lemma LaneHolds(f: Flavour, h: Held)
    requires HeldOk(h)
    ensures Holds(f, LaneOf(f, h), h)
  {
    SplitDistinct(f, h.split);
    WellFormedSubset(h.pending, h.split.applied + h.split.failed);
    OperationsLinear(h.pending);
  }

  /** What the lane holds after a run of deliveries. */
  ghost function HeldAfter(f: Flavour, batches: seq<seq<Operation>>, limit: nat): (h: Held)
    requires WellFormed(Delivered(batches))
    ensures HeldOk(h) && h.split.applied + h.split.failed <= Delivered(batches)
  {
    if batches == [] then HELD_NOTHING
    else
      var front, batch := batches[..|batches| - 1], batches[|batches| - 1];
      WellFormedSubset(Delivered(front), Delivered(batches));
      var before := HeldAfter(f, front, limit);
      WellFormedSubset(before.split.applied + before.split.failed + Elements(batch), Delivered(batches));
      LaneHolds(f, before);
      DeliverHeld(f, LaneOf(f, before), before, batch, limit);
      KeptWithin(f, before, Elements(batch), limit);
      NextHeld(f, before, Elements(batch), limit)
  }

  /** A lane over any page size and any well-formed log shows exactly what it holds, after every run. */
  lemma {:induction false} RunIsHeld(f: Flavour, batches: seq<seq<Operation>>, limit: nat)
    requires WellFormed(Delivered(batches))
    ensures Holds(f, DeliverAll(f, EMPTY_LANE, batches, limit), HeldAfter(f, batches, limit))
  {
    if batches != [] {
      var front, batch := batches[..|batches| - 1], batches[|batches| - 1];
      WellFormedSubset(Delivered(front), Delivered(batches));
      RunIsHeld(f, front, limit);
      var before := HeldAfter(f, front, limit);
      WellFormedSubset(before.split.applied + before.split.failed + Elements(batch), Delivered(batches));
      DeliverHeld(f, DeliverAll(f, EMPTY_LANE, front, limit), before, batch, limit);
    }
  }

  // ----- When nothing is forgotten -----

  /** Every visibly waiting mutation is remembered. */
  ghost predicate RemembersAll(h: Held) {
    h.pending == Unresolved(h.split.failed, h.split)
  }

  lemma {:induction false} FailuresCount(U: set<Operation>, S: set<Entry>)
    requires WellFormed(U) && forall u :: u in U ==> FailureEntry(u) in S
    ensures |U| <= |S|
    decreases |U|
  {
    if U != {} {
      var u :| u in U;
      WellFormedSubset(U - {u}, U);
      forall v | v in U - {u} ensures FailureEntry(v) in S - {FailureEntry(u)} {
        assert KeyOf(FailureEntry(v)) == OwnFailureKey(v) && KeyOf(FailureEntry(u)) == OwnFailureKey(u);
        assert Compatible(u, v);
      }
      FailuresCount(U - {u}, S - {FailureEntry(u)});
    }
  }

  lemma AtHandIsVisible(h: Held, B: set<Operation>, kept: Split)
    requires HeldOk(h) && RemembersAll(h) && kept.failed <= AfterDelivery(h, B).failed
    ensures Unresolved(h.pending + B, kept) == Unresolved(kept.failed, kept)
  {}

  lemma NextRemembersAll(f: Flavour, h: Held, B: set<Operation>, limit: nat)
    requires Receives(h, B) && SplitOk(AfterDelivery(h, B)) && RemembersAll(h)
    requires 0 < limit <= MAX_PENDING
    ensures RemembersAll(NextHeld(f, h, B, limit))
  {
    var W := NextWindow(f, h, B, limit);
    var kept := NextHeld(f, h, B, limit).split;
    var U := Unresolved(h.pending + B, kept);
    AtHandIsVisible(h, B, kept);
    WellFormedSubset(U, kept.applied + kept.failed);
    FailuresCount(U, W);
    WindowOfFew(U, SequenceBefore, PendingLimit(limit));
  }

  lemma NextWindow(f: Flavour, h: Held, B: set<Operation>, limit: nat) returns (W: set<Entry>)
    requires Receives(h, B) && SplitOk(AfterDelivery(h, B)) && limit > 0
    ensures var next := NextHeld(f, h, B, limit); var U := Unresolved(h.pending + B, next.split);
            && SplitOk(next.split) && SplitEntries(f, next.split) == W && |W| <= limit
            && next.split.failed <= AfterDelivery(h, B).failed && Linear(U, SequenceBefore)
            && next.pending == Window(U, SequenceBefore, PendingLimit(limit))
  {
    var s := AfterDelivery(h, B);
    SplitDistinct(f, s);
    W := Window(SplitEntries(f, s), EntryBefore, limit);
    WindowIsListing(SplitEntries(f, s), EntryBefore, limit);
    KeptEntries(f, s, W);
    UnresolvedLinear(h.pending + B, Keep(s, W), h.split.applied + h.split.failed + B);
  }

  lemma WindowOfFew(U: set<Operation>, lt: (Operation, Operation) -> bool, limit: nat)
    requires Linear(U, lt) && |U| <= limit
    ensures Window(U, lt, limit) == U
  {}

  lemma {:induction false} RunRemembersAll(f: Flavour, batches: seq<seq<Operation>>, limit: nat)
    requires WellFormed(Delivered(batches)) && 0 < limit <= MAX_PENDING
    ensures RemembersAll(HeldAfter(f, batches, limit))
  {
    if batches != [] {
      var front, batch := batches[..|batches| - 1], batches[|batches| - 1];
      WellFormedSubset(Delivered(front), Delivered(batches));
      RunRemembersAll(f, front, limit);
      var before := HeldAfter(f, front, limit);
      WellFormedSubset(before.split.applied + before.split.failed + Elements(batch), Delivered(batches));
      LaneHolds(f, before);
      DeliverHeld(f, LaneOf(f, before), before, batch, limit);
      NextRemembersAll(f, before, Elements(batch), limit);
    }
  }

  lemma RememberedEntry(f: Flavour, lane: Lane, h: Held, e: Entry)
    requires Holds(f, lane, h) && RemembersAll(h) && e in lane.items && IsUnresolved(e)
    ensures exists u :: u in lane.pending && e == FailureEntry(u)
  {
    assert e in Elements(lane.items);
    var u :| u in h.split.failed && e == FailureEntry(u);
    assert u in Elements(lane.pending);
  }

  /**
   With pages of at most 64 entries, the default among them, the cap on the memory never loses a
   waiting mutation: every mutation shown as unresolved is remembered and will be replayed.
   */
  lemma NothingForgotten(f: Flavour, batches: seq<seq<Operation>>, limit: nat, e: Entry)
    requires WellFormed(Delivered(batches)) && 0 < limit <= 64
    requires e in DeliverAll(f, EMPTY_LANE, batches, limit).items && IsUnresolved(e)
    ensures exists u :: u in DeliverAll(f, EMPTY_LANE, batches, limit).pending && e == FailureEntry(u)
  {
    RunIsHeld(f, batches, limit);
    RunRemembersAll(f, batches, limit);
    RememberedEntry(f, DeliverAll(f, EMPTY_LANE, batches, limit), HeldAfter(f, batches, limit), e);
  }
}
