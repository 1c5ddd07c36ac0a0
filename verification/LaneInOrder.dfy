/**
 Windows whose mutations all come after their messages. Then only a mutation whose message the
 window has evicted can go wrong, and the client can see it: the timeline is the right one exactly
 when it shows no unresolved mutation.
 */
module LaneInOrder {
  import opened Projection
  import opened MessageRegisters
  import opened Log
  import opened Listings
  import opened Merge
  import opened LanePending
  import opened Confluence
  import opened LaneConfluence
  import opened LaneHeld
  import opened LaneWindow

  lemma {:induction false} KeysCount(S: set<Entry>)
    requires KeysDistinct(S)
    ensures |KeysOf(S)| == |S|
    decreases |S|
  {
    if S != {} {
      var e :| e in S;
      KeysCount(S - {e});
      assert KeysOf(S) == KeysOf(S - {e}) + {KeyOf(e)};
      assert KeyOf(e) !in KeysOf(S - {e});
    }
  }

  /** If every member of a full window lives on in C, an entry below it has a full window above it in C. */
  lemma FullWindowLivesOn(W: set<Entry>, C: set<Entry>, x: Entry, y: Entry, limit: nat)
    requires KeysDistinct(W) && KeysDistinct(C) && |W| == limit
    requires forall w :: w in W ==> EntryBefore(x, w)
    requires forall w :: w in W ==> exists e :: e in C && SamePlace(w, e)
    requires SamePlace(x, y)
    ensures |Newer(C, y, EntryBefore)| >= limit
  {
    var N := Newer(C, y, EntryBefore);
    forall k | k in KeysOf(W) ensures k in KeysOf(N) {
      var w :| w in W && KeyOf(w) == k;
      var e :| e in C && SamePlace(w, e);
      assert EntryBefore(y, e);
      assert e in N;
    }
    SmallerSet(KeysOf(W), KeysOf(N));
    KeysCount(W);
    KeysCount(N);
  }

  /** What W leaves out of the entries of D lies below a full window. */
  ghost predicate CutsBelow(f: Flavour, D: set<Operation>, W: set<Entry>, limit: nat) {
    forall e :: e in EntriesOf(f, D) - W ==> |W| == limit && forall w :: w in W ==> EntryBefore(e, w)
  }

  ghost predicate InOrder(f: Flavour, D: set<Operation>, W: set<Entry>, B: set<Operation>, limit: nat) {
    Arrives(f, D, W, {}, B) && CutsBelow(f, D, W, limit) && Orphans(D) == {} && Orphans(D + B) == {}
  }

  lemma WindowInOrder(f: Flavour, D: set<Operation>, B: set<Operation>, limit: nat)
    requires WellFormed(D) && WellFormed(D + B) && Orphans(D) == {} && Orphans(D + B) == {} && limit > 0
    ensures InOrder(f, D, Elements(WindowOf(f, D, limit)), B, limit)
  {
    var E, W := EntriesOf(f, D), Elements(WindowOf(f, D, limit));
    WindowWithin(f, D, limit);
    EntriesDistinct(f, D);
    WindowIsListing(E, EntryBefore, limit);
    forall e | e in E - W ensures |W| == limit && forall w :: w in W ==> EntryBefore(e, w) {
      CutOffMeansFull(E, EntryBefore, limit, e);
    }
  }

  /** The place of every entry is kept when operations are added. */
  lemma EntryLivesOn(f: Flavour, D: set<Operation>, B: set<Operation>, w: Entry)
    requires Orphans(D) == {} && w in EntriesOf(f, D)
    ensures exists e :: e in EntriesOf(f, D + B) && SamePlace(w, e)
  {
    if c :| c in D && IsContent(c) && w == Registers(f, c, MutationsOf(D, c.messageId)) {
      var e := Registers(f, c, MutationsOf(D + B, c.messageId));
      assert e in EntriesOf(f, D + B) && SamePlace(w, e);
    } else {
      var o :| o in D && (o.Undecrypted? || IsOrphan(D, o)) && w == FailureEntry(o);
      assert o !in Orphans(D);
      assert w in EntriesOf(f, D + B) && SamePlace(w, w);
    }
  }

  lemma LostIsBelow(f: Flavour, D: set<Operation>, W: set<Entry>, B: set<Operation>, limit: nat, o: Operation, y: Entry)
    requires InOrder(f, D, W, B, limit) && y in EntriesOf(f, D) - W && SamePlace(y, PlaceOf(f, o))
    ensures BelowWindow(f, EntriesOf(f, D + B), o, limit)
  {
    var E := EntriesOf(f, D + B);
    forall w | w in W ensures exists e :: e in E && SamePlace(w, e) {
      EntryLivesOn(f, D, B, w);
    }
    EntriesDistinct(f, D);
    EntriesDistinct(f, D + B);
    FullWindowLivesOn(W, E, y, PlaceOf(f, o), limit);
  }

  lemma NothingLacks(f: Flavour, D: set<Operation>, B: set<Operation>, c: Operation)
    requires WellFormed(D + B) && Orphans(D) == {} && c in B && c !in D && IsContent(c)
    ensures !LacksMutations(f, D, {}, B, c)
  {
    forall u | u in D && IsMutation(u) ensures TargetId(u) != c.messageId {
      assert u !in Orphans(D);
      var d :| d in D && IsContent(d) && d.messageId == TargetId(u);
      assert Compatible(c, d);
    }
    assert MutationsOf(B + {}, c.messageId) == MutationsOf(D + B, c.messageId);
  }

  /** In order, only strays can be wrong and seen. */
  lemma InOrderWrong(f: Flavour, D: set<Operation>, W: set<Entry>, B: set<Operation>, limit: nat, o: Operation)
    requires InOrder(f, D, W, B, limit) && o in D + B && IsWrong(f, D, W, {}, B, o)
    ensures BelowWindow(f, EntriesOf(f, D + B), o, limit) || (o in B && IsStray(W, B, o))
  {
    if IsContent(o) {
      if o !in D { NothingLacks(f, D, B, o); }
      var y := Registers(f, o, MutationsOf(D, o.messageId));
      assert KeyOf(y) == MessageKey(o.messageId);
      LostIsBelow(f, D, W, B, limit, o, y);
    } else if o.Undecrypted? {
      assert KeyOf(FailureEntry(o)) == OwnFailureKey(o);
      LostIsBelow(f, D, W, B, limit, o, FailureEntry(o));
    } else {
      assert o !in Orphans(D + B);
      assert o !in SplitOf(D).failed;
      if o !in B { VisibleFailure(f, D, W, B, o); }
    }
  }

  lemma StrayIsWrong(f: Flavour, D: set<Operation>, W: set<Entry>, B: set<Operation>, u: Operation)
    requires Orphans(D + B) == {} && u in B && IsStray(W, B, u)
    ensures IsWrong(f, D, W, {}, B, u)
  {
    assert u !in Orphans(D + B);
  }

  lemma DeliverWithoutPending(f: Flavour, items: seq<Entry>, batch: seq<Operation>, limit: nat)
    ensures batch + RetryOf([], ContentIds(batch)) == batch
    ensures Deliver(f, Lane(items, []), batch, limit).items == Merged(f, items, batch, limit)
  {
    assert batch + [] == batch;
  }

  /**
   One merge of a batch into a cut window, every mutation delivered after its message: the result is
   the window of the full projection if and only if every mutation whose message the window has
   forgotten is itself older than `limit` entries of that projection.
   */
  lemma InOrderExactness(f: Flavour, D: set<Operation>, batch: seq<Operation>, limit: nat)
    requires WellFormed(D) && WellFormed(D + Elements(batch)) && limit > 0
    requires Orphans(D) == {} && Orphans(D + Elements(batch)) == {}
    ensures Merged(f, WindowOf(f, D, limit), batch, limit) == WindowOf(f, D + Elements(batch), limit) <==>
            forall u :: u in batch && IsStray(Elements(WindowOf(f, D, limit)), Elements(batch), u) ==>
              BelowWindow(f, EntriesOf(f, D + Elements(batch)), u, limit)
  {
    var items, B := WindowOf(f, D, limit), Elements(batch);
    var W := Elements(items);
    var none := Elements(Lane(items, []).pending);
    assert none == {};
    WindowInOrder(f, D, B, limit);
    DeliverWithoutPending(f, items, batch, limit);
    WindowExactness(f, D, Lane(items, []), batch, limit);
    forall u | u in B && IsStray(W, B, u) ensures IsWrong(f, D, W, none, B, u) {
      StrayIsWrong(f, D, W, B, u);
    }
    forall o | o in D + B && IsWrong(f, D, W, none, B, o)
      ensures BelowWindow(f, EntriesOf(f, D + B), o, limit) || (o in B && IsStray(W, B, o))
    {
      InOrderWrong(f, D, W, B, limit, o);
    }
  }

  // ----- What the client itself can see -----

  /** Every unresolved failure of the merge is cut off. */
  ghost predicate HidesUnresolved(T: set<Entry>, limit: nat) {
    forall e :: e in T && IsUnresolved(e) ==> |Newer(T, e, EntryBefore)| >= limit
  }

  lemma CutHidesUnresolved(T: set<Entry>, limit: nat)
    requires limit > 0 && Linear(T, EntryBefore)
    ensures HidesUnresolved(T, limit) <==>
            forall e :: e in SliceLast(Sorted(T, EntryBefore), limit) ==> !IsUnresolved(e)
  {
    var cut := SliceLast(Sorted(T, EntryBefore), limit);
    WindowIsListing(T, EntryBefore, limit);
    forall e | e in T ensures e in cut <==> |Newer(T, e, EntryBefore)| < limit {
      SurvivesCut(T, EntryBefore, limit, e);
    }
    assert forall e :: e in cut ==> e in Elements(cut);
  }

  lemma NothingUnresolved(f: Flavour, A: set<Operation>, e: Entry)
    requires Orphans(A) == {} && e in EntriesOf(f, A)
    ensures !IsUnresolved(e)
  {
    if IsUnresolved(e) { var o := UnresolvedEntryIsOrphan(f, A, e); }
  }

  lemma MutationUnresolved(f: Flavour, s: Split, L: set<Operation>, y: Entry, o: Operation)
    requires WellFormed(L) && s.applied + s.failed <= L && o in L && IsMutation(o)
    requires y in SplitEntries(f, s) && SamePlace(y, FailureEntry(o))
    ensures IsUnresolved(y)
  {
    assert KeyOf(FailureEntry(o)) == OwnFailureKey(o);
    var p :| p in s.failed && y == FailureEntry(p);
    assert Compatible(p, o);
  }

  /** A resolved entry that is wrong lies below the window. */
  lemma WrongResolvedIsBelow(f: Flavour, D: set<Operation>, W: set<Entry>, B: set<Operation>, s: Split, limit: nat,
                             y: Entry)
    requires InOrder(f, D, W, B, limit) && Compared(f, D, W, {}, B, s)
    requires y in SplitEntries(f, s) && y !in EntriesOf(f, D + B) && !IsUnresolved(y)
    ensures |Newer(EntriesOf(f, D + B), y, EntryBefore)| >= limit
  {
    var o := DisputedIsWrong(f, D, W, {}, B, s, y);
    InOrderWrong(f, D, W, B, limit, o);
    SamePlaceSameNewer(EntriesOf(f, D + B), y, PlaceOf(f, o));
    if IsMutation(o) { MutationUnresolved(f, s, D + B, y, o); }
  }

  /** A failure with a full window above it in the merge has one in the projection. */
  lemma HiddenIsBelow(f: Flavour, D: set<Operation>, W: set<Entry>, B: set<Operation>, s: Split, limit: nat, x: Entry)
    requires InOrder(f, D, W, B, limit) && Compared(f, D, W, {}, B, s) && Linear(SplitEntries(f, s), EntryBefore)
    requires HidesUnresolved(SplitEntries(f, s), limit) && x in SplitEntries(f, s) && IsUnresolved(x)
    ensures |Newer(EntriesOf(f, D + B), x, EntryBefore)| >= limit
  {
    var T, E := SplitEntries(f, s), EntriesOf(f, D + B);
    var U := set e | e in T && IsUnresolved(e);
    EntriesTransitive(T + {x});
    FullWithoutOld(T, U, EntryBefore, limit, x);
    if y :| y in Newer(T - U, x, EntryBefore) && y !in E {
      WrongResolvedIsBelow(f, D, W, B, s, limit, y);
      forall z | z in Newer(E, y, EntryBefore) ensures z in Newer(E, x, EntryBefore) {
        EntryOrderTransitive(x, y, z);
      }
      SmallerSet(Newer(E, y, EntryBefore), Newer(E, x, EntryBefore));
    } else {
      SmallerSet(Newer(T - U, x, EntryBefore), Newer(E, x, EntryBefore));
    }
  }

  lemma StrayInMerge(f: Flavour, D: set<Operation>, W: set<Entry>, B: set<Operation>, s: Split, u: Operation)
    requires Compared(f, D, W, {}, B, s) && Orphans(D + B) == {} && u in B && IsStray(W, B, u)
    ensures FailureEntry(u) in SplitEntries(f, s)
  {
    StrayIsWrong(f, D, W, B, u);
    WrongFailure(f, D, W, {}, B, s, u);
    if FailureEntry(u) in EntriesOf(f, D + B) { NothingUnresolved(f, D + B, FailureEntry(u)); }
  }

  /** Exactness in order, said of the split after the merge. */
  lemma ExactIffHidden(f: Flavour, D: set<Operation>, batch: seq<Operation>, s: Split, limit: nat)
    requires WellFormed(D) && WellFormed(D + Elements(batch)) && limit > 0
    requires Orphans(D) == {} && Orphans(D + Elements(batch)) == {}
    requires Compared(f, D, Elements(WindowOf(f, D, limit)), {}, Elements(batch), s)
    requires Linear(SplitEntries(f, s), EntryBefore)
    requires Merged(f, WindowOf(f, D, limit), batch, limit) == SliceLast(Sorted(SplitEntries(f, s), EntryBefore), limit)
    ensures Merged(f, WindowOf(f, D, limit), batch, limit) == WindowOf(f, D + Elements(batch), limit) <==>
            HidesUnresolved(SplitEntries(f, s), limit)
  {
    var T, B, W := SplitEntries(f, s), Elements(batch), Elements(WindowOf(f, D, limit));
    if Merged(f, WindowOf(f, D, limit), batch, limit) == WindowOf(f, D + B, limit) {
      CutHidesUnresolved(T, limit);
      WindowWithin(f, D + B, limit);
      forall e | e in WindowOf(f, D + B, limit) ensures !IsUnresolved(e) {
        assert e in Elements(WindowOf(f, D + B, limit));
        NothingUnresolved(f, D + B, e);
      }
    }
    if HidesUnresolved(T, limit) {
      WindowInOrder(f, D, B, limit);
      forall u | u in batch && IsStray(W, B, u) ensures BelowWindow(f, EntriesOf(f, D + B), u, limit) {
        StrayInMerge(f, D, W, B, s, u);
        HiddenIsBelow(f, D, W, B, s, limit, FailureEntry(u));
      }
      InOrderExactness(f, D, batch, limit);
    }
  }

  lemma MergeIntoWindow(f: Flavour, D: set<Operation>, batch: seq<Operation>, limit: nat) returns (s: Split)
    requires WellFormed(D) && WellFormed(D + Elements(batch))
    ensures Compared(f, D, Elements(WindowOf(f, D, limit)), {}, Elements(batch), s)
    ensures Linear(SplitEntries(f, s), EntryBefore)
    ensures MergedEntries(f, WindowOf(f, D, limit), batch) == SplitEntries(f, s)
    ensures Merged(f, WindowOf(f, D, limit), batch, limit) == SliceLast(Sorted(SplitEntries(f, s), EntryBefore), limit)
  {
    var lane := Lane(WindowOf(f, D, limit), []);
    var none := Elements(lane.pending);
    assert none == {};
    WindowLaneHolds(f, D, lane, Elements(batch), limit);
    s := ItemsAfter(f, D, lane, batch, limit);
    DeliverWithoutPending(f, lane.items, batch, limit);
  }

  /**
   The same of what the client has at hand. Every mutation delivered after its message, the merge
   gives the window of the full projection if and only if each unresolved failure among the merged
   entries has a full window above it there; that is, if and only if none of them is shown.
   */
  lemma LocalExactness(f: Flavour, D: set<Operation>, batch: seq<Operation>, limit: nat)
    requires WellFormed(D) && WellFormed(D + Elements(batch)) && limit > 0
    requires Orphans(D) == {} && Orphans(D + Elements(batch)) == {}
    ensures Merged(f, WindowOf(f, D, limit), batch, limit) == WindowOf(f, D + Elements(batch), limit) <==>
            HidesUnresolved(MergedEntries(f, WindowOf(f, D, limit), batch), limit)
    ensures Merged(f, WindowOf(f, D, limit), batch, limit) == WindowOf(f, D + Elements(batch), limit) <==>
            forall e :: e in Merged(f, WindowOf(f, D, limit), batch, limit) ==> !IsUnresolved(e)
  {
    var s := MergeIntoWindow(f, D, batch, limit);
    ExactIffHidden(f, D, batch, s, limit);
    CutHidesUnresolved(SplitEntries(f, s), limit);
  }

  // ----- Runs -----

  /** No mutation waits after the delivery, and no stray is seen. */
  ghost predicate StepInOrder(f: Flavour, D: set<Operation>, B: set<Operation>, limit: nat) {
    WellFormed(D) && Orphans(D + B) == {} &&
    forall u :: u in B && IsStray(Elements(WindowOf(f, D, limit)), B, u) ==>
      BelowWindow(f, EntriesOf(f, D + B), u, limit)
  }

  ghost predicate RunInOrder(f: Flavour, batches: seq<seq<Operation>>, limit: nat) {
    forall n :: 0 <= n < |batches| ==> StepInOrder(f, Delivered(batches[..n]), Elements(batches[n]), limit)
  }

  ghost predicate EndsInOrder(f: Flavour, batches: seq<seq<Operation>>, limit: nat) {
    && WellFormed(Delivered(batches)) && Orphans(Delivered(batches)) == {}
    && DeliverAll(f, EMPTY_LANE, batches, limit) == Lane(WindowOf(f, Delivered(batches), limit), [])
  }

  lemma NothingYetInOrder(f: Flavour, limit: nat)
    ensures EndsInOrder(f, [], limit)
  {
    EmptyIsFaithful(f);
    assert Orphans({}) == {};
  }

  lemma NoElements(s: seq<Operation>)
    ensures Elements(s) == {} <==> s == []
  {
    if s != [] { assert s[0] in Elements(s); }
  }

  lemma NoneWaiting(f: Flavour, D: set<Operation>, lane: Lane, limit: nat)
    requires WellFormed(D) && Orphans(D) == {} && IsWindowLane(f, D, lane, limit)
    ensures lane.pending == []
  {
    assert Elements(lane.pending) <= Orphans(D);
    NoElements(lane.pending);
  }

  lemma InOrderMore(f: Flavour, front: seq<seq<Operation>>, batch: seq<Operation>, limit: nat)
    requires WellFormed(Delivered(front) + Elements(batch)) && limit > 0
    requires EndsInOrder(f, front, limit) && StepInOrder(f, Delivered(front), Elements(batch), limit)
    ensures EndsInOrder(f, front + [batch], limit)
  {
    Unfolded(f, front, batch, limit);
    InOrderExactness(f, Delivered(front), batch, limit);
    DeliverWithoutPending(f, WindowOf(f, Delivered(front), limit), batch, limit);
    RunIsWindowLane(f, front + [batch], limit);
    NoneWaiting(f, Delivered(front + [batch]), DeliverAll(f, EMPTY_LANE, front + [batch], limit), limit);
  }

  lemma InOrderStep(f: Flavour, batches: seq<seq<Operation>>, n: nat, limit: nat)
    requires WellFormed(Delivered(batches)) && limit > 0 && n < |batches| && RunInOrder(f, batches, limit)
    requires EndsInOrder(f, batches[..n], limit)
    ensures EndsInOrder(f, batches[..n + 1], limit)
  {
    var front, batch := batches[..n], batches[n];
    OneLonger(batches, n);
    PrefixWellFormed(batches, n);
    assert StepInOrder(f, Delivered(front), Elements(batch), limit);
    InOrderMore(f, front, batch, limit);
  }

  lemma {:induction false} InOrderUpTo(f: Flavour, batches: seq<seq<Operation>>, n: nat, limit: nat)
    requires WellFormed(Delivered(batches)) && limit > 0 && n <= |batches| && RunInOrder(f, batches, limit)
    ensures EndsInOrder(f, batches[..n], limit)
  {
    if n == 0 {
      NothingYetInOrder(f, limit);
    } else {
      InOrderUpTo(f, batches, n - 1, limit);
      InOrderStep(f, batches, n - 1, limit);
    }
  }

  /** Runs in order end in the cut projection with nothing waiting. */
  lemma InOrderRun(f: Flavour, batches: seq<seq<Operation>>, limit: nat)
    requires WellFormed(Delivered(batches)) && limit > 0 && RunInOrder(f, batches, limit)
    ensures Orphans(Delivered(batches)) == {}
    ensures DeliverAll(f, EMPTY_LANE, batches, limit) == Lane(WindowOf(f, Delivered(batches), limit), [])
  {
    InOrderUpTo(f, batches, |batches|, limit);
    assert batches[..|batches|] == batches;
  }

  /** Contents and failed decryptions alone: any order, batching and repetition, any window. */
  lemma BoundedWindowExactness(f: Flavour, batches: seq<seq<Operation>>, limit: nat)
    requires WellFormed(Delivered(batches)) && limit > 0
    requires forall o :: o in Delivered(batches) ==> !IsMutation(o)
    ensures DeliverAll(f, EMPTY_LANE, batches, limit) == Lane(WindowOf(f, Delivered(batches), limit), [])
  {
    forall n | 0 <= n < |batches| ensures StepInOrder(f, Delivered(batches[..n]), Elements(batches[n]), limit) {
      DeliveredPrefix(batches, n);
      WellFormedSubset(Delivered(batches[..n]), Delivered(batches));
      assert forall u :: u in Delivered(batches[..n]) + Elements(batches[n]) ==> !IsMutation(u);
    }
    InOrderRun(f, batches, limit);
  }

  // ----- When a window does diverge -----

  lemma NothingNewer(f: Flavour, D: set<Operation>, u: Operation)
    requires forall o :: o in D ==> o.sequence < u.sequence
    requires IsMutation(u) && !IsOrphan(D + {u}, u)
    ensures Newer(EntriesOf(f, D + {u}), FailureEntry(u), EntryBefore) == {}
  {}

  lemma StrayAlone(f: Flavour, W: set<Entry>, u: Operation)
    requires IsMutation(u) && MessageKey(TargetId(u)) !in KeysOf(W)
    ensures u in [u] && IsStray(W, {u}, u) && PlaceOf(f, u) == FailureEntry(u)
  {}

  /**
   The newest operation of a conversation, if it mutates a message the window has evicted, always
   makes the lane differ from the projection: it is shown as unresolved.
   */
  lemma EvictedTargetDiverges(f: Flavour, D: set<Operation>, u: Operation, limit: nat)
    requires WellFormed(D) && WellFormed(D + {u}) && limit > 0 && Orphans(D) == {}
    requires IsMutation(u) && HasContent(D, TargetId(u))
    requires forall o :: o in D ==> o.sequence < u.sequence
    requires MessageKey(TargetId(u)) !in KeysOf(Elements(WindowOf(f, D, limit)))
    ensures Merged(f, WindowOf(f, D, limit), [u], limit) != WindowOf(f, D + {u}, limit)
  {
    assert Elements([u]) == {u};
    HasContentUnion(D, {u}, TargetId(u));
    OrphansShrink(D, {u});
    assert Orphans(D + {u}) == {};
    NothingNewer(f, D, u);
    StrayAlone(f, Elements(WindowOf(f, D, limit)), u);
    InOrderExactness(f, D, [u], limit);
  }
}
