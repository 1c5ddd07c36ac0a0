/**
 Runs whose entries outgrow the window. The lane knows only the operations behind its visible
 entries and the waiting mutations it remembers; the next window is the window of everything
 delivered if and only if all it therefore gets wrong lies below that window.
 */
module LaneWindow {
  import opened Projection
  import opened MessageRegisters
  import opened Log
  import opened Listings
  import opened LanePending
  import opened Confluence
  import opened LaneConfluence
  import opened LaneHeld

  ghost function WindowOf(f: Flavour, D: set<Operation>, limit: nat): seq<Entry>
    requires WellFormed(D)
  {
    SliceLast(Project(f, D), limit)
  }

  lemma WindowWithin(f: Flavour, D: set<Operation>, limit: nat)
    requires WellFormed(D)
    ensures Elements(WindowOf(f, D, limit)) <= EntriesOf(f, D)
    ensures IsListing(WindowOf(f, D, limit), Elements(WindowOf(f, D, limit)), EntryBefore)
  {
    EntriesDistinct(f, D);
    WindowIsListing(EntriesOf(f, D), EntryBefore, limit);
  }

  // ----- What one delivery gets wrong -----

  /**
   Of D only the entries W are visible and only the waiting mutations P are remembered. The batch B
   arrives. What the lane then has wrong: an entry it has lost; a message without mutations it has
   lost; the failure of a mutation whose message is not at hand although it was delivered, or whose
   message has come and that nobody remembers to replay.
   */
  ghost predicate IsWrong(f: Flavour, D: set<Operation>, W: set<Entry>, P: set<Operation>, B: set<Operation>,
                          o: Operation)
  {
    if IsContent(o) then
      MessageKey(o.messageId) !in KeysOf(W) && (o !in B || LacksMutations(f, D, P, B, o))
    else if o.Undecrypted? then
      o !in B && OwnFailureKey(o) !in KeysOf(W)
    else if !HasContent(D + B, TargetId(o)) then
      o !in B && OwnFailureKey(o) !in KeysOf(W)
    else if o in B then
      IsStray(W, B, o)
    else
      OwnFailureKey(o) in KeysOf(W) && o !in P
  }

  /** The registers differ without the mutations that are neither in the batch nor remembered. */
  ghost predicate LacksMutations(f: Flavour, D: set<Operation>, P: set<Operation>, B: set<Operation>, c: Operation)
    requires IsContent(c)
  {
    Registers(f, c, MutationsOf(B + P, c.messageId)) != Registers(f, c, MutationsOf(D + B, c.messageId))
  }

  /** A mutation whose target is in neither the window nor the batch. */
  ghost predicate IsStray(W: set<Entry>, B: set<Operation>, u: Operation) {
    IsMutation(u) && MessageKey(TargetId(u)) !in KeysOf(W) && !HasContent(B, TargetId(u))
  }

  /** Where the operation stands in the timeline, by sequence and key. */
  function PlaceOf(f: Flavour, o: Operation): Entry {
    if IsContent(o) then ContentEntry(f, o) else FailureEntry(o)
  }

  /** Too old to be seen in a window of the entries E. */
  ghost predicate BelowWindow(f: Flavour, E: set<Entry>, o: Operation, limit: nat) {
    |Newer(E, PlaceOf(f, o), EntryBefore)| >= limit
  }

  /** The visible entries of D, remembered mutations among them, and all of it well-formed with B. */
  ghost predicate Arrives(f: Flavour, D: set<Operation>, W: set<Entry>, P: set<Operation>, B: set<Operation>) {
    && WellFormed(D) && WellFormed(D + B) && W <= EntriesOf(f, D)
    && forall u :: u in P ==> u in Orphans(D) && OwnFailureKey(u) in KeysOf(W)
  }

  ghost function Visible(D: set<Operation>, W: set<Entry>, P: set<Operation>): Held {
    Held(Keep(SplitOf(D), W), P)
  }

  lemma VisibleReceives(f: Flavour, D: set<Operation>, W: set<Entry>, P: set<Operation>, B: set<Operation>)
    requires Arrives(f, D, W, P, B)
    ensures SplitOk(SplitOf(D)) && SplitOk(Keep(SplitOf(D), W)) && SplitEntries(f, Keep(SplitOf(D), W)) == W
    ensures Receives(Visible(D, W, P), B)
  {
    SplitOfOk(D);
    EntriesOfSplit(f, D);
    KeptEntries(f, SplitOf(D), W);
    var k := Keep(SplitOf(D), W);
    WellFormedSubset(k.applied + k.failed + B, D + B);
  }

  lemma VisibleMessage(f: Flavour, D: set<Operation>, W: set<Entry>, id: string)
    requires W <= EntriesOf(f, D) && MessageKey(id) in KeysOf(W)
    ensures exists c :: c in D && IsContent(c) && c.messageId == id
  {
    var w :| w in W && KeyOf(w) == MessageKey(id);
    assert w in EntriesOf(f, D);
    var c :| c in D && IsContent(c) && w == Registers(f, c, MutationsOf(D, c.messageId));
  }

  lemma VisibleFailure(f: Flavour, D: set<Operation>, W: set<Entry>, B: set<Operation>, o: Operation)
    requires WellFormed(D + B) && W <= EntriesOf(f, D) && o in D + B && OwnFailureKey(o) in KeysOf(W)
    ensures o in SplitOf(D).failed
  {
    var w :| w in W && KeyOf(w) == OwnFailureKey(o);
    assert w in EntriesOf(f, D);
    var p :| p in D && (p.Undecrypted? || IsOrphan(D, p)) && w == FailureEntry(p);
    assert Compatible(p, o);
  }

  lemma MessagesAtHand(f: Flavour, D: set<Operation>, W: set<Entry>, P: set<Operation>, B: set<Operation>, id: string)
    requires Arrives(f, D, W, P, B)
    ensures var h := Visible(D, W, P);
            HasContent(h.split.applied + (B + Replayed(h, B)), id) <==> MessageKey(id) in KeysOf(W) || HasContent(B, id)
  {
    var h := Visible(D, W, P);
    if MessageKey(id) in KeysOf(W) {
      VisibleMessage(f, D, W, id);
      var c :| c in D && IsContent(c) && c.messageId == id;
      assert c in h.split.applied;
    }
    if HasContent(B, id) {
      var c :| c in B && IsContent(c) && c.messageId == id;
      assert c in h.split.applied + (B + Replayed(h, B));
    }
  }

  lemma ContentHeld(f: Flavour, D: set<Operation>, W: set<Entry>, P: set<Operation>, B: set<Operation>, c: Operation)
    requires Arrives(f, D, W, P, B) && c in D + B && IsContent(c)
    ensures var s := AfterDelivery(Visible(D, W, P), B);
            c in s.applied <==> MessageKey(c.messageId) in KeysOf(W) || c in B
  {}

  lemma MutationsAfter(s: Split, Q: set<Operation>, id: string)
    requires HasContent(s.applied + Q, id)
    ensures MutationsOf(AfterBatch(s, Q).applied, id) == MutationsOf(s.applied, id) + MutationsOf(Q, id)
  {}

  lemma MutationsReplayed(h: Held, B: set<Operation>, id: string)
    requires HasContent(B, id) ==> forall u :: u in h.pending ==> u.Ready?
    ensures MutationsOf(B + Replayed(h, B), id) <= MutationsOf(B, id) + MutationsOf(h.pending, id)
    ensures HasContent(B, id) ==> MutationsOf(B + Replayed(h, B), id) == MutationsOf(B, id) + MutationsOf(h.pending, id)
  {}

  lemma MutationsVisible(D: set<Operation>, W: set<Entry>, id: string)
    requires MessageKey(id) in KeysOf(W) && HasContent(D, id)
    ensures MutationsOf(Keep(SplitOf(D), W).applied, id) == MutationsOf(D, id)
  {}

  lemma MutationsHeld(f: Flavour, D: set<Operation>, W: set<Entry>, P: set<Operation>, B: set<Operation>, c: Operation)
    requires Arrives(f, D, W, P, B) && c in D + B && IsContent(c)
    requires c in AfterDelivery(Visible(D, W, P), B).applied
    ensures MutationsOf(AfterDelivery(Visible(D, W, P), B).applied, c.messageId) ==
            if MessageKey(c.messageId) in KeysOf(W) then MutationsOf(D + B, c.messageId)
            else MutationsOf(B + P, c.messageId)
  {
    var h, id := Visible(D, W, P), c.messageId;
    ContentHeld(f, D, W, P, B, c);
    assert c in B ==> HasContent(B, id);
    MessagesAtHand(f, D, W, P, B, id);
    MutationsAfter(h.split, B + Replayed(h, B), id);
    MutationsReplayed(h, B, id);
    if MessageKey(id) in KeysOf(W) {
      VisibleMessage(f, D, W, id);
      MutationsVisible(D, W, id);
      assert MutationsOf(D + B, id) == MutationsOf(D, id) + MutationsOf(B, id);
    } else {
      assert MutationsOf(h.split.applied, id) == {};
      assert MutationsOf(B + P, id) == MutationsOf(B, id) + MutationsOf(P, id);
    }
  }

  lemma FailureHeld(f: Flavour, D: set<Operation>, W: set<Entry>, P: set<Operation>, B: set<Operation>, o: Operation)
    requires Arrives(f, D, W, P, B) && o in D + B && !IsContent(o)
    ensures IsWrong(f, D, W, P, B, o) <==>
            (o in AfterDelivery(Visible(D, W, P), B).failed) != (o in SplitOf(D + B).failed)
  {
    var h := Visible(D, W, P);
    if OwnFailureKey(o) in KeysOf(W) { VisibleFailure(f, D, W, B, o); }
    if IsMutation(o) {
      var id := TargetId(o);
      MessagesAtHand(f, D, W, P, B, id);
      HasContentUnion(D, B, id);
      if MessageKey(id) in KeysOf(W) { VisibleMessage(f, D, W, id); }
    }
  }

  // ----- Exactness of one delivery -----

  lemma EntryPresent(f: Flavour, s: Split, L: set<Operation>, o: Operation)
    requires SplitOk(s) && WellFormed(L) && s.applied + s.failed <= L && o in L
    ensures !IsContent(o) ==> (FailureEntry(o) in SplitEntries(f, s) <==> o in s.failed)
    ensures IsContent(o) ==> forall M ::
              Registers(f, o, M) in SplitEntries(f, s) <==>
              o in s.applied && Registers(f, o, MutationsOf(s.applied, o.messageId)) == Registers(f, o, M)
  {
    if !IsContent(o) && FailureEntry(o) in SplitEntries(f, s) {
      var p :| p in s.failed && FailureEntry(p) == FailureEntry(o);
      assert KeyOf(FailureEntry(p)) == OwnFailureKey(p) && KeyOf(FailureEntry(o)) == OwnFailureKey(o);
      assert Compatible(p, o);
    }
    if IsContent(o) {
      forall M | Registers(f, o, M) in SplitEntries(f, s)
        ensures o in s.applied && Registers(f, o, MutationsOf(s.applied, o.messageId)) == Registers(f, o, M)
      {
        var c :| c in s.applied && IsContent(c) &&
                 Registers(f, c, MutationsOf(s.applied, c.messageId)) == Registers(f, o, M);
        assert KeyOf(Registers(f, o, M)) == MessageKey(o.messageId) == MessageKey(c.messageId);
        assert Compatible(c, o);
      }
    }
  }

  /** The lane's entries after the delivery, and what they should be. */
  ghost predicate Compared(f: Flavour, D: set<Operation>, W: set<Entry>, P: set<Operation>, B: set<Operation>, s: Split)
  {
    && Arrives(f, D, W, P, B) && s == AfterDelivery(Visible(D, W, P), B)
    && SplitOk(s) && s.applied + s.failed <= D + B
  }

  lemma WrongContent(f: Flavour, D: set<Operation>, W: set<Entry>, P: set<Operation>, B: set<Operation>, s: Split,
                     c: Operation)
    requires Compared(f, D, W, P, B, s) && c in D + B && IsContent(c)
    ensures IsWrong(f, D, W, P, B, c) <==> Registers(f, c, MutationsOf(D + B, c.messageId)) !in SplitEntries(f, s)
  {
    ContentHeld(f, D, W, P, B, c);
    if c in s.applied { MutationsHeld(f, D, W, P, B, c); }
    EntryPresent(f, s, D + B, c);
  }

  lemma WrongFailure(f: Flavour, D: set<Operation>, W: set<Entry>, P: set<Operation>, B: set<Operation>, s: Split,
                     o: Operation)
    requires Compared(f, D, W, P, B, s) && o in D + B && !IsContent(o)
    ensures IsWrong(f, D, W, P, B, o) <==>
            (FailureEntry(o) in SplitEntries(f, s)) != (FailureEntry(o) in EntriesOf(f, D + B))
  {
    FailureHeld(f, D, W, P, B, o);
    EntryPresent(f, s, D + B, o);
    SplitOfOk(D + B);
    EntriesOfSplit(f, D + B);
    EntryPresent(f, SplitOf(D + B), D + B, o);
  }

  ghost function Disputed(f: Flavour, A: set<Operation>, s: Split): set<Entry> {
    (EntriesOf(f, A) - SplitEntries(f, s)) + (SplitEntries(f, s) - EntriesOf(f, A))
  }

  ghost predicate AllBelow(E: set<Entry>, X: set<Entry>, limit: nat) {
    forall x :: x in X ==> |Newer(E, x, EntryBefore)| >= limit
  }

  /** Order only looks at keys and origin sequences. */
  ghost predicate SamePlace(a: Entry, b: Entry) {
    KeyOf(a) == KeyOf(b) && a.sequence == b.sequence
  }

  lemma MissingIsWrong(f: Flavour, D: set<Operation>, W: set<Entry>, P: set<Operation>, B: set<Operation>, s: Split,
                       x: Entry) returns (o: Operation)
    requires Compared(f, D, W, P, B, s) && x in EntriesOf(f, D + B) && x !in SplitEntries(f, s)
    ensures o in D + B && IsWrong(f, D, W, P, B, o) && SamePlace(x, PlaceOf(f, o))
  {
    var A := D + B;
    if c :| c in A && IsContent(c) && x == Registers(f, c, MutationsOf(A, c.messageId)) {
      o := c;
      WrongContent(f, D, W, P, B, s, c);
    } else {
      o :| o in A && (o.Undecrypted? || IsOrphan(A, o)) && x == FailureEntry(o);
      WrongFailure(f, D, W, P, B, s, o);
    }
  }

  lemma AddedIsWrong(f: Flavour, D: set<Operation>, W: set<Entry>, P: set<Operation>, B: set<Operation>, s: Split,
                     x: Entry) returns (o: Operation)
    requires Compared(f, D, W, P, B, s) && x in SplitEntries(f, s) && x !in EntriesOf(f, D + B)
    ensures o in D + B && IsWrong(f, D, W, P, B, o) && SamePlace(x, PlaceOf(f, o))
  {
    var E, A := EntriesOf(f, D + B), D + B;
    if c :| c in s.applied && IsContent(c) && x == Registers(f, c, MutationsOf(s.applied, c.messageId)) {
      o := c;
      WrongContent(f, D, W, P, B, s, c);
      var e := Registers(f, c, MutationsOf(A, c.messageId));
      assert KeyOf(e) == KeyOf(x) && e in E;
      SplitDistinct(f, s);
    } else {
      o :| o in s.failed && x == FailureEntry(o);
      WrongFailure(f, D, W, P, B, s, o);
    }
  }

  lemma DisputedIsWrong(f: Flavour, D: set<Operation>, W: set<Entry>, P: set<Operation>, B: set<Operation>, s: Split,
                        x: Entry) returns (o: Operation)
    requires Compared(f, D, W, P, B, s) && x in Disputed(f, D + B, s)
    ensures o in D + B && IsWrong(f, D, W, P, B, o) && SamePlace(x, PlaceOf(f, o))
  {
    if x in EntriesOf(f, D + B) {
      o := MissingIsWrong(f, D, W, P, B, s, x);
    } else {
      o := AddedIsWrong(f, D, W, P, B, s, x);
    }
  }

  lemma WrongIsDisputed(f: Flavour, D: set<Operation>, W: set<Entry>, P: set<Operation>, B: set<Operation>, s: Split,
                        o: Operation) returns (x: Entry)
    requires Compared(f, D, W, P, B, s) && o in D + B && IsWrong(f, D, W, P, B, o)
    ensures x in Disputed(f, D + B, s) && SamePlace(x, PlaceOf(f, o))
  {
    if IsContent(o) {
      WrongContent(f, D, W, P, B, s, o);
      x := Registers(f, o, MutationsOf(D + B, o.messageId));
    } else {
      WrongFailure(f, D, W, P, B, s, o);
      x := FailureEntry(o);
    }
  }

  /** Everything the lane gets wrong is too old to be seen. */
  ghost predicate WrongOnlyBelow(f: Flavour, D: set<Operation>, W: set<Entry>, P: set<Operation>, B: set<Operation>,
                                 limit: nat)
  {
    forall o :: o in D + B && IsWrong(f, D, W, P, B, o) ==> BelowWindow(f, EntriesOf(f, D + B), o, limit)
  }

  lemma SamePlaceSameNewer(E: set<Entry>, x: Entry, y: Entry)
    requires SamePlace(x, y)
    ensures Newer(E, x, EntryBefore) == Newer(E, y, EntryBefore)
  {}

  lemma DisputedBelow(f: Flavour, D: set<Operation>, W: set<Entry>, P: set<Operation>, B: set<Operation>, s: Split,
                      limit: nat)
    requires Compared(f, D, W, P, B, s)
    ensures WrongOnlyBelow(f, D, W, P, B, limit) <==>
            AllBelow(EntriesOf(f, D + B), Disputed(f, D + B, s), limit)
  {
    var E := EntriesOf(f, D + B);
    if WrongOnlyBelow(f, D, W, P, B, limit) {
      forall x | x in Disputed(f, D + B, s) ensures |Newer(E, x, EntryBefore)| >= limit {
        var o := DisputedIsWrong(f, D, W, P, B, s, x);
        SamePlaceSameNewer(E, x, PlaceOf(f, o));
      }
    }
    if AllBelow(E, Disputed(f, D + B, s), limit) {
      forall o | o in D + B && IsWrong(f, D, W, P, B, o) ensures BelowWindow(f, E, o, limit) {
        var x := WrongIsDisputed(f, D, W, P, B, s, o);
        SamePlaceSameNewer(E, x, PlaceOf(f, o));
      }
    }
  }

  ghost predicate OnlyBelow(f: Flavour, D: set<Operation>, lane: Lane, batch: seq<Operation>, limit: nat) {
    WrongOnlyBelow(f, D, Elements(lane.items), Elements(lane.pending), Elements(batch), limit)
  }

  /** A lane that shows the window of D and remembers some of its visibly waiting mutations. */
  ghost predicate IsWindowLane(f: Flavour, D: set<Operation>, lane: Lane, limit: nat)
    requires WellFormed(D)
  {
    && lane.items == WindowOf(f, D, limit) && Ascending(lane.pending, SequenceBefore)
    && forall u :: u in lane.pending ==> u in Orphans(D) && FailureEntry(u) in lane.items
  }

  lemma WindowLaneHolds(f: Flavour, D: set<Operation>, lane: Lane, B: set<Operation>, limit: nat)
    requires WellFormed(D) && WellFormed(D + B) && IsWindowLane(f, D, lane, limit)
    ensures Arrives(f, D, Elements(lane.items), Elements(lane.pending), B)
    ensures Holds(f, lane, Visible(D, Elements(lane.items), Elements(lane.pending)))
  {
    var W, P := Elements(lane.items), Elements(lane.pending);
    WindowWithin(f, D, limit);
    forall u | u in P ensures u in Orphans(D) && OwnFailureKey(u) in KeysOf(W) {
      assert FailureEntry(u) in W && KeyOf(FailureEntry(u)) == OwnFailureKey(u);
    }
    VisibleReceives(f, D, W, P, B);
  }

  lemma AfterWithin(D: set<Operation>, W: set<Entry>, P: set<Operation>, B: set<Operation>)
    requires P <= D
    ensures var s := AfterDelivery(Visible(D, W, P), B); s.applied + s.failed <= D + B
  {
    AfterDeliveryWithin(Visible(D, W, P), B, D);
  }

  lemma ItemsAfter(f: Flavour, D: set<Operation>, lane: Lane, batch: seq<Operation>, limit: nat) returns (s: Split)
    requires Arrives(f, D, Elements(lane.items), Elements(lane.pending), Elements(batch))
    requires Holds(f, lane, Visible(D, Elements(lane.items), Elements(lane.pending)))
    ensures Compared(f, D, Elements(lane.items), Elements(lane.pending), Elements(batch), s)
    ensures Linear(SplitEntries(f, s), EntryBefore)
    ensures MergedEntries(f, lane.items, batch + RetryOf(lane.pending, ContentIds(batch))) == SplitEntries(f, s)
    ensures Deliver(f, lane, batch, limit).items == SliceLast(Sorted(SplitEntries(f, s), EntryBefore), limit)
  {
    var h := Visible(D, Elements(lane.items), Elements(lane.pending));
    s := AfterDelivery(h, Elements(batch));
    VisibleReceives(f, D, Elements(lane.items), Elements(lane.pending), Elements(batch));
    ItemsShown(f, lane, h, batch, limit);
    AfterWithin(D, Elements(lane.items), Elements(lane.pending), Elements(batch));
  }

  lemma EntriesTransitive(S: set<Entry>)
    ensures Transitive(S, EntryBefore)
  {
    forall a, b, c | a in S && b in S && c in S && EntryBefore(a, b) && EntryBefore(b, c) ensures EntryBefore(a, c) {
      EntryOrderTransitive(a, b, c);
    }
  }

  lemma SameWindow(E: set<Entry>, T: set<Entry>, limit: nat)
    requires limit > 0 && Linear(E, EntryBefore) && Linear(T, EntryBefore)
    ensures SliceLast(Sorted(T, EntryBefore), limit) == SliceLast(Sorted(E, EntryBefore), limit) <==>
            AllBelow(E, (E - T) + (T - E), limit)
  {
    EntriesTransitive(E + T);
    SameCutExactly(E, T, EntryBefore, limit);
  }

  lemma ExactIffOnlyBelow(f: Flavour, D: set<Operation>, W: set<Entry>, P: set<Operation>, B: set<Operation>, s: Split,
                          limit: nat)
    requires Compared(f, D, W, P, B, s) && limit > 0 && Linear(SplitEntries(f, s), EntryBefore)
    ensures SliceLast(Sorted(SplitEntries(f, s), EntryBefore), limit) == WindowOf(f, D + B, limit) <==>
            WrongOnlyBelow(f, D, W, P, B, limit)
  {
    DisputedBelow(f, D, W, P, B, s, limit);
    EntriesDistinct(f, D + B);
    SameWindow(EntriesOf(f, D + B), SplitEntries(f, s), limit);
  }

  /**
   One delivery to any lane that shows a cut window, whatever waits and whatever is remembered: the
   result is the window of everything delivered if and only if all that is wrong lies below it.
   */
  lemma WindowExactness(f: Flavour, D: set<Operation>, lane: Lane, batch: seq<Operation>, limit: nat)
    requires WellFormed(D) && WellFormed(D + Elements(batch)) && limit > 0
    requires IsWindowLane(f, D, lane, limit)
    ensures Deliver(f, lane, batch, limit).items == WindowOf(f, D + Elements(batch), limit) <==>
            OnlyBelow(f, D, lane, batch, limit)
  {
    var W, P, B := Elements(lane.items), Elements(lane.pending), Elements(batch);
    WindowLaneHolds(f, D, lane, B, limit);
    var s := ItemsAfter(f, D, lane, batch, limit);
    ExactIffOnlyBelow(f, D, W, P, B, s, limit);
  }

  // ----- Runs -----

  lemma HeldIsWindowLane(f: Flavour, D: set<Operation>, lane: Lane, h: Held, limit: nat)
    requires WellFormed(D) && Holds(f, lane, h) && h.split.applied + h.split.failed <= D
    requires lane.items == WindowOf(f, D, limit)
    ensures IsWindowLane(f, D, lane, limit)
  {
    WindowWithin(f, D, limit);
    forall u | u in lane.pending ensures u in Orphans(D) && FailureEntry(u) in lane.items {
      assert u in Elements(lane.pending);
      assert FailureEntry(u) in Elements(lane.items) && IsUnresolved(FailureEntry(u));
      var o := UnresolvedEntryIsOrphan(f, D, FailureEntry(u));
      assert Compatible(o, u);
    }
  }

  /** After these deliveries the lane shows the window of all that was delivered. */
  ghost predicate ShowsWindow(f: Flavour, batches: seq<seq<Operation>>, limit: nat) {
    WellFormed(Delivered(batches)) &&
    DeliverAll(f, EMPTY_LANE, batches, limit).items == WindowOf(f, Delivered(batches), limit)
  }

  /** What delivery n gets wrong, with what the lane then shows and remembers, lies below the window. */
  ghost predicate StepOnlyBelow(f: Flavour, batches: seq<seq<Operation>>, n: nat, limit: nat)
    requires n < |batches|
  {
    OnlyBelow(f, Delivered(batches[..n]), DeliverAll(f, EMPTY_LANE, batches[..n], limit), batches[n], limit)
  }

  lemma RunIsWindowLane(f: Flavour, batches: seq<seq<Operation>>, limit: nat)
    requires ShowsWindow(f, batches, limit)
    ensures IsWindowLane(f, Delivered(batches), DeliverAll(f, EMPTY_LANE, batches, limit), limit)
  {
    RunIsHeld(f, batches, limit);
    var h := HeldAfter(f, batches, limit);
    HeldIsWindowLane(f, Delivered(batches), DeliverAll(f, EMPTY_LANE, batches, limit), h, limit);
  }

  lemma {:induction false} DeliveredPrefix(batches: seq<seq<Operation>>, n: nat)
    requires n <= |batches|
    ensures Delivered(batches[..n]) <= Delivered(batches)
    ensures n < |batches| ==> Delivered(batches[..n]) + Elements(batches[n]) <= Delivered(batches)
    decreases |batches|
  {
    if n == |batches| {
      assert batches[..n] == batches;
    } else if n < |batches| - 1 {
      var front := batches[..|batches| - 1];
      DeliveredPrefix(front, n);
      assert front[..n] == batches[..n] && front[n] == batches[n];
    } else {
      assert batches[..n] == batches[..|batches| - 1];
    }
  }

  lemma Unfolded(f: Flavour, front: seq<seq<Operation>>, batch: seq<Operation>, limit: nat)
    ensures Delivered(front + [batch]) == Delivered(front) + Elements(batch)
    ensures DeliverAll(f, EMPTY_LANE, front + [batch], limit) ==
            Deliver(f, DeliverAll(f, EMPTY_LANE, front, limit), batch, limit)
  {
    var batches := front + [batch];
    assert batches[..|batches| - 1] == front;
  }

  lemma OneMore(f: Flavour, front: seq<seq<Operation>>, batch: seq<Operation>, limit: nat)
    requires limit > 0 && ShowsWindow(f, front, limit) && WellFormed(Delivered(front) + Elements(batch))
    ensures ShowsWindow(f, front + [batch], limit) <==>
            OnlyBelow(f, Delivered(front), DeliverAll(f, EMPTY_LANE, front, limit), batch, limit)
  {
    Unfolded(f, front, batch, limit);
    RunIsWindowLane(f, front, limit);
    WindowExactness(f, Delivered(front), DeliverAll(f, EMPTY_LANE, front, limit), batch, limit);
  }

  lemma OneLonger(batches: seq<seq<Operation>>, n: nat)
    requires n < |batches|
    ensures batches[..n + 1] == batches[..n] + [batches[n]]
  {}

  lemma PrefixWellFormed(batches: seq<seq<Operation>>, n: nat)
    requires WellFormed(Delivered(batches)) && n < |batches|
    ensures WellFormed(Delivered(batches[..n]) + Elements(batches[n]))
  {
    DeliveredPrefix(batches, n);
    WellFormedSubset(Delivered(batches[..n]) + Elements(batches[n]), Delivered(batches));
  }

  lemma StepOfRun(f: Flavour, batches: seq<seq<Operation>>, n: nat, limit: nat)
    requires WellFormed(Delivered(batches)) && limit > 0 && n < |batches| && ShowsWindow(f, batches[..n], limit)
    ensures ShowsWindow(f, batches[..n + 1], limit) <==> StepOnlyBelow(f, batches, n, limit)
  {
    var front, batch := batches[..n], batches[n];
    OneLonger(batches, n);
    PrefixWellFormed(batches, n);
    OneMore(f, front, batch, limit);
  }

  lemma NothingYet(f: Flavour, limit: nat)
    ensures ShowsWindow(f, [], limit)
  {
    EmptyIsFaithful(f);
  }

  lemma {:induction false} ShowsUpTo(f: Flavour, batches: seq<seq<Operation>>, n: nat, limit: nat)
    requires WellFormed(Delivered(batches)) && limit > 0 && n <= |batches|
    requires forall i :: 0 <= i < n ==> StepOnlyBelow(f, batches, i, limit)
    ensures ShowsWindow(f, batches[..n], limit)
  {
    if n == 0 {
      NothingYet(f, limit);
    } else {
      ShowsUpTo(f, batches, n - 1, limit);
      StepOfRun(f, batches, n - 1, limit);
    }
  }

  /**
   Cutting after every delivery is the same as cutting once, all along a run, if and only if every
   delivery gets wrong only what lies below the window.
   */
  lemma WindowOfRun(f: Flavour, batches: seq<seq<Operation>>, limit: nat)
    requires WellFormed(Delivered(batches)) && limit > 0
    ensures (forall n :: 0 <= n <= |batches| ==> ShowsWindow(f, batches[..n], limit)) <==>
            (forall n :: 0 <= n < |batches| ==> StepOnlyBelow(f, batches, n, limit))
  {
    if forall n :: 0 <= n < |batches| ==> StepOnlyBelow(f, batches, n, limit) {
      forall n | 0 <= n <= |batches| ensures ShowsWindow(f, batches[..n], limit) {
        ShowsUpTo(f, batches, n, limit);
      }
    }
    if forall n :: 0 <= n <= |batches| ==> ShowsWindow(f, batches[..n], limit) {
      forall n | 0 <= n < |batches| ensures StepOnlyBelow(f, batches, n, limit) {
        assert ShowsWindow(f, batches[..n], limit) && ShowsWindow(f, batches[..n + 1], limit);
        StepOfRun(f, batches, n, limit);
      }
    }
  }
}
