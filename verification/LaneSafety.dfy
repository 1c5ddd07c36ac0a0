/**
 What every delivery keeps, however small the window: nothing is invented, nothing that was
 shown disappears unless a full window of newer entries pushed it out, and the pending memory
 holds exactly mutations that are visibly waiting.
 */
module LaneSafety {
  import opened Projection
  import opened MessageRegisters
  import opened Log
  import opened Listings
  import opened Merge
  import opened LanePending
  import opened Confluence

  // ----- Entries and the operations behind them -----

  ghost predicate Witness(f: Flavour, D: set<Operation>, e: Entry, c: Operation, M: set<Operation>) {
    c in D && IsContent(c) && M <= MutationsOf(D, c.messageId) && e == Registers(f, c, M)
  }

  /** The entry shows the operation u of D: as a failure, or among the writers of its registers. */
  ghost predicate Carries(f: Flavour, D: set<Operation>, e: Entry, u: Operation) {
    if e.Message? then exists c, M :: Witness(f, D, e, c, M) && (u == c || u in M)
    else u in D && !IsContent(u) && e == FailureEntry(u)
  }

  /** The entry was made from operations of D and from nothing else. */
  ghost predicate Grounded(f: Flavour, D: set<Operation>, e: Entry) {
    exists u :: Carries(f, D, e, u)
  }

  ghost predicate TableGrounded(f: Flavour, D: set<Operation>, t: Table) {
    KeysConsistent(t) && forall k :: k in t ==> Grounded(f, D, t[k])
  }

  ghost predicate TableCarries(f: Flavour, D: set<Operation>, t: Table, u: Operation) {
    exists k :: k in t && Carries(f, D, t[k], u)
  }

  lemma CarriedFailure(f: Flavour, D: set<Operation>, e: Entry, op: Operation)
    requires WellFormed(D) && op in D && Grounded(f, D, e) && KeyOf(e) == OwnFailureKey(op)
    ensures !IsContent(op) && e == FailureEntry(op)
    ensures forall u :: Carries(f, D, e, u) ==> u == op
  {
    forall u | Carries(f, D, e, u) ensures u == op {
      assert e.Failure? && KeyOf(FailureEntry(u)) == OwnFailureKey(u);
      assert Compatible(u, op);
    }
  }

  lemma CarriedMessage(f: Flavour, D: set<Operation>, e: Entry) returns (c: Operation, M: set<Operation>)
    requires e.Message? && Grounded(f, D, e)
    ensures Witness(f, D, e, c, M)
  {
    var u :| Carries(f, D, e, u);
    c, M :| Witness(f, D, e, c, M) && (u == c || u in M);
  }

  lemma SameContent(f: Flavour, D: set<Operation>, e: Entry, c: Operation, M: set<Operation>, d: Operation)
    requires WellFormed(D) && Witness(f, D, e, c, M) && d in D && IsContent(d) && d.messageId == e.messageId
    ensures c == d
  {
    assert KeyOf(e) == MessageKey(c.messageId);
    assert Compatible(c, d);
  }

  // ----- One step of the merge loop -----

  /** Everything carried before is carried after, and so is the operation itself. */
  ghost predicate StepKeeps(f: Flavour, D: set<Operation>, t: Table, after: Table, op: Operation) {
    TableGrounded(f, D, after) && TableCarries(f, D, after, op) &&
    forall u :: TableCarries(f, D, t, u) ==> TableCarries(f, D, after, u)
  }

  lemma KeepFailure(f: Flavour, D: set<Operation>, t: Table, op: Operation)
    requires WellFormed(D) && op in D && !IsContent(op) && TableGrounded(f, D, t)
    ensures StepKeeps(f, D, t, t[OwnFailureKey(op) := FailureEntry(op)], op)
  {
    var k := OwnFailureKey(op);
    var after := t[k := FailureEntry(op)];
    assert Carries(f, D, after[k], op);
    forall u | TableCarries(f, D, t, u) ensures TableCarries(f, D, after, u) {
      var q :| q in t && Carries(f, D, t[q], u);
      if q == k {
        CarriedFailure(f, D, t[q], op);
      } else {
        assert after[q] == t[q];
      }
    }
  }

  lemma KeepContent(f: Flavour, D: set<Operation>, t: Table, op: Operation)
    requires WellFormed(D) && op in D && IsContent(op) && TableGrounded(f, D, t)
    ensures StepKeeps(f, D, t, ApplyOperation(f, t, op), op)
  {
    var k, q := MessageKey(op.messageId), OwnFailureKey(op);
    assert q !in t by {
      if q in t { CarriedFailure(f, D, t[q], op); }
    }
    if k in t {
      var c, M := CarriedMessage(f, D, t[k]);
      SameContent(f, D, t[k], c, M, op);
      assert ApplyOperation(f, t, op) == t - {q} == t;
      assert Carries(f, D, t[k], op);
    } else {
      var after := t[k := ContentEntry(f, op)];
      assert ApplyOperation(f, t, op) == after - {q} == after;
      KeepNewContent(f, D, t, op);
    }
  }

  lemma KeepNewContent(f: Flavour, D: set<Operation>, t: Table, op: Operation)
    requires op in D && IsContent(op) && TableGrounded(f, D, t) && MessageKey(op.messageId) !in t
    ensures StepKeeps(f, D, t, t[MessageKey(op.messageId) := ContentEntry(f, op)], op)
  {
    var k := MessageKey(op.messageId);
    var after := t[k := ContentEntry(f, op)];
    RegistersOfContent(f, op);
    assert Witness(f, D, after[k], op, {});
    assert Carries(f, D, after[k], op);
    forall u | TableCarries(f, D, t, u) ensures TableCarries(f, D, after, u) {
      var p :| p in t && Carries(f, D, t[p], u);
      assert after[p] == t[p];
    }
  }

  lemma MutatedWitness(f: Flavour, D: set<Operation>, e: Entry, c: Operation, M: set<Operation>, op: Operation)
    requires WellFormed(D) && op in D && IsMutation(op) && Witness(f, D, e, c, M)
    requires e.messageId == TargetId(op)
    ensures Witness(f, D, ApplyMutation(f, e, op), c, M + {op})
  {
    assert KeyOf(e) == MessageKey(c.messageId);
    WellFormedSubset(M + {c, op}, D);
    RegistersStep(f, c, M, op);
  }

  lemma MutatedEntry(f: Flavour, D: set<Operation>, e: Entry, op: Operation)
    requires WellFormed(D) && op in D && IsMutation(op) && Grounded(f, D, e) && e.Message?
    requires e.messageId == TargetId(op)
    ensures KeyOf(ApplyMutation(f, e, op)) == KeyOf(e)
    ensures Carries(f, D, ApplyMutation(f, e, op), op)
    ensures forall u :: Carries(f, D, e, u) ==> Carries(f, D, ApplyMutation(f, e, op), u)
  {
    var next := ApplyMutation(f, e, op);
    var c, M := CarriedMessage(f, D, e);
    MutatedWitness(f, D, e, c, M, op);
    forall u | Carries(f, D, e, u) ensures Carries(f, D, next, u) {
      var d, N :| Witness(f, D, e, d, N) && (u == d || u in N);
      MutatedWitness(f, D, e, d, N, op);
    }
  }

  lemma KeepMutation(f: Flavour, D: set<Operation>, t: Table, op: Operation)
    requires WellFormed(D) && op in D && IsMutation(op) && TableGrounded(f, D, t)
    requires MessageKey(TargetId(op)) in t
    ensures StepKeeps(f, D, t, ApplyOperation(f, t, op), op)
  {
    var k, q := MessageKey(TargetId(op)), OwnFailureKey(op);
    var e := ApplyMutation(f, t[k], op);
    var after := ApplyOperation(f, t, op);
    MutatedEntry(f, D, t[k], op);
    assert after == t[k := e] - {q};
    assert after[k] == e && Carries(f, D, after[k], op);
    forall u | TableCarries(f, D, t, u) ensures TableCarries(f, D, after, u) {
      KeepMutationCarries(f, D, t, op, e, u);
    }
    PutGrounded(f, D, t, k, e, q);
  }

  lemma PutGrounded(f: Flavour, D: set<Operation>, t: Table, k: Key, e: Entry, q: Key)
    requires TableGrounded(f, D, t) && Grounded(f, D, e) && KeyOf(e) == k
    ensures TableGrounded(f, D, t[k := e] - {q})
  {
    var after := t[k := e] - {q};
    forall p | p in after ensures Grounded(f, D, after[p]) {
      if p != k { assert after[p] == t[p]; }
    }
  }

  lemma KeepMutationCarries(f: Flavour, D: set<Operation>, t: Table, op: Operation, e: Entry, u: Operation)
    requires WellFormed(D) && op in D && IsMutation(op) && TableGrounded(f, D, t) && TableCarries(f, D, t, u)
    requires MessageKey(TargetId(op)) in t
    requires Carries(f, D, e, op)
    requires Carries(f, D, t[MessageKey(TargetId(op))], u) ==> Carries(f, D, e, u)
    ensures TableCarries(f, D, t[MessageKey(TargetId(op)) := e] - {OwnFailureKey(op)}, u)
  {
    var k, q := MessageKey(TargetId(op)), OwnFailureKey(op);
    var after := t[k := e] - {q};
    var p :| p in t && Carries(f, D, t[p], u);
    if p == q {
      CarriedFailure(f, D, t[p], op);
      assert after[k] == e;
    } else if p == k {
      assert after[k] == e;
    } else {
      assert after[p] == t[p];
    }
  }

  lemma StepSafe(f: Flavour, D: set<Operation>, t: Table, op: Operation)
    requires WellFormed(D) && op in D && TableGrounded(f, D, t)
    ensures StepKeeps(f, D, t, ApplyOperation(f, t, op), op)
  {
    if IsContent(op) {
      KeepContent(f, D, t, op);
    } else if IsMutation(op) && MessageKey(TargetId(op)) in t {
      KeepMutation(f, D, t, op);
    } else {
      KeepFailure(f, D, t, op);
    }
  }

  lemma {:induction false} FoldSafe(f: Flavour, D: set<Operation>, t: Table, ops: seq<Operation>)
    requires WellFormed(D) && Elements(ops) <= D && TableGrounded(f, D, t)
    ensures TableGrounded(f, D, ApplyAll(f, t, ops))
    ensures forall u :: u in ops || TableCarries(f, D, t, u) ==> TableCarries(f, D, ApplyAll(f, t, ops), u)
  {
    if ops != [] {
      var front, op := ops[..|ops| - 1], ops[|ops| - 1];
      assert ops == front + [op];
      assert Elements(front) <= D && op in D;
      FoldSafe(f, D, t, front);
      StepSafe(f, D, ApplyAll(f, t, front), op);
    }
  }

  // ----- One merge -----

  ghost predicate ItemsGrounded(f: Flavour, D: set<Operation>, items: seq<Entry>) {
    forall e :: e in items ==> Grounded(f, D, e)
  }

  ghost predicate Reflects(f: Flavour, D: set<Operation>, items: seq<Entry>, u: Operation) {
    exists e :: e in items && Carries(f, D, e, u)
  }

  /** A full window of entries newer than one that shows u. */
  ghost predicate Displaced(f: Flavour, D: set<Operation>, items: seq<Entry>, limit: nat, u: Operation) {
    |items| == limit && exists e :: Carries(f, D, e, u) && forall x :: x in items ==> EntryBefore(e, x)
  }

  lemma TableOfGrounded(f: Flavour, D: set<Operation>, items: seq<Entry>)
    requires ItemsGrounded(f, D, items)
    ensures TableGrounded(f, D, TableOf(items))
  {
    TableOfConsistent(items);
    forall k | k in TableOf(items) ensures Grounded(f, D, TableOf(items)[k]) {
      assert TableOf(items)[k] in TableOf(items).Values;
    }
  }

  lemma TableOfCarries(f: Flavour, D: set<Operation>, items: seq<Entry>, u: Operation)
    requires KeysDistinct(Elements(items)) && Reflects(f, D, items, u)
    ensures TableCarries(f, D, TableOf(items), u)
  {
    var e :| e in items && Carries(f, D, e, u);
    TableOfListing(items);
    assert e in TableOf(items).Values;
  }

  lemma CutKeepsOrDisplaces(f: Flavour, D: set<Operation>, t: Table, limit: nat, u: Operation)
    requires KeysConsistent(t) && limit > 0 && TableCarries(f, D, t, u)
    ensures var items := SliceLast(Timeline(t), limit);
            Reflects(f, D, items, u) || Displaced(f, D, items, limit, u)
  {
    var k :| k in t && Carries(f, D, t[k], u);
    ValuesDistinct(t);
    assert t[k] in t.Values;
    if t[k] !in SliceLast(Timeline(t), limit) {
      CutOffMeansFull(t.Values, EntryBefore, limit, t[k]);
    }
  }

  lemma CutIsGrounded(f: Flavour, D: set<Operation>, t: Table, limit: nat)
    requires TableGrounded(f, D, t)
    ensures var items := SliceLast(Timeline(t), limit);
            ItemsGrounded(f, D, items) && KeysDistinct(Elements(items)) && Elements(items) <= t.Values
  {
    ValuesDistinct(t);
    WindowIsListing(t.Values, EntryBefore, limit);
    forall e | e in SliceLast(Timeline(t), limit) ensures Grounded(f, D, e) {
      assert e in t.Values;
    }
  }

  /** A merge invents nothing, and loses nothing but what a full window of newer entries displaces. */
  lemma MergeSafe(f: Flavour, D: set<Operation>, current: seq<Entry>, ops: seq<Operation>, limit: nat)
    requires WellFormed(D) && Elements(ops) <= D && limit > 0
    requires ItemsGrounded(f, D, current) && KeysDistinct(Elements(current))
    ensures var items := Merged(f, current, ops, limit);
            && ItemsGrounded(f, D, items) && KeysDistinct(Elements(items))
            && forall u :: u in ops || Reflects(f, D, current, u) ==>
                 Reflects(f, D, items, u) || Displaced(f, D, items, limit, u)
  {
    var t, sorted := TableOf(current), SortBySequence(ops);
    var after := ApplyAll(f, t, sorted);
    TableOfGrounded(f, D, current);
    StableSort(ops);
    FoldSafe(f, D, t, sorted);
    CutIsGrounded(f, D, after, limit);
    forall u | u in ops || Reflects(f, D, current, u)
      ensures Reflects(f, D, Merged(f, current, ops, limit), u) ||
              Displaced(f, D, Merged(f, current, ops, limit), limit, u)
    {
      if u in ops {
        assert u in Elements(sorted);
      } else {
        TableOfCarries(f, D, current, u);
      }
      CutKeepsOrDisplaces(f, D, after, limit, u);
    }
  }

  // ----- The pending memory -----

  /** The message the mutation waits for is not on the timeline. */
  ghost predicate TargetAbsent(items: seq<Entry>, u: Operation) {
    IsMutation(u) && forall e :: e in items ==> KeyOf(e) != MessageKey(TargetId(u))
  }

  /** What a delivery needs: entries made from D, and pending mutations without a visible target. */
  ghost predicate LaneReady(f: Flavour, D: set<Operation>, lane: Lane) {
    && ItemsGrounded(f, D, lane.items) && KeysDistinct(Elements(lane.items))
    && forall u :: u in lane.pending ==> u in D && TargetAbsent(lane.items, u)
  }

  /** What a delivery gives: besides, every pending mutation is visibly waiting, in order, within bounds. */
  ghost predicate LaneOk(f: Flavour, D: set<Operation>, lane: Lane, limit: nat) {
    && LaneReady(f, D, lane)
    && Ascending(lane.pending, SequenceBefore) && |lane.pending| <= PendingLimit(limit)
    && forall u :: u in lane.pending ==> FailureEntry(u) in lane.items
  }

  lemma CandidateIsVisible(f: Flavour, D: set<Operation>, items: seq<Entry>, u: Operation)
    requires WellFormed(D) && u in D && ItemsGrounded(f, D, items)
    ensures IsCandidate(u, UnresolvedIdentities(items)) <==> IsMutation(u) && FailureEntry(u) in items
  {
    if IsCandidate(u, UnresolvedIdentities(items)) {
      var e :| e in items && IsUnresolved(e) && (e.messageId, e.sequence) == IdentityOf(u);
      var o :| Carries(f, D, e, o);
      assert Compatible(o, u);
    }
    if IsMutation(u) && FailureEntry(u) in items {
      assert IsUnresolved(FailureEntry(u));
    }
  }

  /** The mutations seen so far that the timeline still shows as unresolved. */
  ghost function StillWaiting(items: seq<Entry>, ops: seq<Operation>): set<Operation> {
    set u | u in ops && IsMutation(u) && FailureEntry(u) in items
  }

  /** The retained mutations are the newest of those still waiting. */
  lemma RetainsNewest(f: Flavour, D: set<Operation>, items: seq<Entry>, ops: seq<Operation>, limit: nat)
    requires WellFormed(D) && Elements(ops) <= D && ItemsGrounded(f, D, items)
    ensures Linear(StillWaiting(items, ops), SequenceBefore)
    ensures RetainedPending(items, ops, limit) ==
            SliceLast(Sorted(StillWaiting(items, ops), SequenceBefore), if limit < 64 then limit else 64)
  {
    var ids := UnresolvedIdentities(items);
    forall a, b | a in Elements(ops) && b in Elements(ops) && IdentityOf(a) == IdentityOf(b) ensures a == b {
      assert Compatible(a, b);
    }
    CandidatesElements(ops, ids);
    forall u | u in ops ensures IsCandidate(u, ids) <==> u in StillWaiting(items, ops) {
      assert u in Elements(ops);
      CandidateIsVisible(f, D, items, u);
    }
    assert Elements(CandidatesOf(ops, ids)) == StillWaiting(items, ops);
    WellFormedSubset(StillWaiting(items, ops), D);
    OperationsLinear(StillWaiting(items, ops));
    SortIsListing(CandidatesOf(ops, ids));
  }

  // ----- Why a retained mutation's target is absent -----

  /** Both the failure of u and the message it waits for are in the table. */
  ghost predicate ShownTwice(t: Table, u: Operation)
    requires IsMutation(u)
  {
    OwnFailureKey(u) in t && MessageKey(TargetId(u)) in t
  }

  lemma StepShownTwice(f: Flavour, D: set<Operation>, t: Table, op: Operation, u: Operation, seen: bool)
    requires WellFormed(D) && op in D && u in D && IsMutation(u) && KeysConsistent(t)
    requires ShownTwice(ApplyOperation(f, t, op), u)
    requires seen ==> !ShownTwice(t, u) && u.sequence <= op.sequence
    ensures op != u && !seen
  {
    assert Compatible(u, op);
    assert Compatible(op, u);
  }

  lemma {:induction false} FoldShownTwice(f: Flavour, D: set<Operation>, t: Table, ops: seq<Operation>, u: Operation)
    requires WellFormed(D) && Elements(ops) <= D && u in D && IsMutation(u) && InSequence(ops)
    requires KeysConsistent(t)
    ensures ShownTwice(ApplyAll(f, t, ops), u) ==> u !in ops
  {
    if ops != [] && ShownTwice(ApplyAll(f, t, ops), u) {
      var front, op := ops[..|ops| - 1], ops[|ops| - 1];
      assert ops == front + [op];
      assert Elements(front) <= D && op in D;
      FoldShownTwice(f, D, t, front, u);
      var seen := u in front;
      if seen {
        var i :| 0 <= i < |front| && front[i] == u;
        assert ops[i].sequence <= ops[|ops| - 1].sequence;
      }
      ApplyAllConsistent(f, t, front);
      StepShownTwice(f, D, ApplyAll(f, t, front), op, u, seen);
    }
  }

  lemma {:induction false} MessagesComeFromContent(f: Flavour, t: Table, ops: seq<Operation>, id: string)
    requires MessageKey(id) in ApplyAll(f, t, ops)
    ensures MessageKey(id) in t || HasContent(Elements(ops), id)
  {
    if ops != [] {
      var front, op := ops[..|ops| - 1], ops[|ops| - 1];
      assert ops == front + [op];
      if MessageKey(id) in ApplyAll(f, t, front) {
        MessagesComeFromContent(f, t, front, id);
        MoreContent(front, op, id);
      } else {
        NewMessageIsContent(f, ApplyAll(f, t, front), op, id);
        assert op in Elements(ops);
      }
    }
  }

  lemma MoreContent(front: seq<Operation>, op: Operation, id: string)
    ensures HasContent(Elements(front), id) ==> HasContent(Elements(front + [op]), id)
  {
    if c :| c in Elements(front) && IsContent(c) && c.messageId == id {
      assert c in Elements(front + [op]);
    }
  }

  lemma NewMessageIsContent(f: Flavour, t: Table, op: Operation, id: string)
    requires MessageKey(id) !in t && MessageKey(id) in ApplyOperation(f, t, op)
    ensures IsContent(op) && op.messageId == id
  {}

  /** A mutation that is still unresolved after a delivery has no target on the timeline. */
  lemma TargetStaysAbsent(f: Flavour, D: set<Operation>, lane: Lane, updates: seq<Operation>, limit: nat, u: Operation)
    requires WellFormed(D) && Elements(updates) <= D && LaneReady(f, D, lane)
    requires u in lane.pending + updates && IsMutation(u)
    requires FailureEntry(u) in Deliver(f, lane, updates, limit).items
    ensures TargetAbsent(Deliver(f, lane, updates, limit).items, u)
  {
    var retry := RetryOf(lane.pending, ContentIds(updates));
    var ops, t := updates + retry, TableOf(lane.items);
    var sorted := SortBySequence(ops);
    var after := ApplyAll(f, t, sorted);
    var items := Deliver(f, lane, updates, limit).items;
    assert Elements(ops) <= D;
    StableSort(ops);
    TableOfConsistent(lane.items);
    ApplyAllConsistent(f, t, sorted);
    ValuesDistinct(after);
    WindowIsListing(after.Values, EntryBefore, limit);
    assert items == SliceLast(Timeline(after), limit);
    InTable(after, items, FailureEntry(u));
    forall e | e in items ensures KeyOf(e) != MessageKey(TargetId(u)) {
      if KeyOf(e) == MessageKey(TargetId(u)) {
        InTable(after, items, e);
        FoldShownTwice(f, D, t, sorted, u);
        assert u !in ops by { assert u in ops ==> u in Elements(sorted); }
        NoReplayNoContent(lane, updates, u);
        MessagesComeFromContent(f, t, sorted, TargetId(u));
        AbsentInTable(lane.items, u);
      }
    }
  }

  lemma InTable(t: Table, items: seq<Entry>, e: Entry)
    requires KeysConsistent(t) && Elements(items) <= t.Values && e in items
    ensures KeyOf(e) in t && t[KeyOf(e)] == e
  {
    assert e in Elements(items);
  }

  lemma AbsentInTable(items: seq<Entry>, u: Operation)
    requires TargetAbsent(items, u)
    ensures MessageKey(TargetId(u)) !in TableOf(items)
  {
    TableOfConsistent(items);
    forall k | k in TableOf(items) ensures k != MessageKey(TargetId(u)) {
      assert TableOf(items)[k] in TableOf(items).Values;
    }
  }

  /** A pending mutation is left out of the replay only when its content is not in the batch. */
  lemma NoReplayNoContent(lane: Lane, updates: seq<Operation>, u: Operation)
    requires u in lane.pending + updates && IsMutation(u) && Compatible(u, u)
    requires u !in updates + RetryOf(lane.pending, ContentIds(updates))
    requires forall v :: v in lane.pending ==> IsMutation(v)
    ensures u in lane.pending
    ensures !HasContent(Elements(updates + RetryOf(lane.pending, ContentIds(updates))), TargetId(u))
  {
    var retry := RetryOf(lane.pending, ContentIds(updates));
    forall c | c in Elements(updates + retry) && IsContent(c) ensures c.messageId != TargetId(u) {
      assert c in updates + retry && c !in retry;
      assert c.messageId in ContentIds(updates);
    }
  }

  lemma {:induction false} ContentIsEntered(f: Flavour, t: Table, ops: seq<Operation>, id: string)
    requires MessageKey(id) in t || HasContent(Elements(ops), id)
    ensures MessageKey(id) in ApplyAll(f, t, ops)
  {
    if ops != [] {
      var front, op := ops[..|ops| - 1], ops[|ops| - 1];
      assert ops == front + [op];
      if MessageKey(id) in t || HasContent(Elements(front), id) {
        ContentIsEntered(f, t, front, id);
      } else {
        var c :| c in Elements(ops) && IsContent(c) && c.messageId == id;
        assert c == op;
      }
    }
  }

  /**
   Once the content of a waiting mutation is delivered, by whatever batch, the mutation is no longer
   shown as unresolved: its message shows it, unless a full window of newer entries does not.
   */
  lemma ReplayedIsApplied(f: Flavour, D: set<Operation>, lane: Lane, updates: seq<Operation>, limit: nat,
                          u: Operation)
    requires WellFormed(D) && Elements(updates) <= D && limit > 0 && LaneReady(f, D, lane)
    requires u in lane.pending + updates && IsMutation(u) && HasContent(Elements(updates), TargetId(u))
    ensures var items := Deliver(f, lane, updates, limit).items;
            FailureEntry(u) !in items && (Reflects(f, D, items, u) || Displaced(f, D, items, limit, u))
  {
    var retry := RetryOf(lane.pending, ContentIds(updates));
    var ops := updates + retry;
    var c :| c in Elements(updates) && IsContent(c) && c.messageId == TargetId(u);
    assert Elements(ops) <= D && u in D && Compatible(u, u);
    assert u in ops by { if u !in updates { assert TargetsOneOf(u, ContentIds(updates)); } }
    MergeSafe(f, D, lane.items, ops, limit);
    NotShownTwice(f, D, lane.items, ops, limit, u, c);
  }

  lemma NotShownTwice(f: Flavour, D: set<Operation>, items: seq<Entry>, ops: seq<Operation>, limit: nat,
                      u: Operation, c: Operation)
    requires WellFormed(D) && Elements(ops) <= D && u in ops && IsMutation(u)
    requires c in ops && IsContent(c) && c.messageId == TargetId(u)
    ensures FailureEntry(u) !in Merged(f, items, ops, limit)
  {
    var t, sorted := TableOf(items), SortBySequence(ops);
    var after := ApplyAll(f, t, sorted);
    StableSort(ops);
    TableOfConsistent(items);
    ApplyAllConsistent(f, t, sorted);
    ValuesDistinct(after);
    WindowIsListing(after.Values, EntryBefore, limit);
    assert c in Elements(sorted) && u in Elements(sorted);
    ContentIsEntered(f, t, sorted, TargetId(u));
    FoldShownTwice(f, D, t, sorted, u);
    if FailureEntry(u) in Merged(f, items, ops, limit) {
      InTable(after, Merged(f, items, ops, limit), FailureEntry(u));
    }
  }

  /** The invariant of the lane: one delivery keeps it, whatever arrives and whatever is cut off. */
  lemma DeliverSafe(f: Flavour, D: set<Operation>, lane: Lane, updates: seq<Operation>, limit: nat)
    requires WellFormed(D) && Elements(updates) <= D && limit > 0 && LaneReady(f, D, lane)
    ensures var next := Deliver(f, lane, updates, limit);
            && LaneOk(f, D, next, limit)
            && forall u :: u in updates || Reflects(f, D, lane.items, u) ==>
                 Reflects(f, D, next.items, u) || Displaced(f, D, next.items, limit, u)
  {
    var next := Deliver(f, lane, updates, limit);
    var ops := updates + RetryOf(lane.pending, ContentIds(updates));
    assert Elements(ops) <= D;
    MergeSafe(f, D, lane.items, ops, limit);
    PendingSafe(f, D, lane, updates, limit);
  }

  lemma PendingSafe(f: Flavour, D: set<Operation>, lane: Lane, updates: seq<Operation>, limit: nat)
    requires WellFormed(D) && Elements(updates) <= D && limit > 0 && LaneReady(f, D, lane)
    requires ItemsGrounded(f, D, Deliver(f, lane, updates, limit).items)
    ensures var next := Deliver(f, lane, updates, limit);
            && Ascending(next.pending, SequenceBefore) && |next.pending| <= PendingLimit(limit)
            && forall u :: u in next.pending ==> u in D && TargetAbsent(next.items, u) && FailureEntry(u) in next.items
  {
    var next := Deliver(f, lane, updates, limit);
    var all := lane.pending + updates;
    var S := StillWaiting(next.items, all);
    assert Elements(all) <= D;
    RetainsNewest(f, D, next.items, all, limit);
    WindowIsListing(S, SequenceBefore, PendingLimit(limit));
    forall u | u in next.pending
      ensures u in D && TargetAbsent(next.items, u) && FailureEntry(u) in next.items
    {
      assert u in S;
      TargetStaysAbsent(f, D, lane, updates, limit, u);
    }
  }

  // ----- More operations known, the same lane -----

  lemma CarriesMonotone(f: Flavour, D: set<Operation>, E: set<Operation>, e: Entry, u: Operation)
    requires D <= E && Carries(f, D, e, u)
    ensures Carries(f, E, e, u)
  {
    if e.Message? {
      var c, M :| Witness(f, D, e, c, M) && (u == c || u in M);
      assert MutationsOf(D, c.messageId) <= MutationsOf(E, c.messageId);
      assert Witness(f, E, e, c, M);
    }
  }

  lemma LaneOkMonotone(f: Flavour, D: set<Operation>, E: set<Operation>, lane: Lane, limit: nat)
    requires D <= E && LaneOk(f, D, lane, limit)
    ensures LaneOk(f, E, lane, limit)
  {
    forall e | e in lane.items ensures Grounded(f, E, e) {
      var u :| Carries(f, D, e, u);
      CarriesMonotone(f, D, E, e, u);
    }
  }

  /** A lane that drops its items, or its pending mutations, or both, can still take a delivery. */
  lemma PartOfLaneReady(f: Flavour, D: set<Operation>, lane: Lane, limit: nat, keepItems: bool, keepPending: bool)
    requires LaneOk(f, D, lane, limit)
    ensures LaneReady(f, D, Lane(if keepItems then lane.items else [], if keepPending then lane.pending else []))
    ensures LaneOk(f, D, lane.(pending := []), limit) && LaneOk(f, D, Lane([], []), limit)
  {}
}
