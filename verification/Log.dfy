/**
 The server's log as the client meets it, and what a Map of timeline entries means: which
 operations have taken effect and which are shown as failures.
 */
module Log {
  import opened Wrappers
  import opened Projection
  import opened MessageRegisters

  /**
   What the server guarantees of two operations of one conversation: sequence, identity and
   content id each belong to one operation, targets are trimmed, and a mutation is sequenced
   after its target.
   */
  predicate Compatible(a: Operation, b: Operation) {
    && (a.sequence == b.sequence ==> a == b)
    && (OwnFailureKey(a) == OwnFailureKey(b) ==> a == b)
    && (IsContent(a) && IsContent(b) && a.messageId == b.messageId ==> a == b)
    && (IsMutation(a) ==> a.targetMessageId == Some(TargetId(a)))
    && (IsMutation(a) && IsContent(b) && b.messageId == TargetId(a) ==> b.sequence < a.sequence)
  }

  ghost predicate WellFormed(L: set<Operation>) {
    forall a, b {:trigger Compatible(a, b)} :: a in L && b in L ==> Compatible(a, b)
  }

  lemma WellFormedSubset(S: set<Operation>, L: set<Operation>)
    requires WellFormed(L) && S <= L
    ensures WellFormed(S) && DistinctSequences(S)
  {
    forall a, b | a in S && b in S ensures Compatible(a, b) {}
    forall a, b | a in S && b in S && a.sequence == b.sequence ensures a == b {
      assert Compatible(a, b);
    }
  }

  ghost predicate HasContent(S: set<Operation>, id: string) {
    exists c :: c in S && IsContent(c) && c.messageId == id
  }

  ghost function MutationsOf(S: set<Operation>, id: string): set<Operation> {
    set u | u in S && IsMutation(u) && TargetId(u) == id
  }

  /** Applied operations, and operations shown as failure entries. */
  datatype Split = Split(applied: set<Operation>, failed: set<Operation>)

  ghost predicate SplitOk(s: Split) {
    && WellFormed(s.applied + s.failed)
    && (forall o :: o in s.failed ==> !IsContent(o))
    && (forall u :: u in s.applied ==> u.Ready?)
    && (forall u :: u in s.applied && IsMutation(u) ==> HasContent(s.applied, TargetId(u)))
  }

  ghost predicate ContentsShown(f: Flavour, t: Table, A: set<Operation>) {
    forall c :: c in A && IsContent(c) ==>
      MessageKey(c.messageId) in t && t[MessageKey(c.messageId)] == Registers(f, c, MutationsOf(A, c.messageId))
  }

  ghost predicate FailuresShown(t: Table, F: set<Operation>) {
    forall o :: o in F ==> OwnFailureKey(o) in t && t[OwnFailureKey(o)] == FailureEntry(o)
  }

  ghost predicate KeysShown(t: Table, s: Split) {
    forall k :: k in t ==> KeyShown(k, s)
  }

  /** The Map holds exactly the registers of the applied contents and the failures of the failed. */
  ghost predicate Shows(f: Flavour, t: Table, s: Split) {
    ContentsShown(f, t, s.applied) && FailuresShown(t, s.failed) && KeysShown(t, s)
  }

  ghost predicate KeyShown(k: Key, s: Split) {
    match k
    case MessageKey(id) => HasContent(s.applied, id)
    case FailureKey(_, _) => exists o :: o in s.failed && OwnFailureKey(o) == k
  }

  ghost function StepSplit(s: Split, op: Operation): Split {
    if op.Undecrypted? then s.(failed := s.failed + {op})
    else if op.kind.Content? then s.(applied := s.applied + {op})
    else if HasContent(s.applied, TargetId(op)) then Split(s.applied + {op}, s.failed - {op})
    else s.(failed := s.failed + {op})
  }

  lemma StepSplitOk(s: Split, op: Operation)
    requires SplitOk(s) && WellFormed(s.applied + s.failed + {op})
    ensures SplitOk(StepSplit(s, op))
  {
    var next := StepSplit(s, op);
    WellFormedSubset(next.applied + next.failed, s.applied + s.failed + {op});
    forall u | u in next.applied && IsMutation(u) ensures HasContent(next.applied, TargetId(u)) {
      assert HasContent(s.applied, TargetId(u));
      var c :| c in s.applied && IsContent(c) && c.messageId == TargetId(u);
      assert c in next.applied;
    }
  }

  // The three updates of the table, each against the facts it needs of the log.

  lemma PutFailure(f: Flavour, t: Table, s: Split, op: Operation)
    requires Shows(f, t, s)
    requires forall o :: o in s.failed && OwnFailureKey(o) == OwnFailureKey(op) ==> o == op
    ensures Shows(f, t[OwnFailureKey(op) := FailureEntry(op)], s.(failed := s.failed + {op}))
  {
    var next, after := s.(failed := s.failed + {op}), t[OwnFailureKey(op) := FailureEntry(op)];
    assert op in next.failed;
    forall k | k in after ensures KeyShown(k, next) {
      if k in t { assert KeyShown(k, s); }
    }
  }

  lemma PutContent(f: Flavour, t: Table, s: Split, op: Operation)
    requires Shows(f, t, s) && IsContent(op)
    requires !HasContent(s.applied, op.messageId) && MutationsOf(s.applied, op.messageId) == {}
    ensures Shows(f, t[MessageKey(op.messageId) := ContentEntry(f, op)], s.(applied := s.applied + {op}))
  {
    var next, after := s.(applied := s.applied + {op}), t[MessageKey(op.messageId) := ContentEntry(f, op)];
    RegistersOfContent(f, op);
    assert op in next.applied;
    forall c | c in next.applied && IsContent(c)
      ensures MessageKey(c.messageId) in after &&
              after[MessageKey(c.messageId)] == Registers(f, c, MutationsOf(next.applied, c.messageId))
    {
      assert MutationsOf(next.applied, c.messageId) == MutationsOf(s.applied, c.messageId);
      if c != op { assert c.messageId != op.messageId; }
    }
    forall k | k in after ensures KeyShown(k, next) {
      if k in t { assert KeyShown(k, s); }
      KeyShownMonotone(k, s, next);
    }
  }

  lemma KeyShownMonotone(k: Key, s: Split, next: Split)
    requires s.applied <= next.applied && s.failed <= next.failed
    ensures KeyShown(k, s) ==> KeyShown(k, next)
  {}

  lemma PutMutationContents(f: Flavour, t: Table, A: set<Operation>, c: Operation, op: Operation, e: Entry)
    requires ContentsShown(f, t, A) && IsMutation(op)
    requires c in A && IsContent(c) && c.messageId == TargetId(op)
    requires forall d :: d in A && IsContent(d) && d.messageId == c.messageId ==> d == c
    requires e == Registers(f, c, MutationsOf(A, c.messageId) + {op})
    ensures ContentsShown(f, t[MessageKey(c.messageId) := e] - {OwnFailureKey(op)}, A + {op})
  {
    var after := t[MessageKey(c.messageId) := e] - {OwnFailureKey(op)};
    forall d | d in A + {op} && IsContent(d)
      ensures MessageKey(d.messageId) in after &&
              after[MessageKey(d.messageId)] == Registers(f, d, MutationsOf(A + {op}, d.messageId))
    {
      MutationsOfAdded(A, op, d.messageId);
      PutLookup(t, MessageKey(c.messageId), e, OwnFailureKey(op), MessageKey(d.messageId));
    }
  }

  lemma PutLookup(t: Table, k: Key, e: Entry, removed: Key, q: Key)
    requires q != removed && (q == k || q in t)
    ensures q in t[k := e] - {removed} && (t[k := e] - {removed})[q] == if q == k then e else t[q]
  {}

  lemma MutationsOfAdded(A: set<Operation>, op: Operation, id: string)
    requires IsMutation(op)
    ensures MutationsOf(A + {op}, id) == if TargetId(op) == id then MutationsOf(A, id) + {op} else MutationsOf(A, id)
  {}

  lemma PutMutation(f: Flavour, t: Table, s: Split, c: Operation, op: Operation, e: Entry)
    requires Shows(f, t, s) && IsMutation(op)
    requires c in s.applied && IsContent(c) && c.messageId == TargetId(op)
    requires forall d :: d in s.applied && IsContent(d) && d.messageId == c.messageId ==> d == c
    requires forall o :: o in s.failed && OwnFailureKey(o) == OwnFailureKey(op) ==> o == op
    requires e == Registers(f, c, MutationsOf(s.applied, c.messageId) + {op})
    ensures Shows(f, t[MessageKey(c.messageId) := e] - {OwnFailureKey(op)}, Split(s.applied + {op}, s.failed - {op}))
  {
    var next := Split(s.applied + {op}, s.failed - {op});
    var after := t[MessageKey(c.messageId) := e] - {OwnFailureKey(op)};
    PutMutationContents(f, t, s.applied, c, op, e);
    PutMutationFailures(t, s.failed, c, op, e);
    forall k | k in after ensures KeyShown(k, next) {
      assert k == MessageKey(c.messageId) || KeyShown(k, s);
      KeyShownAfterMutation(k, s, c, op);
    }
  }

  lemma PutMutationFailures(t: Table, F: set<Operation>, c: Operation, op: Operation, e: Entry)
    requires FailuresShown(t, F)
    requires forall o :: o in F && OwnFailureKey(o) == OwnFailureKey(op) ==> o == op
    ensures FailuresShown(t[MessageKey(c.messageId) := e] - {OwnFailureKey(op)}, F - {op})
  {
    forall o | o in F - {op}
      ensures var after := t[MessageKey(c.messageId) := e] - {OwnFailureKey(op)};
              OwnFailureKey(o) in after && after[OwnFailureKey(o)] == FailureEntry(o)
    {
      PutLookup(t, MessageKey(c.messageId), e, OwnFailureKey(op), OwnFailureKey(o));
    }
  }

  lemma KeyShownAfterMutation(k: Key, s: Split, c: Operation, op: Operation)
    requires c in s.applied && IsContent(c)
    requires k == MessageKey(c.messageId) || (KeyShown(k, s) && k != OwnFailureKey(op))
    ensures KeyShown(k, Split(s.applied + {op}, s.failed - {op}))
  {
    var next := Split(s.applied + {op}, s.failed - {op});
    if k.FailureKey? {
      var o :| o in s.failed && OwnFailureKey(o) == k;
      assert o in next.failed;
    } else if k == MessageKey(c.messageId) {
      assert c in next.applied;
    } else {
      var d :| d in s.applied && IsContent(d) && d.messageId == k.messageId;
      assert d in next.applied;
    }
  }

  lemma StepFailure(f: Flavour, t: Table, s: Split, op: Operation)
    requires SplitOk(s) && WellFormed(s.applied + s.failed + {op}) && Shows(f, t, s)
    requires op.Undecrypted? || (IsMutation(op) && !HasContent(s.applied, TargetId(op)))
    ensures Shows(f, ApplyOperation(f, t, op), StepSplit(s, op))
  {
    forall o | o in s.failed && OwnFailureKey(o) == OwnFailureKey(op) ensures o == op {
      assert Compatible(o, op);
    }
    PutFailure(f, t, s, op);
    if IsMutation(op) {
      MessageAbsent(f, t, s, TargetId(op));
    }
  }

  lemma MessageAbsent(f: Flavour, t: Table, s: Split, id: string)
    requires Shows(f, t, s) && !HasContent(s.applied, id)
    ensures MessageKey(id) !in t
  {
    assert KeyShown(MessageKey(id), s) <==> HasContent(s.applied, id);
  }

  lemma OwnFailureAbsent(f: Flavour, t: Table, s: Split, op: Operation)
    requires Shows(f, t, s)
    requires forall o :: o in s.failed ==> OwnFailureKey(o) != OwnFailureKey(op)
    ensures OwnFailureKey(op) !in t
  {
    assert KeyShown(OwnFailureKey(op), s) <==> exists o :: o in s.failed && OwnFailureKey(o) == OwnFailureKey(op);
  }

  lemma NoMutationBeforeContent(s: Split, op: Operation)
    requires SplitOk(s) && WellFormed(s.applied + s.failed + {op}) && IsContent(op) && op !in s.applied
    ensures !HasContent(s.applied, op.messageId) && MutationsOf(s.applied, op.messageId) == {}
  {
    forall c | c in s.applied && IsContent(c) ensures c.messageId != op.messageId {
      assert Compatible(c, op);
    }
    assert forall u :: u in s.applied && IsMutation(u) ==> HasContent(s.applied, TargetId(u));
  }

  lemma StepContent(f: Flavour, t: Table, s: Split, op: Operation)
    requires SplitOk(s) && WellFormed(s.applied + s.failed + {op}) && Shows(f, t, s)
    requires IsContent(op)
    ensures Shows(f, ApplyOperation(f, t, op), StepSplit(s, op))
  {
    forall o | o in s.failed ensures OwnFailureKey(o) != OwnFailureKey(op) {
      assert Compatible(o, op);
    }
    OwnFailureAbsent(f, t, s, op);
    if op in s.applied {
      RepeatedContent(f, t, s, op);
    } else {
      NoMutationBeforeContent(s, op);
      NewContent(f, t, s, op);
    }
  }

  lemma RepeatedContent(f: Flavour, t: Table, s: Split, op: Operation)
    requires Shows(f, t, s) && IsContent(op) && op in s.applied && OwnFailureKey(op) !in t
    ensures ApplyOperation(f, t, op) == t && StepSplit(s, op) == s
  {
    assert s.applied + {op} == s.applied;
    assert t - {OwnFailureKey(op)} == t;
  }

  lemma NewContent(f: Flavour, t: Table, s: Split, op: Operation)
    requires Shows(f, t, s) && IsContent(op) && OwnFailureKey(op) !in t
    requires !HasContent(s.applied, op.messageId) && MutationsOf(s.applied, op.messageId) == {}
    ensures Shows(f, ApplyOperation(f, t, op), StepSplit(s, op))
  {
    MessageAbsent(f, t, s, op.messageId);
    PutContent(f, t, s, op);
    var after := t[MessageKey(op.messageId) := ContentEntry(f, op)];
    assert after - {OwnFailureKey(op)} == after;
  }

  lemma StepMutation(f: Flavour, t: Table, s: Split, op: Operation)
    requires SplitOk(s) && WellFormed(s.applied + s.failed + {op}) && Shows(f, t, s)
    requires IsMutation(op) && HasContent(s.applied, TargetId(op))
    ensures Shows(f, ApplyOperation(f, t, op), StepSplit(s, op))
  {
    var c :| c in s.applied && IsContent(c) && c.messageId == TargetId(op);
    OneOfEach(s.applied + s.failed + {op}, s, c, op);
    PutMutation(f, t, s, c, op, Registers(f, c, MutationsOf(s.applied, c.messageId) + {op}));
    MutationTakes(f, t, s, c, op);
  }

  lemma MutationTakes(f: Flavour, t: Table, s: Split, c: Operation, op: Operation)
    requires WellFormed(s.applied + s.failed + {op}) && Shows(f, t, s) && IsMutation(op)
    requires c in s.applied && IsContent(c) && c.messageId == TargetId(op)
    ensures ApplyOperation(f, t, op) ==
            t[MessageKey(c.messageId) := Registers(f, c, MutationsOf(s.applied, c.messageId) + {op})] -
            {OwnFailureKey(op)}
  {
    var M := MutationsOf(s.applied, c.messageId);
    MutationRegisters(f, c, M, op, s.applied + s.failed + {op});
    MutationApplied(f, t, op, Registers(f, c, M));
  }

  /** Registers moved by one mutation of a well-formed log. */
  lemma MutationRegisters(f: Flavour, c: Operation, M: set<Operation>, op: Operation, L: set<Operation>)
    requires WellFormed(L) && M + {c, op} <= L && IsContent(c) && IsMutation(op) && AllMutations(M)
    ensures Registers(f, c, M).Message?
    ensures ApplyMutation(f, Registers(f, c, M), op) == Registers(f, c, M + {op})
  {
    WellFormedSubset(M + {c, op}, L);
    RegistersStep(f, c, M, op);
  }

  /** A mutation whose target is shown moves its entry and drops its own failure. */
  lemma MutationApplied(f: Flavour, t: Table, op: Operation, e: Entry)
    requires IsMutation(op) && e.Message?
    requires MessageKey(TargetId(op)) in t && t[MessageKey(TargetId(op))] == e
    ensures ApplyOperation(f, t, op) ==
            t[MessageKey(TargetId(op)) := ApplyMutation(f, e, op)] - {OwnFailureKey(op)}
  {}

  lemma OneOfEach(L: set<Operation>, s: Split, c: Operation, op: Operation)
    requires WellFormed(L) && s.applied + s.failed <= L && c in L && op in L && IsContent(c)
    ensures forall d :: d in s.applied && IsContent(d) && d.messageId == c.messageId ==> d == c
    ensures forall o :: o in s.failed && OwnFailureKey(o) == OwnFailureKey(op) ==> o == op
  {
    forall d | d in s.applied && IsContent(d) && d.messageId == c.messageId ensures d == c {
      assert Compatible(d, c);
    }
    forall o | o in s.failed && OwnFailureKey(o) == OwnFailureKey(op) ensures o == op {
      assert Compatible(o, op);
    }
  }

  /** One iteration of the merge loop, whatever the operation. */
  lemma StepShows(f: Flavour, t: Table, s: Split, op: Operation)
    requires SplitOk(s) && WellFormed(s.applied + s.failed + {op}) && Shows(f, t, s)
    ensures SplitOk(StepSplit(s, op)) && Shows(f, ApplyOperation(f, t, op), StepSplit(s, op))
  {
    StepSplitOk(s, op);
    if IsContent(op) {
      StepContent(f, t, s, op);
    } else if IsMutation(op) && HasContent(s.applied, TargetId(op)) {
      StepMutation(f, t, s, op);
    } else {
      StepFailure(f, t, s, op);
    }
  }

  ghost function FoldSplit(s: Split, ops: seq<Operation>): Split {
    if ops == [] then s else StepSplit(FoldSplit(s, ops[..|ops| - 1]), ops[|ops| - 1])
  }

  lemma {:induction false} FoldSplitWithin(s: Split, ops: seq<Operation>)
    ensures FoldSplit(s, ops).applied + FoldSplit(s, ops).failed <= s.applied + s.failed + (set o | o in ops)
  {
    if ops != [] {
      FoldSplitWithin(s, ops[..|ops| - 1]);
      assert ops == ops[..|ops| - 1] + [ops[|ops| - 1]];
    }
  }

  lemma StepShowsWithin(f: Flavour, t: Table, m: Split, op: Operation, L: set<Operation>)
    requires WellFormed(L) && m.applied + m.failed + {op} <= L && SplitOk(m) && Shows(f, t, m)
    ensures SplitOk(StepSplit(m, op)) && Shows(f, ApplyOperation(f, t, op), StepSplit(m, op))
  {
    WellFormedSubset(m.applied + m.failed + {op}, L);
    StepShows(f, t, m, op);
  }

  lemma LastWithin(s: Split, ops: seq<Operation>, front: seq<Operation>, op: Operation, L: set<Operation>)
    requires ops == front + [op] && s.applied + s.failed + (set o | o in ops) <= L
    ensures s.applied + s.failed + (set o | o in front) <= L
    ensures FoldSplit(s, front).applied + FoldSplit(s, front).failed + {op} <= L
  {
    FoldSplitWithin(s, front);
  }

  lemma ApplyAllLast(f: Flavour, t: Table, ops: seq<Operation>)
    requires ops != []
    ensures ApplyAll(f, t, ops) == ApplyOperation(f, ApplyAll(f, t, ops[..|ops| - 1]), ops[|ops| - 1])
  {}

  lemma FoldSplitLast(s: Split, ops: seq<Operation>)
    requires ops != []
    ensures FoldSplit(s, ops) == StepSplit(FoldSplit(s, ops[..|ops| - 1]), ops[|ops| - 1])
  {}

  /** The whole loop: the table after the fold shows the split after the fold. */
  lemma {:induction false} FoldShows(f: Flavour, t: Table, s: Split, ops: seq<Operation>, L: set<Operation>)
    requires WellFormed(L) && s.applied + s.failed + (set o | o in ops) <= L
    requires SplitOk(s) && Shows(f, t, s)
    ensures SplitOk(FoldSplit(s, ops)) && Shows(f, ApplyAll(f, t, ops), FoldSplit(s, ops))
  {
    if ops != [] {
      var front, op := ops[..|ops| - 1], ops[|ops| - 1];
      LastWithin(s, ops, front, op, L);
      FoldShows(f, t, s, front, L);
      StepShowsWithin(f, ApplyAll(f, t, front), FoldSplit(s, front), op, L);
      ApplyAllLast(f, t, ops);
      FoldSplitLast(s, ops);
    }
  }
}
