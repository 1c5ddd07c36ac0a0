/** Why a well-formed log is asked for: what the code does without it, and what it does with it. */
module LogHypotheses {
  import opened Wrappers
  import opened Projection
  import opened Merge
  import opened MessageRegisters
  import opened Log
  import opened Listings
  import opened LanePending
  import opened Confluence
  import opened LaneConfluence
  import Text

  lemma SortOfTwo(a: Operation, b: Operation)
    ensures SortBySequence([a, b]) == if a.sequence <= b.sequence then [a, b] else [b, a]
  {
    assert [a, b][..1] == [a] && [a][..0] == [];
    assert SortBySequence([a]) == InsertBySequence([], a) == [a];
    assert SortBySequence([a, b]) == InsertBySequence([a], b);
    if b.sequence < a.sequence {
      assert InsertBySequence([a], b) == InsertBySequence([], b) + [a];
    }
  }

  lemma ApplyTwo(f: Flavour, t: Table, a: Operation, b: Operation)
    ensures ApplyAll(f, t, [a]) == ApplyOperation(f, t, a)
    ensures ApplyAll(f, t, [a, b]) == ApplyOperation(f, ApplyOperation(f, t, a), b)
  {
    assert [a, b][..1] == [a] && [a][..0] == [];
  }

  /**
   Content first and its mutation later, in two merges, agree with one merge of both exactly when
   the content has the smaller sequence.
   */
  lemma CausalityDecidesAgreement(f: Flavour, c: Operation, u: Operation)
    requires IsContent(c) && IsMutation(u) && TargetId(u) == c.messageId
    requires c.sequence != u.sequence && OwnFailureKey(c) != OwnFailureKey(u)
    ensures ApplyAll(f, ApplyAll(f, map[], [c]), [u]) == ApplyAll(f, map[], SortBySequence([c, u])) <==>
            c.sequence < u.sequence
  {
    SortOfTwo(c, u);
    ApplyTwo(f, map[], c, u);
    ApplyTwo(f, map[], u, c);
    ApplyTwo(f, ApplyAll(f, map[], [c]), u, u);
    var split := ApplyAll(f, ApplyAll(f, map[], [c]), [u]);
    assert OwnFailureKey(u) !in split;
    if u.sequence < c.sequence {
      assert OwnFailureKey(u) in ApplyAll(f, map[], [u, c]);
    }
  }

  /** A failed decryption that is repeated successfully is forgotten; the other way round it stays. */
  lemma DecryptStatusMustBeFixed(f: Flavour, c: Operation, failed: Operation)
    requires IsContent(c) && failed.Undecrypted? && OwnFailureKey(failed) == OwnFailureKey(c)
    ensures OwnFailureKey(c) !in ApplyAll(f, ApplyAll(f, map[], [failed]), [c])
    ensures OwnFailureKey(c) in ApplyAll(f, ApplyAll(f, map[], [c]), [failed])
  {
    ApplyTwo(f, map[], failed, failed);
    ApplyTwo(f, map[], c, c);
    ApplyTwo(f, ApplyAll(f, map[], [failed]), c, c);
    ApplyTwo(f, ApplyAll(f, map[], [c]), failed, failed);
  }

  /** The projection trims the target id and the replay filter does not: padded ids are never replayed. */
  lemma ReplayNeedsTrimmedTarget(u: Operation, c: Operation)
    requires IsMutation(u) && u.targetMessageId.Some? && IsContent(c)
    requires TargetId(u) == c.messageId
    ensures u in RetryOf([u], ContentIds([c])) <==> u.targetMessageId.value == Text.Trim(u.targetMessageId.value)
  {
    assert ContentIds([c]) == {c.messageId};
  }

  // ----- The hypotheses at work -----

  /** A content and a mutation of it, as the server orders them. */
  ghost predicate IsPair(c: Operation, u: Operation) {
    && IsContent(c) && IsMutation(u) && u.targetMessageId == Some(c.messageId) && Text.Trim(c.messageId) == c.messageId
    && c.sequence < u.sequence && OwnFailureKey(c) != OwnFailureKey(u)
  }

  lemma PairIsLog(c: Operation, u: Operation)
    requires IsPair(c, u)
    ensures WellFormed({c, u}) && WellFormed({u})
  {
    forall a, b | a in {c, u} && b in {c, u} ensures Compatible(a, b) {}
    WellFormedSubset({u}, {c, u});
  }

  lemma AloneEntries(f: Flavour, u: Operation)
    requires IsMutation(u)
    ensures Orphans({u}) == {u} && EntriesOf(f, {u}) == {FailureEntry(u)}
  {
    assert !HasContent({u}, TargetId(u));
  }

  lemma PairEntries(f: Flavour, c: Operation, u: Operation)
    requires IsPair(c, u)
    ensures Orphans({c, u}) == {} && EntriesOf(f, {c, u}) == {Registers(f, c, {u})}
  {
    assert c in {c, u} && HasContent({c, u}, TargetId(u));
    assert MutationsOf({c, u}, c.messageId) == {u};
  }

  lemma SingleListing<T(!new)>(s: seq<T>, x: T)
    requires Elements(s) == {x} && |s| == 1
    ensures s == [x]
  {
    assert s[0] in Elements(s);
  }

  lemma TwoBatches(u: Operation, c: Operation)
    ensures Delivered([[u]]) == {u} && Delivered([[u], [c]]) == {c, u} && Delivered([]) == {}
  {
    assert [[u]][..0] == [] && [[u], [c]][..1] == [[u]];
    assert Elements([u]) == {u} && Elements([c]) == {c};
  }

  lemma FitsOneMore(f: Flavour, batches: seq<seq<Operation>>, batch: seq<Operation>, limit: nat)
    requires FitsThroughout(f, batches, limit) && Fits(f, Delivered(batches + [batch]), limit)
    ensures FitsThroughout(f, batches + [batch], limit)
  {
    var all := batches + [batch];
    forall n | 0 <= n <= |all| ensures Fits(f, Delivered(all[..n]), limit) {
      if n <= |batches| { assert all[..n] == batches[..n]; } else { assert all[..n] == all; }
    }
  }

  lemma NothingFits(f: Flavour, limit: nat)
    ensures FitsThroughout(f, [], limit)
  {
    var none: seq<seq<Operation>> := [];
    assert EntriesOf(f, {}) == {} && Orphans({}) == {};
    assert Delivered(none) == {} && none[..0] == none;
  }

  lemma PairSetsFit(f: Flavour, c: Operation, u: Operation, limit: nat)
    requires IsPair(c, u) && limit > 0
    ensures Fits(f, {u}, limit) && Fits(f, {c, u}, limit)
  {
    AloneEntries(f, u);
    PairEntries(f, c, u);
  }

  lemma OneByOne(u: Operation, c: Operation)
    ensures [] + [[u]] == [[u]] && [[u]] + [[c]] == [[u], [c]]
  {}

  lemma PairFits(f: Flavour, c: Operation, u: Operation, limit: nat)
    requires Fits(f, {u}, limit) && Fits(f, {c, u}, limit)
    ensures FitsThroughout(f, [[u]], limit) && FitsThroughout(f, [[u], [c]], limit)
  {
    TwoBatches(u, c);
    NothingFits(f, limit);
    OneByOne(u, c);
    FitsOneMore(f, [], [u], limit);
    FitsOneMore(f, [[u]], [c], limit);
  }

  lemma AloneWaits(f: Flavour, u: Operation)
    requires IsMutation(u) && WellFormed({u})
    ensures Project(f, {u}) == [FailureEntry(u)] && Waiting({u}) == [u]
  {
    AloneEntries(f, u);
    ProjectElements(f, {u});
    SingleListing(Project(f, {u}), FailureEntry(u));
    SingleListing(Waiting({u}), u);
  }

  lemma PairResolves(f: Flavour, c: Operation, u: Operation)
    requires IsPair(c, u) && WellFormed({c, u})
    ensures Project(f, {c, u}) == [Registers(f, c, {u})] && Waiting({c, u}) == []
  {
    PairEntries(f, c, u);
    ProjectElements(f, {c, u});
    SingleListing(Project(f, {c, u}), Registers(f, c, {u}));
  }

  /** A mutation that comes first waits, and is applied when its content comes: nothing is left over. */
  lemma MutationBeforeContent(f: Flavour, c: Operation, u: Operation, limit: nat)
    requires IsPair(c, u) && limit > 0
    ensures DeliverAll(f, EMPTY_LANE, [[u]], limit) == Lane([FailureEntry(u)], [u])
    ensures DeliverAll(f, EMPTY_LANE, [[u], [c]], limit) == Lane([Registers(f, c, {u})], [])
  {
    PairIsLog(c, u);
    PairSetsFit(f, c, u, limit);
    PairFits(f, c, u, limit);
    TwoBatches(u, c);
    AloneWaits(f, u);
    PairResolves(f, c, u);
    ArrivalOrderConfluence(f, [[u]], limit);
    ArrivalOrderConfluence(f, [[u], [c]], limit);
  }
}
