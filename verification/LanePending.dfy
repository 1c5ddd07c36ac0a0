/**
 The lane keeps mutations that arrived before their target and replays them when the content
 comes (apps/web/src/chats/encrypted-lane-pending.ts).
 */
module LanePending {
  import opened ServerSequence
  import opened Projection
  import opened Listings
  import opened Merge

  const DEFAULT_PAGE_SIZE: nat := 50
  const MAX_PENDING: nat := 64

  /** A page size as JavaScript hands it over. */
  datatype PageSize = Finite(value: real) | NotFinite

  function ResolvePageSize(pageSize: PageSize): (limit: nat)
    ensures limit >= 1
    ensures pageSize.Finite? && pageSize.value >= 1.0 ==> limit as real <= pageSize.value < (limit + 1) as real
    ensures pageSize.NotFinite? || pageSize.value < 1.0 ==> limit == 50
  {
    if pageSize.Finite? && pageSize.value >= 1.0 then pageSize.value.Floor else DEFAULT_PAGE_SIZE
  }

  datatype Lane = Lane(items: seq<Entry>, pending: seq<Operation>)

  type Identity = (string, Sequence)

  function IdentityOf(op: Operation): Identity {
    (op.messageId, op.sequence)
  }

  function PendingLimit(limit: nat): nat {
    if limit < MAX_PENDING then limit else MAX_PENDING
  }

  function ContentIds(updates: seq<Operation>): set<string> {
    set u | u in updates && IsContent(u) :: u.messageId
  }

  predicate TargetsOneOf(u: Operation, ids: set<string>) {
    u.Ready? && u.targetMessageId.Some? && u.targetMessageId.value in ids
  }

  function RetryOf(pending: seq<Operation>, ids: set<string>): (r: seq<Operation>)
    ensures forall u :: u in r <==> u in pending && TargetsOneOf(u, ids)
  {
    if pending == [] then []
    else
      var rest := RetryOf(pending[1..], ids);
      assert pending == [pending[0]] + pending[1..];
      if TargetsOneOf(pending[0], ids) then [pending[0]] + rest else rest
  }

  predicate IsUnresolved(e: Entry) {
    e.Failure? && e.reason.UnresolvedTarget?
  }

  function UnresolvedIdentities(items: seq<Entry>): set<Identity> {
    set e | e in items && IsUnresolved(e) :: (e.messageId, e.sequence)
  }

  /** Map.set on the candidates: the place of the first insertion, the value of the last. */
  function PutCandidate(candidates: seq<Operation>, u: Operation): seq<Operation> {
    if candidates == [] then [u]
    else if IdentityOf(candidates[0]) == IdentityOf(u) then [u] + candidates[1..]
    else [candidates[0]] + PutCandidate(candidates[1..], u)
  }

  predicate IsCandidate(u: Operation, unresolved: set<Identity>) {
    IsMutation(u) && IdentityOf(u) in unresolved
  }

  function CandidatesOf(ops: seq<Operation>, unresolved: set<Identity>): seq<Operation> {
    if ops == [] then []
    else
      var before := CandidatesOf(ops[..|ops| - 1], unresolved);
      if IsCandidate(ops[|ops| - 1], unresolved) then PutCandidate(before, ops[|ops| - 1]) else before
  }

  function RetainedPending(items: seq<Entry>, ops: seq<Operation>, limit: nat): seq<Operation> {
    SliceLast(SortBySequence(CandidatesOf(ops, UnresolvedIdentities(items))), PendingLimit(limit))
  }

  lemma CandidatesSnoc(ops: seq<Operation>, i: nat, unresolved: set<Identity>)
    requires i < |ops|
    ensures CandidatesOf(ops[..i + 1], unresolved) ==
            if IsCandidate(ops[i], unresolved) then PutCandidate(CandidatesOf(ops[..i], unresolved), ops[i])
            else CandidatesOf(ops[..i], unresolved)
  {
    assert ops[..i + 1][..i] == ops[..i];
  }

  /** The specification of one delivery to the lane. */
  ghost function Deliver(f: Flavour, lane: Lane, updates: seq<Operation>, limit: nat): Lane {
    var retry := RetryOf(lane.pending, ContentIds(updates));
    var items := Merged(f, lane.items, updates + retry, limit);
    Lane(items, RetainedPending(items, lane.pending + updates, limit))
  }

  /** mergeEncryptedLaneWithPending */
  method MergeEncryptedLaneWithPending(f: Flavour, lane: Lane, updates: seq<Operation>, pageSize: PageSize)
    returns (next: Lane)
    ensures next == Deliver(f, lane, updates, ResolvePageSize(pageSize))
  {
    var limit := ResolvePageSize(pageSize);
    var retry := RetryOf(lane.pending, ContentIds(updates));
    var items := MergeProjection(f, lane.items, updates + retry, limit);
    var candidates := CollectCandidates(lane.pending + updates, UnresolvedIdentities(items));
    next := Lane(items, SliceLast(SortBySequence(candidates), PendingLimit(limit)));
  }

  method CollectCandidates(ops: seq<Operation>, unresolved: set<Identity>) returns (candidates: seq<Operation>)
    ensures candidates == CandidatesOf(ops, unresolved)
  {
    candidates := [];
    var i := 0;
    while i < |ops|
      invariant 0 <= i <= |ops|
      invariant candidates == CandidatesOf(ops[..i], unresolved)
    {
      CandidatesSnoc(ops, i, unresolved);
      if ops[i].Ready? && (ops[i].kind.Edit? || ops[i].kind.Tombstone?) {
        if IdentityOf(ops[i]) in unresolved {
          candidates := PutCandidate(candidates, ops[i]);
        }
      }
      i := i + 1;
    }
    assert ops[..i] == ops;
  }

  // ----- What the candidates are -----

  ghost predicate IdentitiesDistinct(ops: seq<Operation>) {
    forall i, j :: 0 <= i < j < |ops| ==> IdentityOf(ops[i]) != IdentityOf(ops[j])
  }

  ghost predicate OneOperationPerIdentity(S: set<Operation>) {
    forall a, b :: a in S && b in S && IdentityOf(a) == IdentityOf(b) ==> a == b
  }

  lemma {:induction false} PutCandidateElements(candidates: seq<Operation>, u: Operation)
    requires OneOperationPerIdentity(Elements(candidates) + {u}) && IdentitiesDistinct(candidates)
    ensures Elements(PutCandidate(candidates, u)) == Elements(candidates) + {u}
    ensures IdentitiesDistinct(PutCandidate(candidates, u))
  {
    if candidates != [] {
      var first, rest := candidates[0], candidates[1..];
      assert candidates == [first] + rest;
      assert Elements(candidates) == {first} + Elements(rest);
      if IdentityOf(first) == IdentityOf(u) {
        assert first in Elements(candidates) && first == u;
      } else {
        assert OneOperationPerIdentity(Elements(rest) + {u});
        PutCandidateElements(rest, u);
        ConsIdentity(candidates, u, PutCandidate(rest, u));
        assert Elements([first] + PutCandidate(rest, u)) == {first} + Elements(PutCandidate(rest, u));
      }
    }
  }

  lemma ConsIdentity(candidates: seq<Operation>, u: Operation, q: seq<Operation>)
    requires candidates != [] && IdentitiesDistinct(candidates) && IdentityOf(candidates[0]) != IdentityOf(u)
    requires IdentitiesDistinct(q) && Elements(q) == Elements(candidates[1..]) + {u}
    ensures IdentitiesDistinct([candidates[0]] + q)
  {
    forall j | 0 <= j < |q| ensures IdentityOf(candidates[0]) != IdentityOf(q[j]) {
      assert q[j] in Elements(candidates[1..]) + {u};
      if q[j] != u {
        var i :| 0 <= i < |candidates[1..]| && candidates[1..][i] == q[j];
        assert candidates[i + 1] == q[j];
      }
    }
  }

  lemma {:induction false} CandidatesElements(ops: seq<Operation>, unresolved: set<Identity>)
    requires OneOperationPerIdentity(Elements(ops))
    ensures Elements(CandidatesOf(ops, unresolved)) == set u | u in ops && IsCandidate(u, unresolved)
    ensures IdentitiesDistinct(CandidatesOf(ops, unresolved))
  {
    if ops != [] {
      var front, last := ops[..|ops| - 1], ops[|ops| - 1];
      assert ops == front + [last];
      assert OneOperationPerIdentity(Elements(front));
      CandidatesElements(front, unresolved);
      if IsCandidate(last, unresolved) {
        var before := CandidatesOf(front, unresolved);
        assert Elements(before) + {last} <= Elements(ops);
        PutCandidateElements(before, last);
      }
    }
  }

  // ----- Listings by sequence -----

  predicate SequenceBefore(a: Operation, b: Operation) {
    a.sequence < b.sequence
  }

  lemma {:induction false} DistinctCount(ops: seq<Operation>)
    requires IdentitiesDistinct(ops)
    ensures |Elements(ops)| == |ops|
  {
    if ops != [] {
      var front, last := ops[..|ops| - 1], ops[|ops| - 1];
      DistinctCount(front);
      assert ops == front + [last];
      assert last !in front;
      assert Elements(ops) == Elements(front) + {last};
    }
  }

  lemma {:induction false} CountDistinct(ops: seq<Operation>, i: nat, j: nat)
    requires |Elements(ops)| == |ops| && i < j < |ops|
    ensures ops[i] != ops[j]
  {
    if ops[i] == ops[j] {
      var without := ops[..j] + ops[j + 1..];
      forall x | x in ops ensures x in without {
        var k :| 0 <= k < |ops| && ops[k] == x;
        assert without[if k == j then i else if k < j then k else k - 1] == x;
      }
      assert Elements(ops) == Elements(without);
      ElementsAtMost(without);
    }
  }

  lemma {:induction false} ElementsAtMost(ops: seq<Operation>)
    ensures |Elements(ops)| <= |ops|
  {
    if ops != [] {
      ElementsAtMost(ops[..|ops| - 1]);
      assert ops == ops[..|ops| - 1] + [ops[|ops| - 1]];
      assert Elements(ops) == Elements(ops[..|ops| - 1]) + {ops[|ops| - 1]};
    }
  }

  /** Sorting distinct operations of one log gives the listing of their set. */
  lemma SortIsListing(ops: seq<Operation>)
    requires IdentitiesDistinct(ops)
    requires Linear(Elements(ops), SequenceBefore)
    ensures SortBySequence(ops) == Sorted(Elements(ops), SequenceBefore)
  {
    var s := SortBySequence(ops);
    StableSort(ops);
    DistinctCount(ops);
    assert |s| == |ops| by {
      assert |multiset(s)| == |multiset(ops)|;
    }
    forall i, j | 0 <= i < j < |s| ensures SequenceBefore(s[i], s[j]) {
      CountDistinct(s, i, j);
      assert s[i] in Elements(s) && s[j] in Elements(s);
    }
    ListingUnique(s, Elements(ops), SequenceBefore);
  }
}
