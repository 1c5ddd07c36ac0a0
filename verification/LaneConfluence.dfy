/**
 Runs of deliveries to a lane whose window and pending memory are large enough: every order,
 batching and repetition ends in the projection of the delivered set.
 */
module LaneConfluence {
  import opened Projection
  import opened Log
  import opened Listings
  import opened Merge
  import opened LanePending
  import opened Confluence

  const EMPTY_LANE: Lane := Lane([], [])

  ghost predicate Faithful(f: Flavour, lane: Lane, D: set<Operation>)
    requires WellFormed(D)
  {
    lane.items == Project(f, D) && lane.pending == Waiting(D)
  }

  ghost predicate Fits(f: Flavour, D: set<Operation>, limit: nat) {
    |EntriesOf(f, D)| <= limit && |Orphans(D)| <= PendingLimit(limit)
  }

  lemma EmptyIsFaithful(f: Flavour)
    ensures WellFormed({}) && Faithful(f, EMPTY_LANE, {})
  {
    assert EntriesOf(f, {}) == {} && Orphans({}) == {};
    assert Project(f, {}) == [] && Waiting({}) == [];
  }

  lemma RetryReplaysWaiting(D: set<Operation>, pending: seq<Operation>, updates: seq<Operation>)
    requires WellFormed(D) && pending == Waiting(D)
    ensures var retry := RetryOf(pending, ContentIds(updates));
            Elements(retry) <= D && ReplaysWaiting(D, Elements(updates + retry))
  {
    var retry := RetryOf(pending, ContentIds(updates));
    forall u | u in retry ensures u in D {
      assert u in Elements(pending);
    }
    forall u | u in D && IsOrphan(D, u) && HasContent(Elements(updates + retry), TargetId(u))
      ensures u in Elements(updates + retry)
    {
      var c :| c in Elements(updates + retry) && IsContent(c) && c.messageId == TargetId(u);
      assert c !in retry by {
        assert c in retry ==> c in Elements(pending) && c in Orphans(D);
      }
      assert c in updates && c.messageId in ContentIds(updates);
      assert Compatible(u, u);
      assert u in Orphans(D) && u in Elements(pending);
      assert u in retry;
    }
  }

  lemma ProjectElements(f: Flavour, D: set<Operation>)
    requires WellFormed(D)
    ensures Elements(Project(f, D)) == EntriesOf(f, D)
  {
    EntriesDistinct(f, D);
  }

  lemma UnresolvedEntryIsOrphan(f: Flavour, D: set<Operation>, e: Entry) returns (o: Operation)
    requires e in EntriesOf(f, D) && IsUnresolved(e)
    ensures o in Orphans(D) && IdentityOf(o) == (e.messageId, e.sequence)
  {
    o :| o in D && (o.Undecrypted? || IsOrphan(D, o)) && e == FailureEntry(o);
  }

  lemma OrphanIsUnresolvedEntry(f: Flavour, D: set<Operation>, u: Operation)
    requires u in Orphans(D)
    ensures FailureEntry(u) in EntriesOf(f, D) && IsUnresolved(FailureEntry(u))
    ensures (FailureEntry(u).messageId, FailureEntry(u).sequence) == IdentityOf(u)
  {}

  lemma UnresolvedAreOrphans(f: Flavour, D: set<Operation>, items: seq<Entry>)
    requires Elements(items) == EntriesOf(f, D)
    ensures UnresolvedIdentities(items) == set u | u in Orphans(D) :: IdentityOf(u)
  {
    forall e | e in items && IsUnresolved(e)
      ensures (e.messageId, e.sequence) in (set u | u in Orphans(D) :: IdentityOf(u))
    {
      assert e in Elements(items);
      var o := UnresolvedEntryIsOrphan(f, D, e);
    }
    forall u | u in Orphans(D) ensures IdentityOf(u) in UnresolvedIdentities(items) {
      OrphanIsUnresolvedEntry(f, D, u);
      assert FailureEntry(u) in Elements(items);
    }
  }

  lemma PendingIsWaiting(f: Flavour, D: set<Operation>, ops: seq<Operation>, limit: nat)
    requires WellFormed(D) && Elements(ops) <= D && Orphans(D) <= Elements(ops)
    requires |Orphans(D)| <= PendingLimit(limit)
    ensures RetainedPending(Project(f, D), ops, limit) == Waiting(D)
  {
    var unresolved := UnresolvedIdentities(Project(f, D));
    ProjectElements(f, D);
    UnresolvedAreOrphans(f, D, Project(f, D));
    WellFormedSubset(D, D);
    assert OneOperationPerIdentity(Elements(ops));
    CandidatesElements(ops, unresolved);
    var candidates := CandidatesOf(ops, unresolved);
    forall u | u in ops && IsCandidate(u, unresolved) ensures u in Orphans(D) {
      var v :| v in Orphans(D) && IdentityOf(u) == IdentityOf(v);
      assert Compatible(u, v);
    }
    assert Elements(candidates) == Orphans(D);
    WellFormedSubset(Orphans(D), D);
    OperationsLinear(Orphans(D));
    SortIsListing(candidates);
  }

  lemma OrphansShrink(D: set<Operation>, P: set<Operation>)
    ensures Orphans(D + P) <= Orphans(D) + P
  {
    forall u | u in Orphans(D + P) ensures u in Orphans(D) + P {
      HasContentUnion(D, P, TargetId(u));
    }
  }

  lemma DeliverItems(f: Flavour, lane: Lane, D: set<Operation>, updates: seq<Operation>, limit: nat)
    requires WellFormed(D) && WellFormed(D + Elements(updates)) && Faithful(f, lane, D)
    ensures Deliver(f, lane, updates, limit).items == SliceLast(Project(f, D + Elements(updates)), limit)
  {
    var retry := RetryOf(lane.pending, ContentIds(updates));
    RetryReplaysWaiting(D, lane.pending, updates);
    assert Elements(updates + retry) == Elements(updates) + Elements(retry);
    assert D + Elements(updates + retry) == D + Elements(updates);
    MergeProjects(f, lane.items, D, updates + retry, limit);
  }

  lemma CandidatesCoverOrphans(D: set<Operation>, pending: seq<Operation>, updates: seq<Operation>)
    requires Elements(pending) == Orphans(D)
    ensures Elements(pending + updates) <= D + Elements(updates)
    ensures Orphans(D + Elements(updates)) <= Elements(pending + updates)
  {
    assert Elements(pending + updates) == Elements(pending) + Elements(updates);
    OrphansShrink(D, Elements(updates));
  }

  /** One delivery: batch and replayed mutations in, the projection of the larger set out. */
  lemma DeliverFaithful(f: Flavour, lane: Lane, D: set<Operation>, updates: seq<Operation>, limit: nat)
    requires WellFormed(D) && WellFormed(D + Elements(updates))
    requires Faithful(f, lane, D) && Fits(f, D + Elements(updates), limit)
    ensures Faithful(f, Deliver(f, lane, updates, limit), D + Elements(updates))
  {
    DeliverItems(f, lane, D, updates, limit);
    var items := Project(f, D + Elements(updates));
    assert SliceLast(items, limit) == items;
    CandidatesCoverOrphans(D, lane.pending, updates);
    PendingIsWaiting(f, D + Elements(updates), lane.pending + updates, limit);
  }

  ghost function DeliverAll(f: Flavour, lane: Lane, batches: seq<seq<Operation>>, limit: nat): Lane {
    if batches == [] then lane
    else Deliver(f, DeliverAll(f, lane, batches[..|batches| - 1], limit), batches[|batches| - 1], limit)
  }

  ghost function Delivered(batches: seq<seq<Operation>>): set<Operation> {
    if batches == [] then {} else Delivered(batches[..|batches| - 1]) + Elements(batches[|batches| - 1])
  }

  ghost predicate FitsThroughout(f: Flavour, batches: seq<seq<Operation>>, limit: nat) {
    forall n :: 0 <= n <= |batches| ==> Fits(f, Delivered(batches[..n]), limit)
  }

  /** The lane after any run of deliveries is a function of the set of delivered operations. */
  lemma {:induction false} ArrivalOrderConfluence(f: Flavour, batches: seq<seq<Operation>>, limit: nat)
    requires WellFormed(Delivered(batches)) && FitsThroughout(f, batches, limit)
    ensures DeliverAll(f, EMPTY_LANE, batches, limit) ==
            Lane(Project(f, Delivered(batches)), Waiting(Delivered(batches)))
  {
    if batches == [] {
      EmptyIsFaithful(f);
    } else {
      var front := batches[..|batches| - 1];
      WellFormedSubset(Delivered(front), Delivered(batches));
      FitsFront(f, batches, limit);
      ArrivalOrderConfluence(f, front, limit);
      DeliverFaithful(f, DeliverAll(f, EMPTY_LANE, front, limit), Delivered(front), batches[|batches| - 1], limit);
    }
  }

  lemma FitsFront(f: Flavour, batches: seq<seq<Operation>>, limit: nat)
    requires batches != [] && FitsThroughout(f, batches, limit)
    ensures FitsThroughout(f, batches[..|batches| - 1], limit) && Fits(f, Delivered(batches), limit)
  {
    var front := batches[..|batches| - 1];
    forall n | 0 <= n <= |front| ensures Fits(f, Delivered(front[..n]), limit) {
      assert front[..n] == batches[..n];
    }
    assert batches[..|batches|] == batches;
  }

  /** Two clients that received the same operations agree, however they received them. */
  lemma SameOperationsSameLane(f: Flavour, mine: seq<seq<Operation>>, theirs: seq<seq<Operation>>, limit: nat)
    requires Delivered(mine) == Delivered(theirs) && WellFormed(Delivered(mine))
    requires FitsThroughout(f, mine, limit) && FitsThroughout(f, theirs, limit)
    ensures DeliverAll(f, EMPTY_LANE, mine, limit) == DeliverAll(f, EMPTY_LANE, theirs, limit)
  {
    ArrivalOrderConfluence(f, mine, limit);
    ArrivalOrderConfluence(f, theirs, limit);
  }

  /** Split arrival is the same as one merge of everything at once. */
  lemma SameAsOneMerge(f: Flavour, batches: seq<seq<Operation>>, all: seq<Operation>, limit: nat)
    requires Elements(all) == Delivered(batches) && WellFormed(Delivered(batches))
    requires FitsThroughout(f, batches, limit)
    ensures DeliverAll(f, EMPTY_LANE, batches, limit).items == Merged(f, [], all, limit)
  {
    ArrivalOrderConfluence(f, batches, limit);
    MergeFromNothing(f, all, limit);
    FitsAtEnd(f, batches, limit);
  }

  lemma MergeFromNothing(f: Flavour, all: seq<Operation>, limit: nat)
    requires WellFormed(Elements(all))
    ensures Merged(f, [], all, limit) == SliceLast(Project(f, Elements(all)), limit)
  {
    EmptyIsFaithful(f);
    var none: set<Operation> := {};
    assert none + Elements(all) == Elements(all);
    assert ReplaysWaiting(none, Elements(all));
    MergeProjects(f, [], none, all, limit);
  }

  lemma FitsAtEnd(f: Flavour, batches: seq<seq<Operation>>, limit: nat)
    requires FitsThroughout(f, batches, limit)
    ensures Fits(f, Delivered(batches), limit)
  {
    assert batches[..|batches|] == batches;
  }

  /**
   Merging operations that the timeline already reflects only applies the cut: the direct-message
   view, which merges the buffered local projections once more with its own limit, shows the
   newest `limit` entries of the lane, and all of them exactly when there are no more.
   */
  lemma RemergeOnlyCuts(f: Flavour, D: set<Operation>, again: seq<Operation>, limit: nat)
    requires WellFormed(D) && Elements(again) <= D && limit > 0
    ensures Merged(f, Project(f, D), again, limit) == SliceLast(Project(f, D), limit)
    ensures Merged(f, Project(f, D), again, limit) == Project(f, D) <==> |Project(f, D)| <= limit
  {
    assert D + Elements(again) == D;
    forall u | u in D && IsOrphan(D, u) ensures !HasContent(Elements(again), TargetId(u)) {
      HasContentUnion(D, Elements(again), TargetId(u));
    }
    MergeProjects(f, Project(f, D), D, again, limit);
  }
}
