/**
 No lost update: what a load, a realtime envelope or a local echo has put on the timeline survives
 every load that was already in flight, every delivery and every error, until a full window of
 newer entries displaces it.
 */
module LaneNoLoss {
  import opened Wrappers
  import opened Projection
  import opened Log
  import opened Listings
  import opened LaneSafety
  import opened LaneHook

  /** The event applies u to scope k at once: the load in charge, a decrypted envelope or a local echo. */
  predicate AppliesUpdate(h: Hook, e: Event, k: Scope, u: Operation) {
    h.active == Some(k) &&
    match e
    case LoadResolved(t, updates) => IsCurrent(h, t) && u in updates
    case EnvelopeDecrypted(t, updates) => t in h.deliveries && !h.deliveries[t].cancelled && u in updates
    case LocalEcho(update) => update == u
    case _ => false
  }

  /** The event is the end of a load or a delivery still in charge, or an echo into an open scope. */
  predicate Writes(h: Hook, e: Event) {
    match e
    case LoadResolved(t, _) => IsCurrent(h, t)
    case LoadRejected(t, _) => IsCurrent(h, t)
    case EnvelopeDecrypted(t, _) => t in h.deliveries && !h.deliveries[t].cancelled
    case EnvelopeRejected(t) => t in h.deliveries && !h.deliveries[t].cancelled
    case LocalEcho(_) => h.active.Some?
    case _ => false
  }

  /**
   The event neither writes for another scope than the loaded one nor commits a load started at or
   after ticket `bound` without u. The scope may be left and opened again.
   */
  predicate Continues(h: Hook, e: Event, bound: nat, u: Operation) {
    (Writes(h, e) ==> h.active == h.loaded.scope) &&
    (e.LoadResolved? && IsCurrent(h, e.ticket) ==> e.ticket < bound || u in e.updates)
  }

  /** The scope is loaded, and no load older than `bound` can replace what is there. */
  ghost predicate Staying(f: Flavour, D: set<Operation>, h: Hook, k: Scope, bound: nat) {
    && VersionsOk(h) && h.loaded.scope == Some(k) && bound <= h.nextTicket
    && LaneOk(f, D, h.loaded.lane, k.pageSize)
    && OldLoadsMerge(h, bound)
  }

  /** They are out of charge, or started before the last update and will be merged. */
  ghost predicate OldLoadsMerge(h: Hook, bound: nat) {
    forall t :: t in h.loads && t < bound ==>
      h.loads[t].version < h.requestVersion || h.loads[t].startedUpdates < h.updateVersion
  }

  ghost predicate Shown(f: Flavour, D: set<Operation>, h: Hook, u: Operation) {
    Reflects(f, D, h.loaded.lane.items, u)
  }

  ghost predicate PushedOut(f: Flavour, D: set<Operation>, h: Hook, k: Scope, u: Operation) {
    Displaced(f, D, h.loaded.lane.items, k.pageSize, u)
  }

  lemma CommitKeeps(f: Flavour, D: set<Operation>, h: Hook, k: Scope, keepItems: bool, updates: seq<Operation>,
                    u: Operation)
    requires WellFormed(D) && Elements(updates) <= D && LoadedOk(f, h.loaded, k, D)
    requires u in updates || (keepItems && h.loaded.scope == Some(k) && Shown(f, D, h, u))
    ensures var next := Commit(f, h, k, keepItems, updates);
            LoadedOk(f, next.loaded, k, D) && (Shown(f, D, next, u) || PushedOut(f, D, next, k, u))
  {
    if h.loaded.scope == Some(k) {
      PartOfLaneReady(f, D, h.loaded.lane, k.pageSize, keepItems, true);
    }
    DeliverSafe(f, D, BaseLane(h, k, keepItems), updates, k.pageSize);
  }

  lemma EchoIsApplied(f: Flavour, D: set<Operation>, h: Hook, k: Scope, u: Operation)
    requires WellFormed(D) && u in D && LoadedOk(f, h.loaded, k, D) && h.active == Some(k)
    ensures var next := EchoLocally(f, h, u);
            LoadedOk(f, next.loaded, k, D) && (Shown(f, D, next, u) || PushedOut(f, D, next, k, u))
  {
    assert Elements([u]) == {u};
    CommitKeeps(f, D, h.(updateVersion := h.updateVersion + 1), k, true, [u], u);
  }

  lemma EnvelopeIsApplied(f: Flavour, D: set<Operation>, h: Hook, t: nat, updates: seq<Operation>, k: Scope,
                          u: Operation)
    requires WellFormed(D) && Elements(updates) <= D && LoadedOk(f, h.loaded, k, D) && u in updates
    requires t in h.deliveries && h.deliveries[t] == Delivery(k, false)
    ensures var next := DecryptEnvelope(f, h, t, updates);
            LoadedOk(f, next.loaded, k, D) && (Shown(f, D, next, u) || PushedOut(f, D, next, k, u))
  {
    CommitKeeps(f, D, h.(deliveries := h.deliveries - {t}, updateVersion := h.updateVersion + 1), k, true, updates, u);
  }

  lemma LoadIsApplied(f: Flavour, D: set<Operation>, h: Hook, t: nat, updates: seq<Operation>, k: Scope, u: Operation)
    requires WellFormed(D) && Elements(updates) <= D && VersionsOk(h) && LoadedOk(f, h.loaded, k, D)
    requires IsCurrent(h, t) && h.active == Some(k) && u in updates
    ensures var next := ResolveLoad(f, h, t, updates);
            && LoadedOk(f, next.loaded, k, D) && (Shown(f, D, next, u) || PushedOut(f, D, next, k, u))
            && next.loaded.scope == Some(k) && OldLoadsMerge(next, h.nextTicket)
  {
    CommitKeeps(f, D, h.(loads := h.loads - {t}), k, h.updateVersion != h.loads[t].startedUpdates, updates, u);
  }

  lemma UpdateIsApplied(f: Flavour, D: set<Operation>, h: Hook, e: Event, k: Scope, u: Operation)
    requires WellFormed(D) && OperationsFor(h, e, k) <= D && VersionsOk(h) && LoadedOk(f, h.loaded, k, D)
    requires AppliesUpdate(h, e, k, u)
    ensures Staying(f, D, Step(f, h, e), k, h.nextTicket)
    ensures Shown(f, D, Step(f, h, e), u) || PushedOut(f, D, Step(f, h, e), k, u)
  {
    VersionsStep(f, h, e);
    match e
    case LoadResolved(t, updates) => LoadIsApplied(f, D, h, t, updates, k, u);
    case LocalEcho(update) => EchoIsApplied(f, D, h, k, u);
    case EnvelopeDecrypted(t, updates) => EnvelopeIsApplied(f, D, h, t, updates, k, u);
  }

  /** What one continuing event keeps of the scope. */
  lemma StayingStep(f: Flavour, D: set<Operation>, h: Hook, e: Event, k: Scope, bound: nat, u: Operation)
    requires WellFormed(D) && OperationsFor(h, e, k) <= D && Staying(f, D, h, k, bound)
    requires Continues(h, e, bound, u)
    ensures Staying(f, D, Step(f, h, e), k, bound)
  {
    VersionsStep(f, h, e);
    StepIsolated(f, h, e, k, D);
    OldLoadsStep(f, h, e, bound);
  }

  lemma OldLoadsStep(f: Flavour, h: Hook, e: Event, bound: nat)
    requires OldLoadsMerge(h, bound) && bound <= h.nextTicket
    ensures OldLoadsMerge(Step(f, h, e), bound) && bound <= Step(f, h, e).nextTicket
  {}

  /** A load that merges keeps what was shown. */
  lemma MergedKeepsShown(f: Flavour, D: set<Operation>, h: Hook, t: nat, updates: seq<Operation>, k: Scope,
                         u: Operation)
    requires WellFormed(D) && Elements(updates) <= D && LoadedOk(f, h.loaded, k, D)
    requires IsCurrent(h, t) && h.loads[t].scope == k && h.updateVersion != h.loads[t].startedUpdates
    requires h.loaded.scope == Some(k) && Shown(f, D, h, u)
    ensures var next := ResolveLoad(f, h, t, updates); Shown(f, D, next, u) || PushedOut(f, D, next, k, u)
  {
    CommitKeeps(f, D, h.(loads := h.loads - {t}), k, true, updates, u);
  }

  lemma LoadKeepsShown(f: Flavour, D: set<Operation>, h: Hook, t: nat, updates: seq<Operation>, k: Scope,
                       bound: nat, u: Operation)
    requires WellFormed(D) && OperationsFor(h, LoadResolved(t, updates), k) <= D && Staying(f, D, h, k, bound)
    requires Continues(h, LoadResolved(t, updates), bound, u) && Shown(f, D, h, u)
    ensures var next := Step(f, h, LoadResolved(t, updates)); Shown(f, D, next, u) || PushedOut(f, D, next, k, u)
  {
    if IsCurrent(h, t) {
      CommitKeeps(f, D, h.(loads := h.loads - {t}), k, h.updateVersion != h.loads[t].startedUpdates, updates, u);
    }
  }

  lemma EnvelopeKeepsShown(f: Flavour, D: set<Operation>, h: Hook, t: nat, updates: seq<Operation>, k: Scope,
                           u: Operation)
    requires WellFormed(D) && VersionsOk(h) && h.loaded.scope == Some(k) && LoadedOk(f, h.loaded, k, D)
    requires OperationsFor(h, EnvelopeDecrypted(t, updates), k) <= D
    requires Writes(h, EnvelopeDecrypted(t, updates)) ==> h.active == Some(k)
    requires Shown(f, D, h, u)
    ensures var next := DecryptEnvelope(f, h, t, updates); Shown(f, D, next, u) || PushedOut(f, D, next, k, u)
  {
    if t in h.deliveries && !h.deliveries[t].cancelled {
      var bumped := h.(deliveries := h.deliveries - {t}, updateVersion := h.updateVersion + 1);
      CommitKeeps(f, D, bumped, k, true, updates, u);
    }
  }

  lemma EchoKeepsShown(f: Flavour, D: set<Operation>, h: Hook, update: Operation, k: Scope, u: Operation)
    requires WellFormed(D) && h.loaded.scope == Some(k) && LoadedOk(f, h.loaded, k, D)
    requires OperationsFor(h, LocalEcho(update), k) <= D && (h.active.Some? ==> h.active == Some(k))
    requires Shown(f, D, h, u)
    ensures var next := EchoLocally(f, h, update); Shown(f, D, next, u) || PushedOut(f, D, next, k, u)
  {
    assert Elements([update]) == {update};
    if h.active.Some? { CommitKeeps(f, D, h.(updateVersion := h.updateVersion + 1), k, true, [update], u); }
  }

  /**
   Errors and everything that only opens, leaves or starts something leave the entries alone, and
   all but leaving the scope leave the waiting mutations alone too.
   */
  lemma OthersKeepItems(f: Flavour, h: Hook, e: Event, k: Scope)
    requires VersionsOk(h) && h.loaded.scope == Some(k) && (Writes(h, e) ==> h.active == Some(k))
    requires !e.LoadResolved? && !e.EnvelopeDecrypted? && !e.LocalEcho?
    ensures Step(f, h, e).loaded.lane.items == h.loaded.lane.items
    ensures !e.ScopeChanged? ==> Step(f, h, e).loaded.lane == h.loaded.lane
  {}

  lemma ShownStep(f: Flavour, D: set<Operation>, h: Hook, e: Event, k: Scope, bound: nat, u: Operation)
    requires WellFormed(D) && OperationsFor(h, e, k) <= D && Staying(f, D, h, k, bound)
    requires Continues(h, e, bound, u)
    requires Shown(f, D, h, u)
    ensures Shown(f, D, Step(f, h, e), u) || PushedOut(f, D, Step(f, h, e), k, u)
  {
    match e
    case LoadResolved(t, updates) => LoadKeepsShown(f, D, h, t, updates, k, bound, u);
    case EnvelopeDecrypted(t, updates) => EnvelopeKeepsShown(f, D, h, t, updates, k, u);
    case LocalEcho(update) => EchoKeepsShown(f, D, h, update, k, u);
    case _ => OthersKeepItems(f, h, e, k);
  }

  ghost predicate AllContinue(f: Flavour, D: set<Operation>, h: Hook, es: seq<Event>, k: Scope, bound: nat,
                              u: Operation)
  {
    forall i :: 0 <= i < |es| ==>
      Continues(Run(f, h, es[..i]), es[i], bound, u) && OperationsFor(Run(f, h, es[..i]), es[i], k) <= D
  }

  ghost predicate EverPushedOut(f: Flavour, D: set<Operation>, h: Hook, es: seq<Event>, k: Scope, u: Operation) {
    exists i :: 0 <= i <= |es| && PushedOut(f, D, Run(f, h, es[..i]), k, u)
  }

  lemma PushedOutInFront(f: Flavour, D: set<Operation>, h: Hook, es: seq<Event>, k: Scope, u: Operation)
    requires es != []
    ensures EverPushedOut(f, D, h, es[..|es| - 1], k, u) || PushedOut(f, D, Run(f, h, es), k, u) ==>
              EverPushedOut(f, D, h, es, k, u)
  {
    var front := es[..|es| - 1];
    assert es[..|es|] == es;
    if EverPushedOut(f, D, h, front, k, u) {
      var i :| 0 <= i <= |front| && PushedOut(f, D, Run(f, h, front[..i]), k, u);
      assert front[..i] == es[..i];
    }
  }

  lemma ContinueInFront(f: Flavour, D: set<Operation>, h: Hook, es: seq<Event>, k: Scope, bound: nat, u: Operation)
    requires es != [] && AllContinue(f, D, h, es, k, bound, u)
    ensures AllContinue(f, D, h, es[..|es| - 1], k, bound, u)
    ensures var h1, e := Run(f, h, es[..|es| - 1]), es[|es| - 1];
            Continues(h1, e, bound, u) && OperationsFor(h1, e, k) <= D
  {
    var front := es[..|es| - 1];
    forall i | 0 <= i < |front|
      ensures Continues(Run(f, h, front[..i]), front[i], bound, u)
      ensures OperationsFor(Run(f, h, front[..i]), front[i], k) <= D
    {
      assert front[..i] == es[..i] && front[i] == es[i];
    }
  }

  lemma {:induction false} ShownUntilPushedOut(f: Flavour, D: set<Operation>, h: Hook, es: seq<Event>, k: Scope,
                                               bound: nat, u: Operation)
    requires WellFormed(D) && Staying(f, D, h, k, bound) && Shown(f, D, h, u)
    requires AllContinue(f, D, h, es, k, bound, u)
    ensures Staying(f, D, Run(f, h, es), k, bound)
    ensures Shown(f, D, Run(f, h, es), u) || EverPushedOut(f, D, h, es, k, u)
  {
    if es != [] {
      var front, e := es[..|es| - 1], es[|es| - 1];
      var h1 := Run(f, h, front);
      ContinueInFront(f, D, h, es, k, bound, u);
      ShownUntilPushedOut(f, D, h, front, k, bound, u);
      StayingStep(f, D, h1, e, k, bound, u);
      PushedOutInFront(f, D, h, es, k, u);
      if Shown(f, D, h1, u) {
        ShownStep(f, D, h1, e, k, bound, u);
      }
    }
  }

  // ----- Whole runs -----

  lemma FrontOfConcat(xs: seq<Event>, ys: seq<Event>)
    requires ys != []
    ensures (xs + ys)[..|xs + ys| - 1] == xs + ys[..|ys| - 1] && (xs + ys)[|xs + ys| - 1] == ys[|ys| - 1]
  {}

  lemma {:induction false} RunOfConcat(f: Flavour, h: Hook, xs: seq<Event>, ys: seq<Event>)
    ensures Run(f, h, xs + ys) == Run(f, Run(f, h, xs), ys)
  {
    if ys == [] {
      assert xs + ys == xs;
    } else {
      FrontOfConcat(xs, ys);
      RunOfConcat(f, h, xs, ys[..|ys| - 1]);
    }
  }

  lemma {:induction false} HistoryContains(f: Flavour, es: seq<Event>, k: Scope, i: nat)
    requires i < |es|
    ensures OperationsFor(Run(f, INITIAL, es[..i]), es[i], k) <= History(f, es, k)
    ensures History(f, es[..i], k) <= History(f, es, k)
  {
    var front := es[..|es| - 1];
    if i < |front| {
      assert front[..i] == es[..i] && front[i] == es[i];
      HistoryContains(f, front, k, i);
    } else {
      assert es[..i] == front;
    }
  }

  lemma RunAfter(f: Flavour, before: seq<Event>, e: Event, rest: seq<Event>)
    ensures Run(f, INITIAL, before + [e] + rest) == Run(f, Step(f, Run(f, INITIAL, before), e), rest)
  {
    RunOfConcat(f, INITIAL, before + [e], rest);
    RunOfConcat(f, INITIAL, before, [e]);
    RunOfOne(f, Run(f, INITIAL, before), e);
  }

  lemma AllContinueInRun(f: Flavour, before: seq<Event>, e: Event, after: seq<Event>, k: Scope, bound: nat,
                         u: Operation)
    requires forall i :: 0 <= i < |after| ==>
               Continues(Run(f, INITIAL, before + [e] + after[..i]), after[i], bound, u)
    ensures AllContinue(f, History(f, before + [e] + after, k), Step(f, Run(f, INITIAL, before), e), after, k, bound, u)
  {
    var all, h1 := before + [e] + after, Step(f, Run(f, INITIAL, before), e);
    forall i | 0 <= i < |after|
      ensures Continues(Run(f, h1, after[..i]), after[i], bound, u)
      ensures OperationsFor(Run(f, h1, after[..i]), after[i], k) <= History(f, all, k)
    {
      RunAfter(f, before, e, after[..i]);
      HistoryContainsLater(f, before, e, after, k, i);
    }
  }

  lemma HistoryContainsLater(f: Flavour, before: seq<Event>, e: Event, after: seq<Event>, k: Scope, i: nat)
    requires i < |after|
    ensures OperationsFor(Run(f, INITIAL, before + [e] + after[..i]), after[i], k) <=
            History(f, before + [e] + after, k)
  {
    var all, n := before + [e] + after, |before| + 1 + i;
    assert all[..n] == before + [e] + after[..i] && all[n] == after[i];
    HistoryContains(f, all, k, n);
  }

  /**
   From any reachable state: what a load fetched, an envelope brought or an echo added to the open
   scope is on the timeline after every continuation that writes for no other scope and commits no
   load that was started later and lacks it, the scope left and opened again or not, unless at some
   moment since then `pageSize` newer entries filled the window.
   */
  lemma NoLostUpdate(f: Flavour, before: seq<Event>, e: Event, after: seq<Event>, k: Scope, u: Operation)
    requires WellFormed(History(f, before + [e] + after, k))
    requires AppliesUpdate(Run(f, INITIAL, before), e, k, u)
    requires forall i :: 0 <= i < |after| ==>
               Continues(Run(f, INITIAL, before + [e] + after[..i]), after[i], Run(f, INITIAL, before).nextTicket, u)
    ensures var D := History(f, before + [e] + after, k);
            Shown(f, D, Run(f, INITIAL, before + [e] + after), u) ||
            exists i :: 0 <= i <= |after| && PushedOut(f, D, Run(f, INITIAL, before + [e] + after[..i]), k, u)
  {
    var D, h := History(f, before + [e] + after, k), Run(f, INITIAL, before);
    var h1 := Step(f, h, e);
    AppliedInRun(f, before, e, after, k, u);
    AllContinueInRun(f, before, e, after, k, h.nextTicket, u);
    RunAfter(f, before, e, after);
    if Shown(f, D, h1, u) {
      ShownUntilPushedOut(f, D, h1, after, k, h.nextTicket, u);
    } else {
      assert after[..0] == [] && PushedOut(f, D, Run(f, h1, after[..0]), k, u);
    }
    if EverPushedOut(f, D, h1, after, k, u) {
      var i :| 0 <= i <= |after| && PushedOut(f, D, Run(f, h1, after[..i]), k, u);
      RunAfter(f, before, e, after[..i]);
    }
  }

  lemma RunOfOne(f: Flavour, h: Hook, e: Event)
    ensures Run(f, h, [e]) == Step(f, h, e)
  {
    assert [e][..0] == [];
  }

  lemma LoadedWithin(f: Flavour, es: seq<Event>, k: Scope, D: set<Operation>)
    requires WellFormed(D) && History(f, es, k) <= D
    ensures LoadedOk(f, Run(f, INITIAL, es).loaded, k, D)
  {
    WellFormedSubset(History(f, es, k), D);
    ScopeIsolation(f, es, k);
    var loaded := Run(f, INITIAL, es).loaded;
    if loaded.scope == Some(k) { LaneOkMonotone(f, History(f, es, k), D, loaded.lane, k.pageSize); }
  }

  lemma AppliedInRun(f: Flavour, before: seq<Event>, e: Event, after: seq<Event>, k: Scope, u: Operation)
    requires WellFormed(History(f, before + [e] + after, k))
    requires AppliesUpdate(Run(f, INITIAL, before), e, k, u)
    ensures var D, h := History(f, before + [e] + after, k), Run(f, INITIAL, before);
            Staying(f, D, Step(f, h, e), k, h.nextTicket) &&
            (Shown(f, D, Step(f, h, e), u) || PushedOut(f, D, Step(f, h, e), k, u))
  {
    var all, n := before + [e] + after, |before|;
    var D, h := History(f, all, k), Run(f, INITIAL, before);
    assert all[..n] == before && all[n] == e;
    HistoryContains(f, all, k, n);
    VersionsReachable(f, before);
    LoadedWithin(f, before, k, D);
    UpdateIsApplied(f, D, h, e, k, u);
  }

  // ----- And nothing stale kept -----

  lemma QuietLoadCommits(f: Flavour, h: Hook, t: nat, updates: seq<Operation>, D: set<Operation>)
    requires IsCurrent(h, t) && h.updateVersion == h.loads[t].startedUpdates
    requires WellFormed(D + Elements(updates)) && LoadedOk(f, h.loaded, h.loads[t].scope, D)
    ensures var k := h.loads[t].scope;
            LaneOk(f, Elements(updates) + Elements(BaseLane(h, k, false).pending),
                   ResolveLoad(f, h, t, updates).loaded.lane, k.pageSize)
  {
    var k := h.loads[t].scope;
    var base := BaseLane(h, k, false);
    var E := Elements(updates) + Elements(base.pending);
    assert forall u :: u in base.pending ==> u in D && IsMutation(u);
    WellFormedSubset(E, D + Elements(updates));
    DeliverSafe(f, E, base, updates, k.pageSize);
  }

  /**
   In any reachable state: a load during which no update arrived leaves entries made of what it
   fetched and of the mutations still waiting, and of nothing else.
   */
  lemma QuietLoadReplaces(f: Flavour, es: seq<Event>, t: nat, updates: seq<Operation>)
    requires var h := Run(f, INITIAL, es);
             && IsCurrent(h, t) && h.updateVersion == h.loads[t].startedUpdates
             && WellFormed(History(f, es, h.loads[t].scope) + Elements(updates))
    ensures var h := Run(f, INITIAL, es);
            var k := h.loads[t].scope;
            var lane := Step(f, h, LoadResolved(t, updates)).loaded.lane;
            LaneOk(f, Elements(updates) + Elements(BaseLane(h, k, false).pending), lane, k.pageSize)
  {
    var h := Run(f, INITIAL, es);
    var D := History(f, es, h.loads[t].scope);
    WellFormedSubset(D, D + Elements(updates));
    ScopeIsolation(f, es, h.loads[t].scope);
    QuietLoadCommits(f, h, t, updates, D);
  }
}
