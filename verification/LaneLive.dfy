/**
 Loads and deliveries do their work: what a load fetches and what an envelope brings appears, as
 long as nothing took the right to write away in between; whether a load replaces or merges is
 decided by what happened while it ran; and the status tells how the last write ended.
 */
module LaneLive {
  import opened Wrappers
  import opened Projection
  import opened Log
  import opened Listings
  import opened LaneSafety
  import opened LaneHook
  import opened LaneNoLoss

  // ----- A load keeps the right to write until something takes it -----

  /** The event starts a load of the open scope: another is loaded, or a rebind asks for it. */
  predicate StartsLoad(h: Hook, e: Event) {
    h.active.Some? && (e.Rebound? || (e.LoadStarted? && h.loaded.scope != h.active))
  }

  ghost predicate NothingKills(f: Flavour, h: Hook, es: seq<Event>, t: nat) {
    forall i :: 0 <= i < |es| ==> !Kills(Run(f, h, es[..i]), es[i], t)
  }

  lemma NothingKillsFront(f: Flavour, h: Hook, es: seq<Event>, t: nat)
    requires es != [] && NothingKills(f, h, es, t)
    ensures NothingKills(f, h, es[..|es| - 1], t) && !Kills(Run(f, h, es[..|es| - 1]), es[|es| - 1], t)
  {
    var front := es[..|es| - 1];
    assert forall i :: 0 <= i < |front| ==> front[..i] == es[..i] && front[i] == es[i];
  }

  lemma StartedIsCurrent(f: Flavour, h: Hook, e: Event)
    requires StartsLoad(h, e)
    ensures var next := Step(f, h, e);
            && IsCurrent(next, h.nextTicket) && next.loads[h.nextTicket].scope == h.active.value
            && next.loads[h.nextTicket].startedUpdates == next.updateVersion && next.active == h.active
  {}

  lemma ChargeKept(f: Flavour, h: Hook, e: Event, t: nat)
    requires VersionsOk(h) && IsCurrent(h, t) && !Kills(h, e, t)
    ensures IsCurrent(Step(f, h, e), t) && Step(f, h, e).loads[t] == h.loads[t] && Step(f, h, e).active == h.active
  {}

  lemma {:induction false} ChargeKeptInRun(f: Flavour, h: Hook, es: seq<Event>, t: nat)
    requires VersionsOk(h) && IsCurrent(h, t) && NothingKills(f, h, es, t)
    ensures VersionsOk(Run(f, h, es)) && IsCurrent(Run(f, h, es), t)
    ensures Run(f, h, es).loads[t] == h.loads[t] && Run(f, h, es).active == h.active
  {
    if es != [] {
      NothingKillsFront(f, h, es, t);
      ChargeKeptInRun(f, h, es[..|es| - 1], t);
      ChargeKept(f, Run(f, h, es[..|es| - 1]), es[|es| - 1], t);
      VersionsStep(f, Run(f, h, es[..|es| - 1]), es[|es| - 1]);
    }
  }

  // ----- Whether it was disturbed -----

  /** The event applies an update: an envelope decrypted in time or an echo into an open scope. */
  predicate Disturbs(h: Hook, e: Event) {
    Writes(h, e) && (e.EnvelopeDecrypted? || e.LocalEcho?)
  }

  /** Some event of the run does. */
  ghost predicate Disturbed(f: Flavour, h: Hook, es: seq<Event>) {
    es != [] && (Disturbed(f, h, es[..|es| - 1]) || Disturbs(Run(f, h, es[..|es| - 1]), es[|es| - 1]))
  }

  lemma VersionCountsUpdates(f: Flavour, h: Hook, e: Event)
    ensures Step(f, h, e).updateVersion == h.updateVersion + if Disturbs(h, e) then 1 else 0
  {}

  lemma {:induction false} DisturbedExactly(f: Flavour, h: Hook, es: seq<Event>)
    ensures Run(f, h, es).updateVersion >= h.updateVersion
    ensures Run(f, h, es).updateVersion != h.updateVersion <==> Disturbed(f, h, es)
  {
    if es != [] {
      var front, e := es[..|es| - 1], es[|es| - 1];
      DisturbedExactly(f, h, front);
      VersionCountsUpdates(f, Run(f, h, front), e);
    }
  }

  // ----- What a load does -----

  /** From a reachable state the load of scope k starts, runs while `during` happens, and may still write. */
  ghost predicate RunsLoad(f: Flavour, before: seq<Event>, start: Event, during: seq<Event>, k: Scope) {
    var h := Run(f, INITIAL, before);
    StartsLoad(h, start) && h.active == Some(k) && NothingKills(f, Step(f, h, start), during, h.nextTicket)
  }

  lemma LoadInCharge(f: Flavour, before: seq<Event>, start: Event, during: seq<Event>, k: Scope)
    requires RunsLoad(f, before, start, during, k)
    ensures var h := Run(f, INITIAL, before); var h2 := Run(f, INITIAL, before + [start] + during);
            && VersionsOk(h2) && IsCurrent(h2, h.nextTicket) && h2.active == Some(k)
            && h2.loads[h.nextTicket].scope == k
            && (h2.updateVersion != h2.loads[h.nextTicket].startedUpdates <==>
                Disturbed(f, Step(f, h, start), during))
  {
    var h := Run(f, INITIAL, before);
    VersionsReachable(f, before);
    VersionsStep(f, h, start);
    StartedIsCurrent(f, h, start);
    ChargeKeptInRun(f, Step(f, h, start), during, h.nextTicket);
    DisturbedExactly(f, Step(f, h, start), during);
    RunAfter(f, before, start, during);
  }

  /**
   What a load fetched is on the timeline when it resolves, whatever happened while it ran, unless
   a full window of newer entries is.
   */
  lemma FetchedIsShown(f: Flavour, before: seq<Event>, start: Event, during: seq<Event>, updates: seq<Operation>,
                       k: Scope, u: Operation)
    requires RunsLoad(f, before, start, during, k) && u in updates
    requires var end := LoadResolved(Run(f, INITIAL, before).nextTicket, updates);
             WellFormed(History(f, before + [start] + during + [end] + [], k))
    ensures var end := LoadResolved(Run(f, INITIAL, before).nextTicket, updates);
            var es := before + [start] + during;
            var D, last := History(f, es + [end] + [], k), Step(f, Run(f, INITIAL, es), end);
            last.loaded.scope == Some(k) && (Shown(f, D, last, u) || PushedOut(f, D, last, k, u))
  {
    LoadInCharge(f, before, start, during, k);
    var end := LoadResolved(Run(f, INITIAL, before).nextTicket, updates);
    AppliedInRun(f, before + [start] + during, end, [], k, u);
  }

  /** A load during which nothing was applied replaces what was there. */
  lemma UndisturbedLoadReplaces(f: Flavour, before: seq<Event>, start: Event, during: seq<Event>,
                                updates: seq<Operation>, k: Scope)
    requires RunsLoad(f, before, start, during, k) && !Disturbed(f, Step(f, Run(f, INITIAL, before), start), during)
    requires WellFormed(History(f, before + [start] + during, k) + Elements(updates))
    ensures var h := Run(f, INITIAL, before + [start] + during);
            var next := Step(f, h, LoadResolved(Run(f, INITIAL, before).nextTicket, updates));
            LaneOk(f, Elements(updates) + Elements(BaseLane(h, k, false).pending), next.loaded.lane, k.pageSize)
  {
    LoadInCharge(f, before, start, during, k);
    QuietLoadReplaces(f, before + [start] + during, Run(f, INITIAL, before).nextTicket, updates);
  }

  /** A load during which something was applied merges: what was there stays, however old. */
  lemma DisturbedLoadMerges(f: Flavour, before: seq<Event>, start: Event, during: seq<Event>,
                            updates: seq<Operation>, k: Scope, u: Operation, D: set<Operation>)
    requires RunsLoad(f, before, start, during, k) && Disturbed(f, Step(f, Run(f, INITIAL, before), start), during)
    requires WellFormed(D) && History(f, before + [start] + during, k) + Elements(updates) <= D
    requires var h := Run(f, INITIAL, before + [start] + during); h.loaded.scope == Some(k) && Shown(f, D, h, u)
    ensures var end := LoadResolved(Run(f, INITIAL, before).nextTicket, updates);
            var next := Step(f, Run(f, INITIAL, before + [start] + during), end);
            Shown(f, D, next, u) || PushedOut(f, D, next, k, u)
  {
    var es, t := before + [start] + during, Run(f, INITIAL, before).nextTicket;
    LoadInCharge(f, before, start, during, k);
    LoadedWithin(f, es, k, D);
    MergedKeepsShown(f, D, Run(f, INITIAL, es), t, updates, k, u);
    ResolvedByStep(f, Run(f, INITIAL, es), t, updates);
  }

  lemma ResolvedByStep(f: Flavour, h: Hook, t: nat, updates: seq<Operation>)
    ensures Step(f, h, LoadResolved(t, updates)) == ResolveLoad(f, h, t, updates)
  {}

  // ----- What a delivery does -----

  /** The event leaves the scope or settles the delivery. */
  predicate Drops(h: Hook, e: Event, t: nat) {
    (e.ScopeChanged? && e.next != h.active) || ((e.EnvelopeDecrypted? || e.EnvelopeRejected?) && e.ticket == t)
  }

  ghost predicate NothingDrops(f: Flavour, h: Hook, es: seq<Event>, t: nat) {
    forall i :: 0 <= i < |es| ==> !Drops(Run(f, h, es[..i]), es[i], t)
  }

  lemma NothingDropsFront(f: Flavour, h: Hook, es: seq<Event>, t: nat)
    requires es != [] && NothingDrops(f, h, es, t)
    ensures NothingDrops(f, h, es[..|es| - 1], t) && !Drops(Run(f, h, es[..|es| - 1]), es[|es| - 1], t)
  {
    var front := es[..|es| - 1];
    assert forall i :: 0 <= i < |front| ==> front[..i] == es[..i] && front[i] == es[i];
  }

  lemma DeliveryKept(f: Flavour, h: Hook, e: Event, t: nat)
    requires VersionsOk(h) && t in h.deliveries && !Drops(h, e, t)
    ensures t in Step(f, h, e).deliveries && Step(f, h, e).deliveries[t] == h.deliveries[t]
    ensures Step(f, h, e).active == h.active
  {}

  lemma {:induction false} DeliveryKeptInRun(f: Flavour, h: Hook, es: seq<Event>, t: nat)
    requires VersionsOk(h) && t in h.deliveries && NothingDrops(f, h, es, t)
    ensures t in Run(f, h, es).deliveries && Run(f, h, es).deliveries[t] == h.deliveries[t]
    ensures VersionsOk(Run(f, h, es)) && Run(f, h, es).active == h.active
  {
    if es != [] {
      NothingDropsFront(f, h, es, t);
      DeliveryKeptInRun(f, h, es[..|es| - 1], t);
      DeliveryKept(f, Run(f, h, es[..|es| - 1]), es[|es| - 1], t);
      VersionsStep(f, Run(f, h, es[..|es| - 1]), es[|es| - 1]);
    }
  }

  /** A realtime envelope received in a scope appears when it is decrypted, if the scope was not left. */
  lemma EnvelopeIsShown(f: Flavour, before: seq<Event>, during: seq<Event>, updates: seq<Operation>, k: Scope,
                        u: Operation)
    requires Run(f, INITIAL, before).active == Some(k) && u in updates
    requires var h := Run(f, INITIAL, before); NothingDrops(f, Step(f, h, EnvelopeReceived), during, h.nextTicket)
    requires var end := EnvelopeDecrypted(Run(f, INITIAL, before).nextTicket, updates);
             WellFormed(History(f, before + [EnvelopeReceived] + during + [end] + [], k))
    ensures var end := EnvelopeDecrypted(Run(f, INITIAL, before).nextTicket, updates);
            var es := before + [EnvelopeReceived] + during;
            var D, last := History(f, es + [end] + [], k), Step(f, Run(f, INITIAL, es), end);
            last.loaded.scope == Some(k) && (Shown(f, D, last, u) || PushedOut(f, D, last, k, u))
  {
    var h := Run(f, INITIAL, before);
    var end := EnvelopeDecrypted(h.nextTicket, updates);
    VersionsReachable(f, before);
    VersionsStep(f, h, EnvelopeReceived);
    DeliveryKeptInRun(f, Step(f, h, EnvelopeReceived), during, h.nextTicket);
    RunAfter(f, before, EnvelopeReceived, during);
    AppliedInRun(f, before + [EnvelopeReceived] + during, end, [], k, u);
  }

  // ----- What waits is replayed -----

  function UpdatesOf(e: Event): seq<Operation> {
    match e
    case LoadResolved(_, updates) => updates
    case EnvelopeDecrypted(_, updates) => updates
    case LocalEcho(update) => [update]
    case _ => []
  }

  lemma CommitReplays(f: Flavour, D: set<Operation>, h: Hook, k: Scope, keepItems: bool, updates: seq<Operation>,
                      u: Operation)
    requires WellFormed(D) && Elements(updates) <= D && LoadedOk(f, h.loaded, k, D) && h.loaded.scope == Some(k)
    requires u in h.loaded.lane.pending && IsMutation(u) && HasContent(Elements(updates), TargetId(u))
    ensures var next := Commit(f, h, k, keepItems, updates);
            FailureEntry(u) !in next.loaded.lane.items && (Shown(f, D, next, u) || PushedOut(f, D, next, k, u))
  {
    PartOfLaneReady(f, D, h.loaded.lane, k.pageSize, keepItems, true);
    ReplayedIsApplied(f, D, BaseLane(h, k, keepItems), updates, k.pageSize, u);
  }

  lemma StepReplays(f: Flavour, D: set<Operation>, h: Hook, e: Event, k: Scope, u: Operation)
    requires WellFormed(D) && Elements(UpdatesOf(e)) <= D && VersionsOk(h) && LoadedOk(f, h.loaded, k, D)
    requires Writes(h, e) && h.active == Some(k) && h.loaded.scope == Some(k)
    requires u in h.loaded.lane.pending && IsMutation(u) && HasContent(Elements(UpdatesOf(e)), TargetId(u))
    ensures var next := Step(f, h, e);
            FailureEntry(u) !in next.loaded.lane.items && (Shown(f, D, next, u) || PushedOut(f, D, next, k, u))
  {
    match e
    case LoadResolved(t, updates) =>
      CommitReplays(f, D, h.(loads := h.loads - {t}), k, h.updateVersion != h.loads[t].startedUpdates, updates, u);
    case EnvelopeDecrypted(t, updates) =>
      var bumped := h.(deliveries := h.deliveries - {t}, updateVersion := h.updateVersion + 1);
      CommitReplays(f, D, bumped, k, true, updates, u);
    case LocalEcho(update) =>
      CommitReplays(f, D, h.(updateVersion := h.updateVersion + 1), k, true, [update], u);
  }

  /**
   In any reachable state: a mutation remembered for the open scope is applied by whatever brings its
   message, a load, an envelope or an echo, a replacing load too, and no longer shown as unresolved.
   */
  lemma WaitingIsApplied(f: Flavour, before: seq<Event>, e: Event, k: Scope, u: Operation, D: set<Operation>)
    requires WellFormed(D) && History(f, before, k) + Elements(UpdatesOf(e)) <= D
    requires var h := Run(f, INITIAL, before);
             Writes(h, e) && h.active == Some(k) && h.loaded.scope == Some(k) && u in h.loaded.lane.pending
    requires u.Ready? && HasContent(Elements(UpdatesOf(e)), TargetId(u))
    ensures var next := Step(f, Run(f, INITIAL, before), e);
            FailureEntry(u) !in next.loaded.lane.items && (Shown(f, D, next, u) || PushedOut(f, D, next, k, u))
  {
    VersionsReachable(f, before);
    LoadedWithin(f, before, k, D);
    StepReplays(f, D, Run(f, INITIAL, before), e, k, u);
  }

  // ----- What the status tells -----

  function EndedWith(e: Event): Status {
    if e.LoadRejected? && e.unavailable then UnavailableState
    else if e.LoadRejected? || e.EnvelopeRejected? then ErrorState
    else ReadyState
  }

  lemma WriteSetsStatus(f: Flavour, h: Hook, e: Event)
    requires VersionsOk(h) && Writes(h, e)
    ensures Step(f, h, e).loaded.status == EndedWith(e) && Step(f, h, e).loaded.scope == h.active
  {}

  lemma OnlyWritesChange(f: Flavour, h: Hook, e: Event)
    requires !Writes(h, e)
    ensures var next := Step(f, h, e).loaded;
            next.status == h.loaded.status && next.scope == h.loaded.scope && next.lane.items == h.loaded.lane.items
  {}

  ghost predicate NothingWrites(f: Flavour, h: Hook, es: seq<Event>) {
    forall i :: 0 <= i < |es| ==> !Writes(Run(f, h, es[..i]), es[i])
  }

  lemma NothingWritesFront(f: Flavour, h: Hook, es: seq<Event>)
    requires es != [] && NothingWrites(f, h, es)
    ensures NothingWrites(f, h, es[..|es| - 1]) && !Writes(Run(f, h, es[..|es| - 1]), es[|es| - 1])
  {
    var front := es[..|es| - 1];
    assert forall i :: 0 <= i < |front| ==> front[..i] == es[..i] && front[i] == es[i];
  }

  lemma {:induction false} UnwrittenStays(f: Flavour, h: Hook, es: seq<Event>)
    requires NothingWrites(f, h, es)
    ensures var last := Run(f, h, es).loaded;
            last.status == h.loaded.status && last.scope == h.loaded.scope && last.lane.items == h.loaded.lane.items
  {
    if es != [] {
      NothingWritesFront(f, h, es);
      UnwrittenStays(f, h, es[..|es| - 1]);
      OnlyWritesChange(f, Run(f, h, es[..|es| - 1]), es[|es| - 1]);
    }
  }

  /** Status, scope and entries are what the last write left, however often the scope changed since. */
  lemma StatusTellsLastWrite(f: Flavour, before: seq<Event>, e: Event, after: seq<Event>)
    requires Writes(Run(f, INITIAL, before), e) && NothingWrites(f, Step(f, Run(f, INITIAL, before), e), after)
    ensures var h, last := Run(f, INITIAL, before), Run(f, INITIAL, before + [e] + after).loaded;
            && last.status == EndedWith(e) && last.scope == h.active
            && last.lane.items == Step(f, h, e).loaded.lane.items
  {
    VersionsReachable(f, before);
    WriteSetsStatus(f, Run(f, INITIAL, before), e);
    UnwrittenStays(f, Step(f, Run(f, INITIAL, before), e), after);
    RunAfter(f, before, e, after);
  }
}
