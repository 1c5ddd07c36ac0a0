/**
 The lane hook as a state machine (apps/web/src/groups/useEncryptedGroupLane.ts and
 apps/web/src/chats/useEncryptedDirectMessageV2Lane.ts): loads and deliveries are promises in
 flight, callbacks are atomic steps, and version numbers decide who may still write.
 */
module LaneHook {
  import opened Wrappers
  import opened Projection
  import opened Log
  import opened Listings
  import opened LanePending
  import opened LaneSafety

  type PositivePageSize = n: nat | n >= 1 witness 1

  /** What the request key is made of: a change of any part is a change of scope. */
  datatype Scope = Scope(token: string, conversationId: string, deviceId: string, pageSize: PositivePageSize)

  datatype Status = ReadyState | ErrorState | UnavailableState

  datatype Loaded = Loaded(scope: Option<Scope>, status: Status, lane: Lane)

  /** A load in flight, with what its closure captured when it started. */
  datatype Load = Load(version: nat, startedUpdates: nat, scope: Scope)

  /** A realtime envelope being decrypted for the subscription of a scope. */
  datatype Delivery = Delivery(scope: Scope, cancelled: bool)

  datatype Hook = Hook(active: Option<Scope>, requestVersion: nat, updateVersion: nat, loaded: Loaded,
                       loads: map<nat, Load>, deliveries: map<nat, Delivery>, nextTicket: nat)

  datatype Event =
    | ScopeChanged(next: Option<Scope>)
    | LoadStarted
    | Rebound
    | LoadResolved(ticket: nat, updates: seq<Operation>)
    | LoadRejected(ticket: nat, unavailable: bool)
    | EnvelopeReceived
    | EnvelopeDecrypted(ticket: nat, updates: seq<Operation>)
    | EnvelopeRejected(ticket: nat)
    | LocalEcho(update: Operation)

  const INITIAL: Hook := Hook(None, 0, 0, Loaded(None, ReadyState, Lane([], [])), map[], map[], 0)

  // ----- The callbacks -----

  function Cancelled(deliveries: map<nat, Delivery>): map<nat, Delivery> {
    map t | t in deliveries :: deliveries[t].(cancelled := true)
  }

  function ChangeScope(h: Hook, next: Option<Scope>): Hook {
    if next == h.active then h
    else h.(active := next, requestVersion := h.requestVersion + 1, deliveries := Cancelled(h.deliveries),
            loaded := if h.loaded.scope == h.active then h.loaded.(lane := h.loaded.lane.(pending := []))
                      else h.loaded)
  }

  function StartLoad(h: Hook): Hook {
    if h.active.None? then h
    else h.(requestVersion := h.requestVersion + 1, nextTicket := h.nextTicket + 1,
            loads := h.loads[h.nextTicket := Load(h.requestVersion + 1, h.updateVersion, h.active.value)])
  }

  /** The lane a callback of this scope starts from. */
  function BaseLane(h: Hook, scope: Scope, keepItems: bool): Lane {
    if h.loaded.scope != Some(scope) then Lane([], [])
    else Lane(if keepItems then h.loaded.lane.items else [], h.loaded.lane.pending)
  }

  ghost function Commit(f: Flavour, h: Hook, scope: Scope, keepItems: bool, updates: seq<Operation>): Hook {
    h.(loaded := Loaded(Some(scope), ReadyState, Deliver(f, BaseLane(h, scope, keepItems), updates, scope.pageSize)))
  }

  function Fail(h: Hook, scope: Scope, status: Status): Hook {
    h.(loaded := Loaded(Some(scope), status, BaseLane(h, scope, true)))
  }

  predicate IsCurrent(h: Hook, t: nat) {
    t in h.loads && h.loads[t].version == h.requestVersion
  }

  ghost function ResolveLoad(f: Flavour, h: Hook, t: nat, updates: seq<Operation>): Hook {
    if t !in h.loads then h
    else
      var settled := h.(loads := h.loads - {t});
      if IsCurrent(h, t) then
        Commit(f, settled, h.loads[t].scope, h.updateVersion != h.loads[t].startedUpdates, updates)
      else settled
  }

  function RejectLoad(h: Hook, t: nat, unavailable: bool): Hook {
    if t !in h.loads then h
    else
      var settled := h.(loads := h.loads - {t});
      if IsCurrent(h, t) then Fail(settled, h.loads[t].scope, if unavailable then UnavailableState else ErrorState)
      else settled
  }

  function ReceiveEnvelope(h: Hook): Hook {
    if h.active.None? then h
    else h.(nextTicket := h.nextTicket + 1, deliveries := h.deliveries[h.nextTicket := Delivery(h.active.value, false)])
  }

  ghost function DecryptEnvelope(f: Flavour, h: Hook, t: nat, updates: seq<Operation>): Hook {
    if t !in h.deliveries then h
    else
      var settled := h.(deliveries := h.deliveries - {t});
      if h.deliveries[t].cancelled then settled
      else Commit(f, settled.(updateVersion := h.updateVersion + 1), h.deliveries[t].scope, true, updates)
  }

  function RejectEnvelope(h: Hook, t: nat): Hook {
    if t !in h.deliveries then h
    else
      var settled := h.(deliveries := h.deliveries - {t});
      if h.deliveries[t].cancelled then settled else Fail(settled, h.deliveries[t].scope, ErrorState)
  }

  ghost function EchoLocally(f: Flavour, h: Hook, update: Operation): Hook {
    if h.active.None? then h
    else Commit(f, h.(updateVersion := h.updateVersion + 1), h.active.value, true, [update])
  }

  ghost function Step(f: Flavour, h: Hook, e: Event): Hook {
    match e
    case ScopeChanged(next) => ChangeScope(h, next)
    case LoadStarted => if h.loaded.scope == h.active then h else StartLoad(h)
    case Rebound => StartLoad(h)
    case LoadResolved(t, updates) => ResolveLoad(f, h, t, updates)
    case LoadRejected(t, unavailable) => RejectLoad(h, t, unavailable)
    case EnvelopeReceived => ReceiveEnvelope(h)
    case EnvelopeDecrypted(t, updates) => DecryptEnvelope(f, h, t, updates)
    case EnvelopeRejected(t) => RejectEnvelope(h, t)
    case LocalEcho(update) => EchoLocally(f, h, update)
  }

  ghost function Run(f: Flavour, h: Hook, es: seq<Event>): Hook {
    if es == [] then h else Step(f, Run(f, h, es[..|es| - 1]), es[|es| - 1])
  }

  // ----- What every reachable state keeps -----

  ghost predicate VersionsOk(h: Hook) {
    && (forall t :: t in h.loads ==> t < h.nextTicket && h.loads[t].version <= h.requestVersion
                                     && h.loads[t].startedUpdates <= h.updateVersion)
    && (forall s, t :: s in h.loads && t in h.loads && s != t ==> h.loads[s].version != h.loads[t].version)
    && (forall t :: t in h.loads && h.loads[t].version == h.requestVersion ==> h.active == Some(h.loads[t].scope))
    && (forall t :: t in h.deliveries ==> t < h.nextTicket)
    && (forall t :: t in h.deliveries && !h.deliveries[t].cancelled ==> h.active == Some(h.deliveries[t].scope))
    && (h.loaded.scope != h.active ==> h.loaded.lane.pending == [])
  }

  lemma VersionsChangeScope(h: Hook, next: Option<Scope>)
    requires VersionsOk(h)
    ensures VersionsOk(ChangeScope(h, next))
  {}

  lemma VersionsStartLoad(h: Hook)
    requires VersionsOk(h)
    ensures VersionsOk(StartLoad(h)) && VersionsOk(ReceiveEnvelope(h))
  {}

  lemma VersionsSettle(h: Hook, t: nat)
    requires VersionsOk(h)
    ensures VersionsOk(h.(loads := h.loads - {t})) && VersionsOk(h.(deliveries := h.deliveries - {t}))
    ensures VersionsOk(h.(updateVersion := h.updateVersion + 1))
  {}

  lemma VersionsWrite(f: Flavour, h: Hook, scope: Scope, keepItems: bool, updates: seq<Operation>, status: Status)
    requires VersionsOk(h) && h.active == Some(scope)
    ensures VersionsOk(Commit(f, h, scope, keepItems, updates)) && VersionsOk(Fail(h, scope, status))
  {}

  lemma VersionsResolve(f: Flavour, h: Hook, t: nat, updates: seq<Operation>)
    requires VersionsOk(h)
    ensures VersionsOk(ResolveLoad(f, h, t, updates))
  {
    VersionsSettle(h, t);
    if IsCurrent(h, t) {
      VersionsWrite(f, h.(loads := h.loads - {t}), h.loads[t].scope, h.updateVersion != h.loads[t].startedUpdates,
                    updates, ReadyState);
    }
  }

  lemma VersionsReject(f: Flavour, h: Hook, t: nat, unavailable: bool)
    requires VersionsOk(h)
    ensures VersionsOk(RejectLoad(h, t, unavailable)) && VersionsOk(RejectEnvelope(h, t))
  {
    VersionsSettle(h, t);
    if IsCurrent(h, t) {
      VersionsWrite(f, h.(loads := h.loads - {t}), h.loads[t].scope, true, [],
                    if unavailable then UnavailableState else ErrorState);
    }
    if t in h.deliveries && !h.deliveries[t].cancelled {
      VersionsWrite(f, h.(deliveries := h.deliveries - {t}), h.deliveries[t].scope, true, [], ErrorState);
    }
  }

  lemma VersionsDecrypt(f: Flavour, h: Hook, t: nat, updates: seq<Operation>)
    requires VersionsOk(h)
    ensures VersionsOk(DecryptEnvelope(f, h, t, updates))
  {
    VersionsSettle(h, t);
    var settled := h.(deliveries := h.deliveries - {t});
    VersionsSettle(settled, t);
    if t in h.deliveries && !h.deliveries[t].cancelled {
      var bumped := settled.(updateVersion := h.updateVersion + 1);
      VersionsWrite(f, bumped, h.deliveries[t].scope, true, updates, ReadyState);
    }
  }

  lemma VersionsEcho(f: Flavour, h: Hook, update: Operation)
    requires VersionsOk(h)
    ensures VersionsOk(EchoLocally(f, h, update))
  {
    VersionsSettle(h, 0);
    if h.active.Some? {
      VersionsWrite(f, h.(updateVersion := h.updateVersion + 1), h.active.value, true, [update], ReadyState);
    }
  }

  lemma VersionsStep(f: Flavour, h: Hook, e: Event)
    requires VersionsOk(h)
    ensures VersionsOk(Step(f, h, e))
  {
    match e
    case ScopeChanged(next) => VersionsChangeScope(h, next);
    case LoadResolved(t, updates) => VersionsResolve(f, h, t, updates);
    case LoadRejected(t, unavailable) => VersionsReject(f, h, t, unavailable);
    case EnvelopeDecrypted(t, updates) => VersionsDecrypt(f, h, t, updates);
    case EnvelopeRejected(t) => VersionsReject(f, h, t, true);
    case LocalEcho(update) => VersionsEcho(f, h, update);
    case LoadStarted => VersionsStartLoad(h);
    case Rebound => VersionsStartLoad(h);
    case EnvelopeReceived => VersionsStartLoad(h);
  }

  lemma {:induction false} VersionsReachable(f: Flavour, es: seq<Event>)
    ensures VersionsOk(Run(f, INITIAL, es))
  {
    if es != [] {
      VersionsReachable(f, es[..|es| - 1]);
      VersionsStep(f, Run(f, INITIAL, es[..|es| - 1]), es[|es| - 1]);
    }
  }

  // ----- Who may commit -----

  /** The load was started and can never write again: settled or overtaken. */
  ghost predicate Dead(h: Hook, t: nat) {
    t < h.nextTicket && (t in h.loads ==> h.loads[t].version < h.requestVersion)
  }

  lemma DeadStaysDead(f: Flavour, h: Hook, e: Event, t: nat)
    requires Dead(h, t)
    ensures Dead(Step(f, h, e), t)
  {}

  lemma DeadDoesNotWrite(f: Flavour, h: Hook, t: nat, updates: seq<Operation>, unavailable: bool)
    requires Dead(h, t)
    ensures ResolveLoad(f, h, t, updates).loaded == h.loaded
    ensures RejectLoad(h, t, unavailable).loaded == h.loaded
  {}

  /** The event settles load t, starts a newer one, or leaves the scope. */
  predicate Kills(h: Hook, e: Event, t: nat) {
    match e
    case LoadResolved(u, _) => t == u
    case LoadRejected(u, _) => t == u
    case Rebound => h.active.Some?
    case LoadStarted => h.active.Some? && h.loaded.scope != h.active
    case ScopeChanged(next) => next != h.active
    case _ => false
  }

  lemma KilledIsDead(f: Flavour, h: Hook, e: Event, t: nat)
    requires VersionsOk(h) && t < h.nextTicket && Kills(h, e, t)
    ensures Dead(Step(f, h, e), t)
  {}

  predicate SettlesLoad(e: Event, t: nat) {
    (e.LoadResolved? || e.LoadRejected?) && e.ticket == t
  }

  /** A load that settled, was overtaken or lost its scope never writes again, in any continuation. */
  lemma {:induction false} DeadLoadsNeverCommit(f: Flavour, h: Hook, es: seq<Event>, t: nat)
    requires Dead(h, t)
    ensures Dead(Run(f, h, es), t)
    ensures forall i :: 0 <= i < |es| && SettlesLoad(es[i], t) ==>
              Step(f, Run(f, h, es[..i]), es[i]).loaded == Run(f, h, es[..i]).loaded
  {
    if es != [] {
      var front, e := es[..|es| - 1], es[|es| - 1];
      DeadLoadsNeverCommit(f, h, front, t);
      DeadStaysDead(f, Run(f, h, front), e, t);
      forall i | 0 <= i < |es| && SettlesLoad(es[i], t)
        ensures Step(f, Run(f, h, es[..i]), es[i]).loaded == Run(f, h, es[..i]).loaded
      {
        if i < |front| {
          assert front[..i] == es[..i] && front[i] == es[i];
        } else {
          assert es[..i] == front;
          DeadDoesNotWrite(f, Run(f, h, front), t, if e.LoadResolved? then e.updates else [], true);
          DeadDoesNotWrite(f, Run(f, h, front), t, [], false);
        }
      }
    }
  }

  /** In every reachable state only the load of the newest request may write, and only to the open scope. */
  lemma OnlyNewestMayCommit(f: Flavour, es: seq<Event>, e: Event)
    requires e.LoadResolved? || e.LoadRejected?
    requires Step(f, Run(f, INITIAL, es), e).loaded != Run(f, INITIAL, es).loaded
    ensures var h := Run(f, INITIAL, es);
            && IsCurrent(h, e.ticket) && h.active == Some(h.loads[e.ticket].scope)
            && (forall t :: t in h.loads && t != e.ticket ==> h.loads[t].version < h.loads[e.ticket].version)
            && Step(f, h, e).loaded.scope == h.active
  {
    var h := Run(f, INITIAL, es);
    VersionsReachable(f, es);
    assert e.ticket in h.loads;
  }

  // ----- Scope isolation -----

  /** The operations that event e hands to scope k in state h. */
  ghost function OperationsFor(h: Hook, e: Event, k: Scope): set<Operation> {
    match e
    case LoadResolved(t, updates) => if t in h.loads && h.loads[t].scope == k then Elements(updates) else {}
    case EnvelopeDecrypted(t, updates) =>
      if t in h.deliveries && h.deliveries[t].scope == k then Elements(updates) else {}
    case LocalEcho(update) => if h.active == Some(k) then {update} else {}
    case _ => {}
  }

  /** Everything ever delivered to scope k. */
  ghost function History(f: Flavour, es: seq<Event>, k: Scope): set<Operation> {
    if es == [] then {}
    else History(f, es[..|es| - 1], k) + OperationsFor(Run(f, INITIAL, es[..|es| - 1]), es[|es| - 1], k)
  }

  ghost predicate LoadedOk(f: Flavour, loaded: Loaded, k: Scope, D: set<Operation>) {
    loaded.scope == Some(k) ==> LaneOk(f, D, loaded.lane, k.pageSize)
  }

  lemma CommitOk(f: Flavour, h: Hook, k: Scope, keepItems: bool, updates: seq<Operation>, D: set<Operation>)
    requires WellFormed(D) && Elements(updates) <= D && LoadedOk(f, h.loaded, k, D)
    ensures LoadedOk(f, Commit(f, h, k, keepItems, updates).loaded, k, D)
  {
    if h.loaded.scope == Some(k) {
      PartOfLaneReady(f, D, h.loaded.lane, k.pageSize, keepItems, true);
    }
    DeliverSafe(f, D, BaseLane(h, k, keepItems), updates, k.pageSize);
  }

  lemma FailOk(f: Flavour, h: Hook, k: Scope, status: Status, D: set<Operation>)
    requires LoadedOk(f, h.loaded, k, D)
    ensures LoadedOk(f, Fail(h, k, status).loaded, k, D)
  {}

  lemma StepIsolated(f: Flavour, h: Hook, e: Event, k: Scope, D: set<Operation>)
    requires WellFormed(D) && OperationsFor(h, e, k) <= D && LoadedOk(f, h.loaded, k, D)
    ensures LoadedOk(f, Step(f, h, e).loaded, k, D)
  {
    match e
    case ScopeChanged(_) =>
      if h.loaded.scope == Some(k) { PartOfLaneReady(f, D, h.loaded.lane, k.pageSize, true, true); }
    case LoadResolved(t, updates) =>
      if t in h.loads && h.loads[t].scope == k {
        CommitOk(f, h.(loads := h.loads - {t}), k, h.updateVersion != h.loads[t].startedUpdates, updates, D);
      }
    case EnvelopeDecrypted(t, updates) =>
      if t in h.deliveries && h.deliveries[t].scope == k {
        CommitOk(f, h.(deliveries := h.deliveries - {t}, updateVersion := h.updateVersion + 1), k, true, updates, D);
      }
    case LocalEcho(update) =>
      if h.active == Some(k) {
        assert Elements([update]) == {update};
        CommitOk(f, h.(updateVersion := h.updateVersion + 1), k, true, [update], D);
      }
    case LoadRejected(t, _) =>
      if t in h.loads && h.loads[t].scope == k { FailOk(f, h.(loads := h.loads - {t}), k, ErrorState, D); }
    case EnvelopeRejected(t) =>
      if t in h.deliveries && h.deliveries[t].scope == k {
        FailOk(f, h.(deliveries := h.deliveries - {t}), k, ErrorState, D);
      }
    case _ =>
  }

  /**
   In every reachable state, across scope changes, rebinds, late loads and errors: what is stored
   under a request key was made from operations delivered to that scope alone, and its pending
   mutations are visibly waiting ones, sorted, within bounds, with no visible target.
   */
  lemma {:induction false} ScopeIsolation(f: Flavour, es: seq<Event>, k: Scope)
    requires WellFormed(History(f, es, k))
    ensures LoadedOk(f, Run(f, INITIAL, es).loaded, k, History(f, es, k))
  {
    if es != [] {
      var front, e := es[..|es| - 1], es[|es| - 1];
      var D := History(f, es, k);
      WellFormedSubset(History(f, front, k), D);
      ScopeIsolation(f, front, k);
      var h := Run(f, INITIAL, front);
      if h.loaded.scope == Some(k) {
        LaneOkMonotone(f, History(f, front, k), D, h.loaded.lane, k.pageSize);
      }
      StepIsolated(f, h, e, k, D);
    }
  }
}
