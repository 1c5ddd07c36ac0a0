/**
 The hook's callbacks as they run: refs and state fields assigned in place, each proved to make
 the transition the state machine prescribes.
 */
module LaneCallbacks {
  import opened Wrappers
  import opened Projection
  import opened LanePending
  import opened LaneHook

  class EncryptedLane {
    const flavour: Flavour
    var active: Option<Scope>
    var requestVersion: nat
    var updateVersion: nat
    var loaded: Loaded
    var loads: map<nat, Load>
    var deliveries: map<nat, Delivery>
    var nextTicket: nat

    constructor (f: Flavour)
      ensures flavour == f && State() == INITIAL
    {
      flavour := f;
      active := None;
      requestVersion, updateVersion, nextTicket := 0, 0, 0;
      loaded := Loaded(None, ReadyState, Lane([], []));
      loads, deliveries := map[], map[];
    }

    ghost function State(): Hook
      reads this
    {
      Hook(active, requestVersion, updateVersion, loaded, loads, deliveries, nextTicket)
    }

    /** The cleanup of the old scope's effects, then the render with the new one. */
    method OnScopeChanged(next: Option<Scope>)
      modifies this
      ensures State() == ChangeScope(old(State()), next)
    {
      if next == active { return; }
      requestVersion := requestVersion + 1;
      if loaded.scope == active {
        loaded := loaded.(lane := loaded.lane.(pending := []));
      }
      deliveries := Cancelled(deliveries);
      active := next;
    }

    /** The effect that loads a scope, and the rebind subscription that loads it again. */
    method BeginLoad() returns (ticket: nat)
      requires active.Some?
      modifies this
      ensures State() == StartLoad(old(State())) && ticket == old(nextTicket)
    {
      requestVersion := requestVersion + 1;
      ticket := nextTicket;
      loads := loads[ticket := Load(requestVersion, updateVersion, active.value)];
      nextTicket := nextTicket + 1;
    }

    method Merge(scope: Scope, base: Lane, updates: seq<Operation>) returns (lane: Lane)
      ensures lane == Deliver(flavour, base, updates, scope.pageSize)
    {
      assert (scope.pageSize as real).Floor == scope.pageSize;
      lane := MergeEncryptedLaneWithPending(flavour, base, updates, Finite(scope.pageSize as real));
    }

    method OnLoadResolved(ticket: nat, updates: seq<Operation>)
      modifies this
      ensures State() == ResolveLoad(flavour, old(State()), ticket, updates)
    {
      if ticket !in loads { return; }
      var load := loads[ticket];
      loads := loads - {ticket};
      if requestVersion != load.version { return; }
      var hasConcurrentUpdates := updateVersion != load.startedUpdates;
      var sameScope := loaded.scope == Some(load.scope);
      var base := Lane(if sameScope && hasConcurrentUpdates then loaded.lane.items else [],
                       if sameScope then loaded.lane.pending else []);
      var lane := Merge(load.scope, base, updates);
      loaded := Loaded(Some(load.scope), ReadyState, lane);
    }

    method OnLoadRejected(ticket: nat, unavailable: bool)
      modifies this
      ensures State() == RejectLoad(old(State()), ticket, unavailable)
    {
      if ticket !in loads { return; }
      var load := loads[ticket];
      loads := loads - {ticket};
      if requestVersion != load.version { return; }
      var lane := if loaded.scope == Some(load.scope) then loaded.lane else Lane([], []);
      loaded := Loaded(Some(load.scope), if unavailable then UnavailableState else ErrorState, lane);
    }

    method OnEnvelopeReceived() returns (ticket: nat)
      requires active.Some?
      modifies this
      ensures State() == ReceiveEnvelope(old(State())) && ticket == old(nextTicket)
    {
      ticket := nextTicket;
      deliveries := deliveries[ticket := Delivery(active.value, false)];
      nextTicket := nextTicket + 1;
    }

    method OnEnvelopeDecrypted(ticket: nat, updates: seq<Operation>)
      modifies this
      ensures State() == DecryptEnvelope(flavour, old(State()), ticket, updates)
    {
      if ticket !in deliveries { return; }
      var delivery := deliveries[ticket];
      deliveries := deliveries - {ticket};
      if delivery.cancelled { return; }
      updateVersion := updateVersion + 1;
      var base := if loaded.scope == Some(delivery.scope) then loaded.lane else Lane([], []);
      var lane := Merge(delivery.scope, base, updates);
      loaded := Loaded(Some(delivery.scope), ReadyState, lane);
    }

    method OnEnvelopeRejected(ticket: nat)
      modifies this
      ensures State() == RejectEnvelope(old(State()), ticket)
    {
      if ticket !in deliveries { return; }
      var delivery := deliveries[ticket];
      deliveries := deliveries - {ticket};
      if delivery.cancelled { return; }
      var lane := if loaded.scope == Some(delivery.scope) then loaded.lane else Lane([], []);
      loaded := Loaded(Some(delivery.scope), ErrorState, lane);
    }

    method OnLocalEcho(update: Operation)
      modifies this
      ensures State() == EchoLocally(flavour, old(State()), update)
    {
      if active.None? { return; }
      updateVersion := updateVersion + 1;
      var base := if loaded.scope == active then loaded.lane else Lane([], []);
      var lane := Merge(active.value, base, [update]);
      loaded := Loaded(active, ReadyState, lane);
    }
  }
}
