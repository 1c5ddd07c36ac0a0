/**
 What synchronisation achieves: agreement with the registry, one first registration for good, and
 a fixpoint after one round, or after two where publication expired the intent just read.
 */
module DeviceFixpoint {
  import opened Wrappers
  import opened DeviceSync

  /** The keystore holds a device of the registry, with its current bundle and status. */
  ghost predicate Agreed(w: World) {
    w.keystore.Some? &&
    var local := w.keystore.value;
    local.deviceId in w.registry.devices &&
    w.registry.devices[local.deviceId].bundle == Some(Bundle(local.digest, local.version)) &&
    w.registry.devices[local.deviceId].status == local.status
  }

  lemma QuietAt(w: World, e: Env, c: Call)
    requires IsQuiet(e)
    ensures At(w, e, c) == w
  {}

  lemma PublishAgrees(w: World, e: Env, local: Local)
    requires PublishLocal(w, e, local).Going?
    ensures var step := PublishLocal(w, e, local);
            Agreed(step.w) && step.w.keystore == Some(step.value.0) && step.value.0.deviceId == local.deviceId &&
            step.w.registry.devices[local.deviceId].bundle == Some(step.value.1)
  {}

  lemma AgreeAgrees(w: World, e: Env, local: Local)
    requires IsQuiet(e) && local.deviceId in w.registry.devices
    requires Agree(w, e, local, w.registry.devices[local.deviceId].status).Going?
    ensures var step := Agree(w, e, local, w.registry.devices[local.deviceId].status);
            Agreed(step.w) && step.w.keystore == Some(step.value.0) && step.value.0.deviceId == local.deviceId &&
            step.w.registry.devices[local.deviceId].bundle == Some(step.value.1) &&
            step.w.registry.devices[local.deviceId].status == w.registry.devices[local.deviceId].status
  {
    QuietAt(w, e, GetDevice);
    if NeedsPublish(w.registry.devices[local.deviceId], local) && !Fails(e, GetDevice) {
      PublishAgrees(w, e, local);
      PublishKeepsStatus(w, e, local);
    }
  }

  lemma PublishKeepsStatus(w: World, e: Env, local: Local)
    requires IsQuiet(e) && local.deviceId in w.registry.devices && PublishLocal(w, e, local).Going?
    ensures PublishLocal(w, e, local).w.registry.devices.Keys == w.registry.devices.Keys
    ensures PublishLocal(w, e, local).w.registry.devices[local.deviceId].status ==
            w.registry.devices[local.deviceId].status
  {
    QuietAt(w, e, Challenge);
    QuietAt(w, e, Publish);
  }

  lemma LinkAgrees(w: World, e: Env, local: Local, intents: seq<Intent>)
    requires IsQuiet(e) && Agreed(w) && w.keystore == Some(local)
    requires Link(w, e, local, local.status, intents).Going?
    ensures var step := Link(w, e, local, local.status, intents);
            Agreed(step.w) && step.w.keystore == Some(step.value) && step.value.deviceId == local.deviceId &&
            step.w.registry.devices == w.registry.devices
  {
    QuietAt(w, e, NewIntent);
    if PendingOf(intents, local.deviceId).None? && local.status.PendingLink? {
      QuietAt(OpenIntent(w, e, local.deviceId).w, e, ListNewIntent);
    }
  }

  lemma LocalStepsAgree(w: World, e: Env, seen: Seen)
    requires IsQuiet(e)
    requires seen.local.Some? && seen.local.value.deviceId in seen.devices && seen.devices == w.registry.devices
    requires StepsLocal(w, e, seen).Going?
    ensures var step := StepsLocal(w, e, seen);
            Agreed(step.w) && step.w.keystore == step.value.local &&
            step.value.local.value.deviceId in step.value.devices &&
            step.value.bundle == step.w.registry.devices[step.value.local.value.deviceId].bundle
  {
    var local := seen.local.value;
    AgreeAgrees(w, e, local);
    var agreed := Agree(w, e, local, w.registry.devices[local.deviceId].status);
    LinkAgrees(agreed.w, e, agreed.value.0, seen.intents);
    RelistAgrees(Link(agreed.w, e, agreed.value.0, agreed.value.0.status, seen.intents).w, e);
  }

  lemma RelistAgrees(w: World, e: Env)
    requires IsQuiet(e)
    ensures forall local, bundle :: var step := Relist(w, e, LastDevices, LastIntents, local, bundle);
              step.w.registry.devices == w.registry.devices && step.w.keystore == w.keystore &&
              (step.Going? ==> step.value.devices == w.registry.devices && step.value.local == local &&
                               step.value.bundle == bundle)
  {
    QuietAt(w, e, LastDevices);
    QuietAt(w, e, LastIntents);
  }

  /**
   However its calls may fail, while others leave the registry alone: a synchronisation that ends
   well with a local device ends in agreement.
   */
  lemma SuccessMeansAgreement(w: World, e: Env)
    requires IsQuiet(e)
    requires Synchronize(w, e).1.phase != Error && Synchronize(w, e).1.local.Some?
    ensures var (after, s) := Synchronize(w, e);
            Agreed(after) && after.keystore == s.local &&
            s.bundle == after.registry.devices[s.local.value.deviceId].bundle
  {
    var begun := Begin(w, e);
    var seen := begun.value;
    assert Steps(w, e) == StepsLocal(begun.w, e, seen);
    LocalStepsAgree(begun.w, e, seen);
  }

  // ----- First registration -----

  function FirstCount(log: seq<Write>): nat {
    if log == [] then 0 else FirstCount(log[..|log| - 1]) + if log[|log| - 1].FirstRegistered? then 1 else 0
  }

  lemma FirstCountSnoc(log: seq<Write>, x: Write)
    ensures FirstCount(log + [x]) == FirstCount(log) + if x.FirstRegistered? then 1 else 0
  {
    assert (log + [x])[..|log|] == log;
  }

  /** The calls of the action up to and including the registration went through at the server. */
  predicate ReachesRegistration(e: Env) {
    e.fault.FailsAt? ==>
      e.fault.call !in {Load, ListDevices, ListIntents} && (e.fault.call == Register ==> e.fault.durable)
  }

  predicate StartsEmpty(w: World) {
    w.keystore.None? && w.registry.devices == map[]
  }

  lemma BeginRegisters(w: World, e: Env)
    requires IsQuiet(e)
    ensures FirstCount(Begin(w, e).w.log) ==
            FirstCount(w.log) + if StartsEmpty(w) && ReachesRegistration(e) then 1 else 0
  {
    var read := Open(w, e);
    QuietAt(w, e, ListDevices);
    QuietAt(w, e, ListIntents);
    assert read.w.log == w.log && read.w.registry.devices == w.registry.devices;
    if read.Going? && StartsEmpty(w) { FirstDeviceRegisters(read.w, e); }
  }

  lemma FirstDeviceRegisters(w: World, e: Env)
    requires IsQuiet(e) && StartsEmpty(w)
    ensures var log := RegisterFirstDevice(w, e).w.log;
            log == if Fails(e, Register) && !e.fault.durable then w.log else w.log + [FirstRegistered(e.deviceId)]
    ensures FirstCount(w.log + [FirstRegistered(e.deviceId)]) == FirstCount(w.log) + 1
  {
    QuietAt(w, e, Register);
    FirstCountSnoc(w.log, FirstRegistered(e.deviceId));
  }

  lemma PublishRegistersNothing(w: World, e: Env, local: Local)
    ensures FirstCount(PublishLocal(w, e, local).w.log) == FirstCount(w.log)
  {
    FirstCountSnoc(w.log, Published(local.deviceId));
  }

  lemma AgreeRegistersNothing(w: World, e: Env, local: Local, remote: Status)
    requires local.deviceId in w.registry.devices
    ensures FirstCount(Agree(w, e, local, remote).w.log) == FirstCount(w.log)
  {
    var met := At(w, e, GetDevice);
    if !Fails(e, GetDevice) && NeedsPublish(met.registry.devices[local.deviceId], local) {
      PublishRegistersNothing(met, e, local);
    } else {
      assert Agree(w, e, local, remote).w.log == w.log;
    }
  }

  lemma LinkRegistersNothing(w: World, e: Env, local: Local, remote: Status, intents: seq<Intent>)
    ensures FirstCount(Link(w, e, local, remote, intents).w.log) == FirstCount(w.log)
  {
    FirstCountSnoc(w.log, IntentCreated(local.deviceId));
  }

  lemma LocalStepsRegisterNothing(w: World, e: Env, seen: Seen)
    requires seen.local.Some? && seen.local.value.deviceId in seen.devices
    requires seen.devices.Keys <= w.registry.devices.Keys
    ensures FirstCount(StepsLocal(w, e, seen).w.log) == FirstCount(w.log)
  {
    var local, remote := seen.local.value, seen.devices[seen.local.value.deviceId].status;
    var agreed := Agree(w, e, local, remote);
    AgreeRegistersNothing(w, e, local, remote);
    if agreed.Going? {
      var linked := Link(agreed.w, e, agreed.value.0, remote, seen.intents);
      LinkRegistersNothing(agreed.w, e, agreed.value.0, remote, seen.intents);
      if linked.Going? {
        RelistLogs(linked.w, e, LastDevices, LastIntents, Some(linked.value), Some(agreed.value.1));
      }
    }
  }

  lemma RelistLogs(w: World, e: Env, devicesCall: Call, intentsCall: Call, local: Option<Local>,
                   bundle: Option<Bundle>)
    ensures Relist(w, e, devicesCall, intentsCall, local, bundle).w.log == w.log
  {}

  /** A first device is registered exactly when keystore and registry are both empty and the call gets through. */
  lemma RegistersFirstExactly(w: World, e: Env)
    requires IsQuiet(e)
    ensures FirstCount(Synchronize(w, e).0.log) ==
            FirstCount(w.log) + if StartsEmpty(w) && ReachesRegistration(e) then 1 else 0
  {
    var begun := Begin(w, e);
    BeginRegisters(w, e);
    if begun.Going? && begun.value.local.Some? && begun.value.local.value.deviceId in begun.value.devices {
      LocalStepsRegisterNothing(begun.w, e, begun.value);
    }
  }

  // ----- When a synchronisation without failing calls succeeds -----

  /** Either the digests agree or the registry accepts a publication from a device of the recorded status. */
  ghost predicate Healthy(w: World) {
    w.keystore.Some? ==>
      var local := w.keystore.value;
      local.deviceId in w.registry.devices &&
      var d := w.registry.devices[local.deviceId];
      d.bundle.Some? &&
      (d.bundle.value.digest == local.digest || (!d.status.Revoked? && (d.status.Active? <==> local.status.Active?)))
  }

  lemma NoneLeftAfterExpiry(intents: seq<Intent>, id: string, now: int)
    ensures PendingOf(ExpireOf(intents, id), id).None?
    ensures PendingOf(intents, id).None? ==> PendingOf(ExpireStale(intents, now), id).None?
  {}

  lemma StaleTwice(intents: seq<Intent>, now: int)
    ensures ExpireStale(ExpireStale(intents, now), now) == ExpireStale(intents, now)
  {}

  lemma AgreeSucceeds(w: World, e: Env)
    requires IsFaultless(e) && w.keystore.Some? && w.keystore.value.deviceId in w.registry.devices
    ensures var local := w.keystore.value;
            var step := Agree(w, e, local, w.registry.devices[local.deviceId].status);
            (step.Going? <==> Healthy(w)) && (step.Stopped? ==> step.w == w)
  {}

  /** What the registry holds once the record agrees with it. */
  lemma AgreeRegistry(w: World, e: Env)
    requires IsFaultless(e) && w.keystore.Some? && Healthy(w)
    ensures var local := w.keystore.value;
            var d := w.registry.devices[local.deviceId];
            var step := Agree(w, e, local, d.status);
            step.Going? &&
            step.w.log == (if NeedsPublish(d, local) then w.log + [Published(local.deviceId)] else w.log) &&
            step.w.registry.intents ==
            (if NeedsPublish(d, local) && d.status.PendingLink? then ExpireOf(w.registry.intents, local.deviceId)
             else w.registry.intents)
  {}

  function ListedAt(w: World, now: int): World {
    w.(registry := Listed(w.registry, now))
  }

  lemma BeginFaultless(w: World, e: Env)
    requires IsFaultless(e)
    ensures Begin(w, e).Going?
    ensures !StartsEmpty(w) ==> Begin(w, e).w == ListedAt(w, e.now)
    ensures StartsEmpty(w) ==> Agreed(Begin(w, e).w) && Begin(w, e).w.keystore.value.status.Active?
  {}

  lemma LinkSucceeds(w: World, e: Env, local: Local, before: seq<Intent>)
    requires IsFaultless(e) && Agreed(w) && w.keystore == Some(local)
    requires PendingOf(before, local.deviceId).None? ==> PendingOf(w.registry.intents, local.deviceId).None?
    ensures var step := Link(w, e, local, local.status, before);
            step.Going? &&
            step.w.log == (if local.status.PendingLink? && PendingOf(before, local.deviceId).None?
                           then w.log + [IntentCreated(local.deviceId)] else w.log)
  {
    NoneLeftAfterExpiry(w.registry.intents, local.deviceId, e.now);
  }

  ghost predicate Publishes(w: World) {
    w.keystore.Some? && w.keystore.value.deviceId in w.registry.devices &&
    NeedsPublish(w.registry.devices[w.keystore.value.deviceId], w.keystore.value)
  }

  ghost predicate IsPending(w: World) {
    w.keystore.Some? && w.keystore.value.deviceId in w.registry.devices &&
    w.registry.devices[w.keystore.value.deviceId].status.PendingLink?
  }

  ghost predicate ShowsIntent(w: World) {
    w.keystore.Some? && PendingOf(w.registry.intents, w.keystore.value.deviceId).Some?
  }

  ghost function SyncWrites(w: World): seq<Write>
    requires w.keystore.Some?
  {
    (if Publishes(w) then [Published(w.keystore.value.deviceId)] else []) +
    (if IsPending(w) && !ShowsIntent(w) then [IntentCreated(w.keystore.value.deviceId)] else [])
  }

  lemma LocalStepsFaultless(w: World, e: Env, seen: Seen)
    requires IsFaultless(e) && w.keystore.Some? && seen.local == w.keystore
    requires w.keystore.value.deviceId in w.registry.devices && seen.devices == w.registry.devices
    requires seen.intents == w.registry.intents
    ensures var step := StepsLocal(w, e, seen);
            (step.Going? <==> Healthy(w)) && (step.Stopped? ==> step.w == w) &&
            (Healthy(w) ==> step.w.log == w.log + SyncWrites(w))
  {
    var local := w.keystore.value;
    var d := w.registry.devices[local.deviceId];
    AgreeSucceeds(w, e);
    if Healthy(w) {
      AgreeRegistry(w, e);
      AgreeAgrees(w, e, local);
      var agreed := Agree(w, e, local, d.status);
      NoneLeftAfterExpiry(w.registry.intents, local.deviceId, e.now);
      LinkSucceeds(agreed.w, e, agreed.value.0, seen.intents);
    }
  }

  /**
   A synchronisation in which no call fails ends well exactly when the record is healthy; otherwise
   nothing moves, ever.
   */
  lemma SucceedsExactly(w: World, e: Env)
    requires IsFaultless(e)
    ensures Synchronize(w, e).1.phase != Error <==> Healthy(w)
    ensures !Healthy(w) ==> Synchronize(w, e).0 == ListedAt(w, e.now) && !Healthy(Synchronize(w, e).0)
  {
    BeginFaultless(w, e);
    var begun := Begin(w, e);
    assert Healthy(begun.w) <==> Healthy(w);
    BegunSucceedsExactly(w, e, begun.w, begun.value);
  }

  lemma BegunSucceedsExactly(w: World, e: Env, begun: World, seen: Seen)
    requires IsFaultless(e) && Begin(w, e) == Going(begun, seen)
    ensures Synchronize(w, e).1.phase != Error <==> Healthy(begun)
    ensures !Healthy(begun) ==> Synchronize(w, e).0 == begun
  {
    var step := Steps(w, e);
    if begun.keystore.Some? && begun.keystore.value.deviceId in begun.registry.devices {
      assert step == StepsLocal(begun, e, seen);
      LocalStepsFaultless(begun, e, seen);
      if step.Going? { LocalStepsAgree(begun, e, seen); }
    } else {
      assert step == Going(begun, seen);
    }
  }

  /** The writes of one synchronisation of a known device, and nothing else. */
  lemma WritesExactly(w: World, e: Env)
    requires IsFaultless(e) && w.keystore.Some? && Healthy(w)
    ensures Synchronize(w, e).0.log == w.log + SyncWrites(ListedAt(w, e.now))
  {
    BeginFaultless(w, e);
    var begun := Begin(w, e);
    LocalStepsFaultless(begun.w, e, begun.value);
  }

  // ----- The fixpoint -----

  lemma LinkIntents(w: World, e: Env, local: Local, before: seq<Intent>)
    requires IsFaultless(e) && e.ttl > 0 && Agreed(w) && w.keystore == Some(local) && local.status.PendingLink?
    requires PendingOf(before, local.deviceId).None? ==> PendingOf(w.registry.intents, local.deviceId).None?
    ensures var step := Link(w, e, local, local.status, before);
            step.Going? &&
            (PendingOf(before, local.deviceId).Some? ==> step.w.registry == w.registry) &&
            (PendingOf(before, local.deviceId).None? ==>
               PendingOf(ExpireStale(step.w.registry.intents, e.now), local.deviceId).Some?)
  {
    NoneLeftAfterExpiry(w.registry.intents, local.deviceId, e.now);
    var step := Link(w, e, local, local.status, before);
    if PendingOf(before, local.deviceId).None? {
      var made := Intent(e.intentId, local.deviceId, Pending, e.now + e.ttl);
      assert step.w.registry.intents[0] == made;
      assert ExpireStale(step.w.registry.intents, e.now)[0] == made;
    }
  }

  lemma IntentAfterSteps(w: World, e: Env, seen: Seen)
    requires IsFaultless(e) && e.ttl > 0 && IsPending(w) && Healthy(w)
    requires seen.local == w.keystore && seen.devices == w.registry.devices && seen.intents == w.registry.intents
    requires ExpireStale(w.registry.intents, e.now) == w.registry.intents
    ensures ShowsIntent(StepsLocal(w, e, seen).w) <==> !(Publishes(w) && ShowsIntent(w))
    ensures IsPending(StepsLocal(w, e, seen).w)
  {
    var local := w.keystore.value;
    var agreed := Agree(w, e, local, w.registry.devices[local.deviceId].status);
    AgreeRegistry(w, e);
    AgreeAgrees(w, e, local);
    NoneLeftAfterExpiry(w.registry.intents, local.deviceId, e.now);
    NoneLeftAfterExpiry(ExpireOf(w.registry.intents, local.deviceId), local.deviceId, e.now);
    LinkIntents(agreed.w, e, agreed.value.0, seen.intents);
    LinkAgrees(agreed.w, e, agreed.value.0, seen.intents);
  }

  /** No pending intent of the kept device runs out before that moment. */
  ghost predicate StillOpen(w: World, now: int) {
    w.keystore.Some? ==>
      forall i :: i in w.registry.intents && i.deviceId == w.keystore.value.deviceId && i.status.Pending? ==>
        i.expiresAt > now
  }

  lemma StillShown(intents: seq<Intent>, id: string, now: int)
    requires forall i :: i in intents && i.deviceId == id && i.status.Pending? ==> i.expiresAt > now
    ensures PendingOf(ExpireStale(intents, now), id).Some? <==> PendingOf(intents, id).Some?
  {
    NoneLeftAfterExpiry(intents, id, now);
    if PendingOf(intents, id).Some? {
      var k :| 0 <= k < |intents| && intents[k] == PendingOf(intents, id).value;
      assert ExpireStale(intents, now)[k] == intents[k];
    }
  }

  /** In agreement, the only write left is the intent a pending device may lack. */
  lemma AgreedWrites(w: World, e: Env)
    requires IsFaultless(e) && Agreed(w) && StillOpen(w, e.now)
    ensures Synchronize(w, e).0.log ==
            w.log + if IsPending(w) && !ShowsIntent(w) then [IntentCreated(w.keystore.value.deviceId)] else []
  {
    WritesExactly(w, e);
    StillShown(w.registry.intents, w.keystore.value.deviceId, e.now);
    assert !Publishes(ListedAt(w, e.now));
  }

  /** The intent read before the publication is the one the publication expires. */
  ghost predicate OvertakesIntent(w: World, now: int) {
    Publishes(w) && IsPending(w) && ShowsIntent(ListedAt(w, now))
  }

  lemma IntentAfter(w: World, e: Env)
    requires IsFaultless(e) && e.ttl > 0 && w.keystore.Some? && Healthy(w)
    ensures var after := Synchronize(w, e).0;
            Agreed(after) && (IsPending(after) && !ShowsIntent(after) <==> OvertakesIntent(w, e.now))
  {
    SucceedsExactly(w, e);
    BeginFaultless(w, e);
    var begun := Begin(w, e);
    LocalStepsFaultless(begun.w, e, begun.value);
    LocalStepsAgree(begun.w, e, begun.value);
    StaleTwice(w.registry.intents, e.now);
    if IsPending(w) {
      IntentAfterSteps(begun.w, e, begun.value);
    } else {
      StatusStays(begun.w, e, begun.value);
    }
  }

  lemma StatusAfter(w: World, e: Env)
    requires IsFaultless(e) && w.keystore.Some? && Healthy(w)
    ensures var after := Synchronize(w, e).0;
            (IsPending(after) <==> IsPending(w)) && after.keystore.Some? &&
            after.keystore.value.deviceId == w.keystore.value.deviceId &&
            (!Publishes(w) ==> after.keystore.value.digest == w.keystore.value.digest)
  {
    BeginFaultless(w, e);
    var begun := Begin(w, e);
    LocalStepsFaultless(begun.w, e, begun.value);
    LocalStepsAgree(begun.w, e, begun.value);
    StatusStays(begun.w, e, begun.value);
  }

  lemma StatusStays(w: World, e: Env, seen: Seen)
    requires IsQuiet(e) && w.keystore.Some? && seen.local == w.keystore && seen.devices == w.registry.devices
    requires w.keystore.value.deviceId in w.registry.devices && StepsLocal(w, e, seen).Going?
    ensures var after := StepsLocal(w, e, seen).w;
            (IsPending(after) <==> IsPending(w)) && after.keystore.Some? &&
            after.keystore.value.deviceId == w.keystore.value.deviceId &&
            (!Publishes(w) ==> after.keystore.value.digest == w.keystore.value.digest)
  {
    var local := w.keystore.value;
    QuietAt(w, e, GetDevice);
    AgreeAgrees(w, e, local);
    var agreed := Agree(w, e, local, w.registry.devices[local.deviceId].status);
    LinkAgrees(agreed.w, e, agreed.value.0, seen.intents);
    RelistAgrees(Link(agreed.w, e, agreed.value.0, agreed.value.0.status, seen.intents).w, e);
  }

  /**
   After a synchronisation that ended well, the next one writes nothing to the registry, unless the
   first published the bundle of a pending device and so expired the intent it went on to record.
   */
  lemma FixpointExactly(w: World, e: Env, next: Env)
    requires IsFaultless(e) && IsFaultless(next) && e.ttl > 0 && w.keystore.Some? && Healthy(w)
    requires StillOpen(Synchronize(w, e).0, next.now)
    ensures var once := Synchronize(w, e).0;
            Synchronize(once, next).0.log == once.log <==> !OvertakesIntent(w, e.now)
  {
    IntentAfter(w, e);
    AgreedWrites(Synchronize(w, e).0, next);
  }

  /** Two rounds always settle it. */
  lemma SecondRoundSettles(w: World, e: Env, next: Env, last: Env)
    requires IsFaultless(e) && IsFaultless(next) && IsFaultless(last) && e.ttl > 0 && next.ttl > 0
    requires w.keystore.Some? && Healthy(w)
    requires StillOpen(Synchronize(Synchronize(w, e).0, next).0, last.now)
    ensures var twice := Synchronize(Synchronize(w, e).0, next).0;
            Synchronize(twice, last).0.log == twice.log
  {
    var once := Synchronize(w, e).0;
    IntentAfter(w, e);
    FixpointExactly(once, next, last);
  }

  /** A first device settles at once; without keys beside a used registry nothing is ever written. */
  lemma NoKeysSettles(w: World, e: Env, next: Env)
    requires IsFaultless(e) && IsFaultless(next) && w.keystore.None?
    ensures var once := Synchronize(w, e).0;
            Synchronize(once, next).0.log == once.log &&
            once.log == w.log + if StartsEmpty(w) then [FirstRegistered(e.deviceId)] else []
  {
    BeginFaultless(w, e);
    var begun := Begin(w, e);
    var once := Synchronize(w, e).0;
    if StartsEmpty(w) {
      LocalStepsFaultless(begun.w, e, begun.value);
      LocalStepsAgree(begun.w, e, begun.value);
      StatusStays(begun.w, e, begun.value);
      WritesExactly(once, next);
    } else {
      BeginFaultless(once, next);
    }
  }
}
