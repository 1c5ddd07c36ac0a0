/**
 Any run of the runtime's actions, with calls failing anywhere and other clients changing the
 registry in between: devices stay, a kept device stays kept, and there is one first registration.
 */
module DeviceRuns {
  import opened Wrappers
  import opened DeviceSync
  import opened DeviceFixpoint

  datatype Action = Bootstrap(e: Env) | CreatePendingDevice(e: Env, next: Env) | PublishBundleAgain(e: Env, next: Env)
                  | Others(r: Registry)

  /** Others may do anything to the registry but make devices vanish. */
  function Act(w: World, a: Action): World {
    match a
    case Bootstrap(e) => Synchronize(w, e).0
    case CreatePendingDevice(e, next) => CreatePending(w, e, next).0
    case PublishBundleAgain(e, next) => PublishCurrent(w, e, next).0
    case Others(r) => if w.registry.devices.Keys <= r.devices.Keys then w.(registry := r) else w
  }

  function Run(w: World, actions: seq<Action>): World {
    if actions == [] then w else Act(Run(w, actions[..|actions| - 1]), actions[|actions| - 1])
  }

  ghost predicate DevicesStay(before: World, after: World) {
    before.registry.devices.Keys <= after.registry.devices.Keys
  }

  /** Once there is key material for a device, it is never replaced by another device's. */
  ghost predicate KeepsDevice(before: World, after: World) {
    before.keystore.Some? ==> after.keystore.Some? && after.keystore.value.deviceId == before.keystore.value.deviceId
  }

  /** First registrations happen out of an empty registry only, and leave it non-empty. */
  ghost predicate FirstOnce(before: World, after: World) {
    var more := FirstCount(after.log) - FirstCount(before.log);
    0 <= more <= 1 && (more == 1 ==> before.registry.devices == map[] && after.registry.devices != map[])
  }

  ghost predicate Keeps(before: World, after: World) {
    DevicesStay(before, after) && KeepsDevice(before, after) && FirstOnce(before, after)
  }

  lemma KeepsTwice(a: World, b: World, c: World)
    requires Keeps(a, b) && Keeps(b, c)
    ensures Keeps(a, c)
  {
    if b.registry.devices != map[] {
      var id :| id in b.registry.devices;
      assert id in c.registry.devices;
    }
    if a.registry.devices != map[] {
      var id :| id in a.registry.devices;
      assert id in b.registry.devices;
    }
  }

  lemma WroteKeeps(w: World, after: World, x: Write)
    requires DevicesStay(w, after) && KeepsDevice(w, after)
    requires after.log == w.log + [x] && !x.FirstRegistered?
    ensures Keeps(w, after)
  {
    FirstCountSnoc(w.log, x);
  }

  lemma AtKeeps(w: World, e: Env, c: Call)
    ensures Keeps(w, At(w, e, c)) && At(w, e, c).keystore == w.keystore && At(w, e, c).log == w.log
  {}

  lemma RelistKeeps(w: World, e: Env, devicesCall: Call, intentsCall: Call, local: Option<Local>,
                    bundle: Option<Bundle>)
    ensures Keeps(w, Relist(w, e, devicesCall, intentsCall, local, bundle).w)
    ensures Relist(w, e, devicesCall, intentsCall, local, bundle).w.keystore == w.keystore
  {}

  lemma RegisterFirstKeeps(w: World, e: Env)
    requires w.keystore.None?
    ensures Keeps(w, RegisterFirstDevice(w, e).w)
  {
    var met := At(w, e, Register);
    var r := RegisterFirst(met.registry, e.deviceId, e.digest);
    if r.Some? {
      FirstCountSnoc(w.log, FirstRegistered(e.deviceId));
      assert e.deviceId in r.value.devices;
      assert w.registry.devices.Keys <= met.registry.devices.Keys == {};
      var registered := w.(registry := r.value, log := w.log + [FirstRegistered(e.deviceId)]);
      var local := Local(e.deviceId, Active, e.digest, 1, None, None);
      SaveKeeps(w, registered, e, SaveRegistered, local, Bundle(e.digest, 1));
      var saved := Save(registered, e, SaveRegistered, local, Bundle(e.digest, 1)).w;
      RelistKeeps(saved, e, RelistDevices, RelistIntents, Some(local), Some(Bundle(e.digest, 1)));
      KeepsTwice(w, saved, Relist(saved, e, RelistDevices, RelistIntents, Some(local), Some(Bundle(e.digest, 1))).w);
    }
  }

  lemma SaveKeeps<T>(w: World, before: World, e: Env, c: Call, local: Local, value: T)
    requires Keeps(w, before) && (w.keystore.Some? ==> w.keystore.value.deviceId == local.deviceId)
    ensures Keeps(w, Save(before, e, c, local, value).w)
  {}

  lemma BeginKeeps(w: World, e: Env)
    ensures Keeps(w, Begin(w, e).w)
  {
    var read := Open(w, e);
    RelistKeeps(w, e, ListDevices, ListIntents, w.keystore, None);
    if read.Going? && read.w.keystore.None? {
      RegisterFirstKeeps(read.w, e);
      KeepsTwice(w, read.w, RegisterFirstDevice(read.w, e).w);
    }
  }

  lemma ChallengeKeeps(w: World, e: Env, r: Registry, id: string)
    requires CreateChallenge(At(w, e, Challenge).registry, id) == Some(r)
    ensures Keeps(w, w.(registry := r))
  {}

  lemma PublishWithKeeps(w: World, e: Env, local: Local, proof: Option<Proof>)
    requires w.keystore.Some? && local.deviceId == w.keystore.value.deviceId
    ensures Keeps(w, PublishWith(w, e, local, proof).w)
  {
    var r := PublishBundle(At(w, e, Publish).registry, local.deviceId, e.digest, proof);
    AtKeeps(w, e, Publish);
    if r.Some? {
      var published, device := WithBundle(w, r.value, local.deviceId), r.value.devices[local.deviceId];
      var synced := local.(digest := e.digest, version := device.bundle.value.version, status := device.status);
      PublishedKeeps(w, e, local, proof, r.value);
      SaveKeeps(w, published, e, SavePublished, synced, (synced, device.bundle.value));
    }
  }

  function WithBundle(w: World, r: Registry, id: string): World {
    w.(registry := r, log := w.log + [Published(id)])
  }

  lemma PublishedKeeps(w: World, e: Env, local: Local, proof: Option<Proof>, r: Registry)
    requires PublishBundle(At(w, e, Publish).registry, local.deviceId, e.digest, proof) == Some(r)
    ensures Keeps(w, WithBundle(w, r, local.deviceId))
  {
    BundleKeepsDevices(At(w, e, Publish).registry, local.deviceId, e.digest, proof);
    WroteKeeps(w, WithBundle(w, r, local.deviceId), Published(local.deviceId));
  }

  lemma BundleKeepsDevices(r: Registry, id: string, digest: string, proof: Option<Proof>)
    ensures var next := PublishBundle(r, id, digest, proof);
            next.Some? ==> next.value.devices.Keys == r.devices.Keys
  {}

  lemma PublishKeeps(w: World, e: Env, local: Local)
    requires w.keystore.Some? && local.deviceId == w.keystore.value.deviceId
    ensures Keeps(w, PublishLocal(w, e, local).w)
  {
    PublishWithKeeps(w, e, local, None);
    var r := CreateChallenge(At(w, e, Challenge).registry, local.deviceId);
    if r.Some? {
      var challenged, proof := w.(registry := r.value), Some(Proof(r.value.challenges[local.deviceId], e.digest));
      ChallengeKeeps(w, e, r.value, local.deviceId);
      PublishWithKeeps(challenged, e, local, proof);
      KeepsTwice(w, challenged, PublishWith(challenged, e, local, proof).w);
    }
  }

  lemma AgreeKeeps(w: World, e: Env, local: Local, remote: Status)
    requires w.keystore.Some? && local.deviceId == w.keystore.value.deviceId && local.deviceId in w.registry.devices
    ensures var step := Agree(w, e, local, remote);
            Keeps(w, step.w) && (step.Going? ==> step.value.0.deviceId == local.deviceId)
  {
    var met := At(w, e, GetDevice);
    AtKeeps(w, e, GetDevice);
    if !Fails(e, GetDevice) && NeedsPublish(met.registry.devices[local.deviceId], local) {
      PublishKeeps(met, e, local);
      PublishAgreesOnId(met, e, local);
      KeepsTwice(w, met, PublishLocal(met, e, local).w);
    }
  }

  lemma PublishAgreesOnId(w: World, e: Env, local: Local)
    ensures PublishLocal(w, e, local).Going? ==> PublishLocal(w, e, local).value.0.deviceId == local.deviceId
  {}

  lemma OpenIntentKeeps(w: World, e: Env, id: string)
    ensures Keeps(w, OpenIntent(w, e, id).w) && OpenIntent(w, e, id).w.keystore == w.keystore
  {
    FirstCountSnoc(w.log, IntentCreated(id));
  }

  lemma LinkKeeps(w: World, e: Env, local: Local, remote: Status, intents: seq<Intent>)
    requires w.keystore.Some? && local.deviceId == w.keystore.value.deviceId
    ensures Keeps(w, Link(w, e, local, remote, intents).w)
  {
    if remote.PendingLink? && PendingOf(intents, local.deviceId).None? {
      var made := OpenIntent(w, e, local.deviceId).w;
      OpenIntentKeeps(w, e, local.deviceId);
      LinkAnewKeeps(made, e, local);
      KeepsTwice(w, made, LinkAnew(w, e, local).w);
    }
  }

  lemma LinkAnewKeeps(made: World, e: Env, local: Local)
    requires made.keystore.Some? && local.deviceId == made.keystore.value.deviceId
    ensures Keeps(made, ReadIntents(made, e, ListNewIntent).w)
    ensures forall expiresAt ::
              Keeps(made, LinkTo(ReadIntents(made, e, ListNewIntent).w, e, local, e.intentId, expiresAt).w)
  {}

  lemma LocalStepsKeep(w: World, e: Env, seen: Seen)
    requires seen.local == w.keystore && w.keystore.Some?
    requires w.keystore.value.deviceId in seen.devices && seen.devices.Keys <= w.registry.devices.Keys
    ensures Keeps(w, StepsLocal(w, e, seen).w)
  {
    var local := w.keystore.value;
    var remote := seen.devices[local.deviceId].status;
    var agreed := Agree(w, e, local, remote);
    AgreeKeeps(w, e, local, remote);
    if agreed.Going? {
      var linked := Link(agreed.w, e, agreed.value.0, remote, seen.intents);
      LinkKeeps(agreed.w, e, agreed.value.0, remote, seen.intents);
      KeepsTwice(w, agreed.w, linked.w);
      if linked.Going? {
        RelistKeeps(linked.w, e, LastDevices, LastIntents, Some(linked.value), Some(agreed.value.1));
        KeepsTwice(w, linked.w, StepsLocal(w, e, seen).w);
      }
    }
  }

  lemma SyncKeeps(w: World, e: Env)
    ensures Keeps(w, Synchronize(w, e).0)
  {
    var begun := Begin(w, e);
    BeginKeeps(w, e);
    if begun.Going? && begun.value.local.Some? && begun.value.local.value.deviceId in begun.value.devices {
      LocalStepsKeep(begun.w, e, begun.value);
      KeepsTwice(w, begun.w, Synchronize(w, e).0);
    }
  }

  lemma RegisteredKeeps(w: World, e: Env, r: Registry)
    requires w.keystore.None? && RegisterPending(At(w, e, Register).registry, e.deviceId, e.digest) == Some(r)
    ensures Keeps(w, WithPending(w, r, e.deviceId))
  {
    WroteKeeps(w, WithPending(w, r, e.deviceId), PendingRegistered(e.deviceId));
  }

  function WithPending(w: World, r: Registry, id: string): World {
    w.(registry := r, log := w.log + [PendingRegistered(id)])
  }

  lemma RegisterPendingKeeps(w: World, e: Env)
    requires w.keystore.None?
    ensures Keeps(w, RegisterPendingDevice(w, e).w)
  {
    var r := RegisterPending(At(w, e, Register).registry, e.deviceId, e.digest);
    if r.Some? {
      var registered := WithPending(w, r.value, e.deviceId);
      var made := OpenIntent(registered, e, e.deviceId);
      var local := Local(e.deviceId, PendingLink, e.digest, 1, Some(e.intentId), Some(e.now + e.ttl));
      RegisteredKeeps(w, e, r.value);
      OpenIntentKeeps(registered, e, e.deviceId);
      KeepsTwice(w, registered, made.w);
      SaveKeeps(w, made.w, e, SaveLinked, local, local);
    }
  }

  lemma SyncAfterKeeps(w: World, mid: World, next: Env)
    requires Keeps(w, mid)
    ensures Keeps(w, Synchronize(mid, next).0)
  {
    SyncKeeps(mid, next);
    KeepsTwice(w, mid, Synchronize(mid, next).0);
  }

  lemma PendingKeeps(w: World, e: Env, next: Env)
    ensures Keeps(w, CreatePending(w, e, next).0)
  {
    var met := At(w, e, ListDevices);
    AtKeeps(w, e, ListDevices);
    SyncKeeps(w, next);
    SyncAfterKeeps(w, met, next);
    if w.keystore.None? {
      var after := RegisterPendingDevice(met, e).w;
      RegisterPendingKeeps(met, e);
      KeepsTwice(w, met, after);
      SyncAfterKeeps(w, after, next);
    }
  }

  lemma CurrentKeeps(w: World, e: Env, next: Env)
    ensures Keeps(w, PublishCurrent(w, e, next).0)
  {
    SyncKeeps(w, next);
    if w.keystore.Some? {
      var after := PublishLocal(w, e, w.keystore.value).w;
      PublishKeeps(w, e, w.keystore.value);
      SyncAfterKeeps(w, after, next);
    }
  }

  lemma ActKeeps(w: World, a: Action)
    ensures Keeps(w, Act(w, a))
  {
    match a
    case Bootstrap(e) => SyncKeeps(w, e);
    case CreatePendingDevice(e, next) => PendingKeeps(w, e, next);
    case PublishBundleAgain(e, next) => CurrentKeeps(w, e, next);
    case Others(r) =>
  }

  /** Over any run: at most one first registration, none once there is a device, and the kept device stays. */
  lemma {:induction false} RunKeeps(w: World, actions: seq<Action>)
    ensures Keeps(w, Run(w, actions))
  {
    if actions != [] {
      var before := Run(w, actions[..|actions| - 1]);
      RunKeeps(w, actions[..|actions| - 1]);
      ActKeeps(before, actions[|actions| - 1]);
      KeepsTwice(w, before, Run(w, actions));
    }
  }
}
