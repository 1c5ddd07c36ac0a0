/**
 A browser that is the only writer of its device. Whatever calls fail and whatever other clients do
 to other devices, no publication ever overtakes an open intent, so one synchronisation settles
 everything; and with approvals only, that synchronisation always succeeds.
 */
module DeviceSettles {
  import opened Wrappers
  import opened DeviceSync
  import opened DeviceFixpoint
  import opened DeviceRuns

  ghost predicate HasOpenIntent(w: World)
    requires w.keystore.Some?
  {
    PendingOf(w.registry.intents, w.keystore.value.deviceId).Some?
  }

  /** A pending device whose record is behind the registry has no open intent. */
  ghost predicate Fresh(w: World) {
    Publishes(w) && IsPending(w) ==> !HasOpenIntent(w)
  }

  /** The registry would accept a publication of the record, should it need one. */
  ghost predicate Sound(w: World)
    requires w.keystore.Some? && w.keystore.value.deviceId in w.registry.devices
  {
    var local, d := w.keystore.value, w.registry.devices[w.keystore.value.deviceId];
    d.bundle.Some? && !d.status.Revoked? && (local.status.Active? ==> d.status.Active?) &&
    (Publishes(w) ==> (d.status.Active? <==> local.status.Active?))
  }

  /** What a lone writer keeps; with approvals as the only change from outside, soundness too. */
  ghost predicate Kept(w: World, sound: bool) {
    w.keystore.Some? ==> w.keystore.value.deviceId in w.registry.devices && Fresh(w) && (sound ==> Sound(w))
  }

  lemma ListedKept(w: World, now: int, sound: bool)
    requires Kept(w, sound)
    ensures Kept(ListedAt(w, now), sound)
  {
    if w.keystore.Some? { NoneLeftAfterExpiry(w.registry.intents, w.keystore.value.deviceId, now); }
  }

  lemma RelistKept(w: World, e: Env, devicesCall: Call, intentsCall: Call, local: Option<Local>,
                   bundle: Option<Bundle>, sound: bool)
    requires IsQuiet(e) && Kept(w, sound)
    ensures var after := Relist(w, e, devicesCall, intentsCall, local, bundle).w;
            Kept(after, sound) && after.keystore == w.keystore && after.registry.devices == w.registry.devices
  {
    QuietAt(w, e, devicesCall);
    QuietAt(w, e, intentsCall);
    ListedKept(w, e.now, sound);
    var after := Relist(w, e, devicesCall, intentsCall, local, bundle).w;
    assert after == w || after == ListedAt(w, e.now);
  }

  lemma RegisterFirstKept(w: World, e: Env, sound: bool)
    requires IsQuiet(e) && w.keystore.None?
    ensures Kept(RegisterFirstDevice(w, e).w, sound)
  {
    QuietAt(w, e, Register);
    var r := RegisterFirst(w.registry, e.deviceId, e.digest);
    if r.Some? {
      var registered := w.(registry := r.value, log := w.log + [FirstRegistered(e.deviceId)]);
      var local := Local(e.deviceId, Active, e.digest, 1, None, None);
      var saved := Save(registered, e, SaveRegistered, local, Bundle(e.digest, 1)).w;
      assert Kept(saved, sound);
      RelistKept(saved, e, RelistDevices, RelistIntents, Some(local), Some(Bundle(e.digest, 1)), sound);
    }
  }

  lemma BeginKept(w: World, e: Env, sound: bool)
    requires IsQuiet(e) && Kept(w, sound)
    ensures Kept(Begin(w, e).w, sound)
  {
    RelistKept(w, e, ListDevices, ListIntents, w.keystore, None, sound);
    var read := Open(w, e);
    if read.Going? && read.w.keystore.None? { RegisterFirstKept(read.w, e, sound); }
  }

  lemma PublishWithKept(w: World, e: Env, local: Local, proof: Option<Proof>, sound: bool)
    requires IsQuiet(e) && Kept(w, sound) && w.keystore == Some(local) && (proof.Some? <==> local.status.Active?)
    ensures Kept(PublishWith(w, e, local, proof).w, sound)
  {
    QuietAt(w, e, Publish);
    NoneLeftAfterExpiry(w.registry.intents, local.deviceId, e.now);
  }

  lemma PublishKept(w: World, e: Env, local: Local, sound: bool)
    requires IsQuiet(e) && Kept(w, sound) && w.keystore == Some(local)
    ensures Kept(PublishLocal(w, e, local).w, sound)
  {
    QuietAt(w, e, Challenge);
    if local.status.Active? {
      var r := CreateChallenge(w.registry, local.deviceId);
      if r.Some? {
        PublishWithKept(w.(registry := r.value), e, local,
                        Some(Proof(r.value.challenges[local.deviceId], e.digest)), sound);
      }
    } else {
      PublishWithKept(w, e, local, None, sound);
    }
  }

  lemma AgreeKept(w: World, e: Env, local: Local, sound: bool)
    requires IsQuiet(e) && Kept(w, sound) && w.keystore == Some(local)
    ensures Kept(Agree(w, e, local, w.registry.devices[local.deviceId].status).w, sound)
  {
    QuietAt(w, e, GetDevice);
    PublishKept(w, e, local, sound);
  }

  lemma LinkKept(w: World, e: Env, local: Local, intents: seq<Intent>, sound: bool)
    requires IsQuiet(e) && Agreed(w) && Kept(w, sound) && w.keystore == Some(local)
    ensures Kept(Link(w, e, local, local.status, intents).w, sound)
  {
    QuietAt(w, e, NewIntent);
    if local.status.PendingLink? && PendingOf(intents, local.deviceId).None? {
      QuietAt(OpenIntent(w, e, local.deviceId).w, e, ListNewIntent);
    }
  }

  lemma LocalStepsKept(w: World, e: Env, seen: Seen, sound: bool)
    requires IsQuiet(e) && Kept(w, sound) && w.keystore.Some? && seen.local == w.keystore
    requires seen.devices == w.registry.devices
    ensures Kept(StepsLocal(w, e, seen).w, sound)
  {
    var local := w.keystore.value;
    var agreed := Agree(w, e, local, w.registry.devices[local.deviceId].status);
    AgreeKept(w, e, local, sound);
    if agreed.Going? {
      AgreeAgrees(w, e, local);
      var linked := Link(agreed.w, e, agreed.value.0, agreed.value.0.status, seen.intents);
      LinkKept(agreed.w, e, agreed.value.0, seen.intents, sound);
      if linked.Going? {
        RelistKept(linked.w, e, LastDevices, LastIntents, Some(linked.value), Some(agreed.value.1), sound);
      }
    }
  }

  lemma SyncKept(w: World, e: Env, sound: bool)
    requires IsQuiet(e) && Kept(w, sound)
    ensures Kept(Synchronize(w, e).0, sound)
  {
    var begun := Begin(w, e);
    BeginKept(w, e, sound);
    if begun.Going? && begun.w.keystore.Some? { LocalStepsKept(begun.w, e, begun.value, sound); }
  }

  lemma RegisterPendingKept(w: World, e: Env, sound: bool)
    requires IsQuiet(e) && w.keystore.None?
    ensures Kept(RegisterPendingDevice(w, e).w, sound)
  {
    QuietAt(w, e, Register);
    var r := RegisterPending(w.registry, e.deviceId, e.digest);
    if r.Some? {
      QuietAt(w.(registry := r.value, log := w.log + [PendingRegistered(e.deviceId)]), e, NewIntent);
    }
  }

  lemma PendingKept(w: World, e: Env, next: Env, sound: bool)
    requires IsQuiet(e) && IsQuiet(next) && Kept(w, sound)
    ensures Kept(CreatePending(w, e, next).0, sound)
  {
    QuietAt(w, e, ListDevices);
    SyncKept(w, next, sound);
    if w.keystore.None? {
      RegisterPendingKept(w, e, sound);
      SyncKept(RegisterPendingDevice(w, e).w, next, sound);
    }
  }

  lemma CurrentKept(w: World, e: Env, next: Env, sound: bool)
    requires IsQuiet(e) && IsQuiet(next) && Kept(w, sound)
    ensures Kept(PublishCurrent(w, e, next).0, sound)
  {
    SyncKept(w, next, sound);
    if w.keystore.Some? {
      PublishKept(w, e, w.keystore.value, sound);
      SyncKept(PublishLocal(w, e, w.keystore.value).w, next, sound);
    }
  }

  // ----- What others may do -----

  /** Nobody else publishes for the kept device, opens an intent for it, or makes it pending again. */
  ghost predicate LeavesDeviceAlone(w: World, r: Registry) {
    w.keystore.Some? && w.keystore.value.deviceId in w.registry.devices && w.keystore.value.deviceId in r.devices ==>
      var id := w.keystore.value.deviceId;
      && r.devices[id].bundle == w.registry.devices[id].bundle
      && (PendingOf(w.registry.intents, id).None? ==> PendingOf(r.intents, id).None?)
      && (r.devices[id].status.PendingLink? ==> w.registry.devices[id].status.PendingLink?)
  }

  /** At most they approve it, which takes an open intent. */
  ghost predicate OnlyApproves(w: World, r: Registry) {
    w.keystore.Some? && w.keystore.value.deviceId in w.registry.devices && w.keystore.value.deviceId in r.devices ==>
      var before, after := w.registry.devices[w.keystore.value.deviceId], r.devices[w.keystore.value.deviceId];
      after.status == before.status || (IsPending(w) && HasOpenIntent(w) && after.status.Active?)
  }

  ghost predicate IsLoneAction(w: World, a: Action, sound: bool) {
    match a
    case Bootstrap(e) => IsQuiet(e)
    case CreatePendingDevice(e, next) => IsQuiet(e) && IsQuiet(next)
    case PublishBundleAgain(e, next) => IsQuiet(e) && IsQuiet(next)
    case Others(r) => LeavesDeviceAlone(w, r) && (sound ==> OnlyApproves(w, r))
  }

  ghost predicate IsLoneRun(w: World, actions: seq<Action>, sound: bool) {
    forall i :: 0 <= i < |actions| ==> IsLoneAction(Run(w, actions[..i]), actions[i], sound)
  }

  lemma OthersKept(w: World, r: Registry, sound: bool)
    requires Kept(w, sound) && LeavesDeviceAlone(w, r) && (sound ==> OnlyApproves(w, r))
    ensures Kept(Act(w, Others(r)), sound)
  {}

  lemma ActKept(w: World, a: Action, sound: bool)
    requires Kept(w, sound) && IsLoneAction(w, a, sound)
    ensures Kept(Act(w, a), sound)
  {
    match a
    case Bootstrap(e) => SyncKept(w, e, sound);
    case CreatePendingDevice(e, next) => PendingKept(w, e, next, sound);
    case PublishBundleAgain(e, next) => CurrentKept(w, e, next, sound);
    case Others(r) => OthersKept(w, r, sound);
  }

  lemma LoneFront(w: World, actions: seq<Action>, sound: bool)
    requires actions != [] && IsLoneRun(w, actions, sound)
    ensures IsLoneRun(w, actions[..|actions| - 1], sound)
    ensures IsLoneAction(Run(w, actions[..|actions| - 1]), actions[|actions| - 1], sound)
  {
    var front := actions[..|actions| - 1];
    forall i | 0 <= i < |front| ensures IsLoneAction(Run(w, front[..i]), front[i], sound) {
      assert front[..i] == actions[..i] && front[i] == actions[i];
    }
  }

  lemma {:induction false} RunKept(w: World, actions: seq<Action>, sound: bool)
    requires Kept(w, sound) && IsLoneRun(w, actions, sound)
    ensures Kept(Run(w, actions), sound)
  {
    if actions != [] {
      LoneFront(w, actions, sound);
      RunKept(w, actions[..|actions| - 1], sound);
      ActKept(Run(w, actions[..|actions| - 1]), actions[|actions| - 1], sound);
    }
  }

  // ----- One round settles -----

  lemma FreshNeverOvertakes(w: World, now: int)
    requires Fresh(w)
    ensures !OvertakesIntent(w, now)
  {
    if w.keystore.Some? { NoneLeftAfterExpiry(w.registry.intents, w.keystore.value.deviceId, now); }
  }

  /**
   After any run of a browser that started without keys, whatever calls failed, as long as nobody
   else wrote to its device: once a synchronisation ends well, the next one writes nothing.
   */
  lemma OneRoundSettles(start: World, actions: seq<Action>, e: Env, next: Env)
    requires start.keystore.None? && IsLoneRun(start, actions, false)
    requires IsFaultless(e) && IsFaultless(next) && e.ttl > 0
    requires Synchronize(Run(start, actions), e).1.phase != Error
    requires StillOpen(Synchronize(Run(start, actions), e).0, next.now)
    ensures var once := Synchronize(Run(start, actions), e).0;
            Synchronize(once, next).0.log == once.log
  {
    var w := Run(start, actions);
    RunKept(start, actions, false);
    SucceedsExactly(w, e);
    if w.keystore.None? {
      NoKeysSettles(w, e, next);
    } else {
      FreshNeverOvertakes(w, e.now);
      FixpointExactly(w, e, next);
    }
  }

  /**
   And if the others at most approved the device, that synchronisation does end well: no failure of
   any call, at any point of the run, locks the browser out.
   */
  lemma NoLockOut(start: World, actions: seq<Action>, e: Env)
    requires start.keystore.None? && IsLoneRun(start, actions, true) && IsFaultless(e)
    ensures Synchronize(Run(start, actions), e).1.phase != Error
  {
    RunKept(start, actions, true);
    SucceedsExactly(Run(start, actions), e);
  }

  // ----- What a second writer does -----

  /** A faultless pairing leaves the browser in agreement, its device pending. */
  lemma PairingAgrees(w: World, e: Env, next: Env)
    requires IsFaultless(e) && IsFaultless(next) && e.ttl > 0 && next.ttl > 0
    requires w.keystore.None? && HasActive(w.registry) && e.deviceId !in w.registry.devices
    requires PendingOf(w.registry.intents, e.deviceId).None?
    ensures var after := CreatePending(w, e, next).0;
            Agreed(after) && IsPending(after) && after.keystore.value.deviceId == e.deviceId &&
            after.keystore.value.digest == e.digest
  {
    QuietAt(w, e, ListDevices);
    QuietAt(w, e, Register);
    NoneLeftAfterExpiry(w.registry.intents, e.deviceId, e.now);
    var r := RegisterPending(w.registry, e.deviceId, e.digest).value;
    QuietAt(w.(registry := r, log := w.log + [PendingRegistered(e.deviceId)]), e, NewIntent);
    var paired := RegisterPendingDevice(w, e);
    assert paired.Going? && Agreed(paired.w) && IsPending(paired.w);
    IntentAfter(paired.w, next);
    StatusAfter(paired.w, next);
  }

  /** Another session with the same keys publishes a bundle of its own and asks for a new intent. */
  function SecondSession(r: Registry, id: string, digest: string, intentId: string, now: int, ttl: nat):
    Option<Registry>
  {
    match PublishBundle(r, id, digest, None)
    case None => None
    case Some(published) => CreateIntent(published, id, intentId, now, ttl)
  }

  lemma SecondSessionWrites(w: World, digest: string, intentId: string, now: int, ttl: nat)
    requires Agreed(w) && IsPending(w) && digest != w.keystore.value.digest && ttl > 0
    ensures var r := SecondSession(w.registry, w.keystore.value.deviceId, digest, intentId, now, ttl);
            && r.Some? && Act(w, Others(r.value)) == w.(registry := r.value)
            && Healthy(w.(registry := r.value)) && OvertakesIntent(w.(registry := r.value), now)
  {
    var id := w.keystore.value.deviceId;
    var published := PublishBundle(w.registry, id, digest, None).value;
    NoneLeftAfterExpiry(w.registry.intents, id, now);
    NoneLeftAfterExpiry(published.intents, id, now);
    var r := CreateIntent(published, id, intentId, now, ttl).value;
    var made := Intent(intentId, id, Pending, now + ttl);
    assert r.intents[0] == made && ExpireStale(r.intents, now)[0] == made;
    assert r.devices.Keys == w.registry.devices.Keys;
  }

  /**
   It takes a second writer for the same device, and a second writer is enough: pair a browser,
   let another session with its keys publish and open an intent, and the first round expires that
   intent while recording it, so that the second round writes another.
   */
  lemma SecondWriterOvertakes(w: World, pair: Env, close: Env, digest: string, intentId: string, e: Env, next: Env)
    requires IsFaultless(pair) && IsFaultless(close) && IsFaultless(e) && IsFaultless(next)
    requires pair.ttl > 0 && close.ttl > 0 && e.ttl > 0
    requires w.keystore.None? && HasActive(w.registry) && pair.deviceId !in w.registry.devices
    requires PendingOf(w.registry.intents, pair.deviceId).None?
    requires digest != pair.digest
    ensures var paired := CreatePending(w, pair, close).0;
            var r := SecondSession(paired.registry, pair.deviceId, digest, intentId, e.now, e.ttl);
            && r.Some?
            && var late := Run(w, [CreatePendingDevice(pair, close), Others(r.value)]);
               var once := Synchronize(late, e).0;
               && Agreed(once) && !HasOpenIntent(once)
               && (StillOpen(once, next.now) ==>
                     Synchronize(once, next).0.log == once.log + [IntentCreated(pair.deviceId)])
  {
    PairingAgrees(w, pair, close);
    var paired := CreatePending(w, pair, close).0;
    SecondSessionWrites(paired, digest, intentId, e.now, e.ttl);
    var r := SecondSession(paired.registry, pair.deviceId, digest, intentId, e.now, e.ttl).value;
    RunOfTwo(w, CreatePendingDevice(pair, close), Others(r));
    var late := paired.(registry := r);
    IntentAfter(late, e);
    StatusAfter(late, e);
    var once := Synchronize(late, e).0;
    if StillOpen(once, next.now) { AgreedWrites(once, next); }
  }

  lemma RunOfTwo(w: World, a: Action, b: Action)
    ensures Run(w, [a, b]) == Act(Act(w, a), b)
  {
    assert [a, b][..1] == [a] && [a][..0] == [];
    assert Run(w, [a]) == Act(w, a);
  }
}
