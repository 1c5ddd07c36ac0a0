/**
 The crypto-device registry and the browser that keeps one device of it: the server's side of
 registration, bundle publication and link intents, and the client's synchronisation with it.
 Every call may fail, before the server has committed or after, and other clients may change the
 registry between any two calls.
 */
module DeviceSync {
  import opened Wrappers

  datatype Status = Active | PendingLink | Revoked
  datatype IntentStatus = Pending | Approved | Expired

  datatype Bundle = Bundle(digest: string, version: nat)
  datatype Device = Device(status: Status, bundle: Option<Bundle>)
  datatype Intent = Intent(id: string, deviceId: string, status: IntentStatus, expiresAt: int)

  /** Intents newest first, as they are listed; a challenge remembers the bundle it was issued for. */
  datatype Registry = Registry(devices: map<string, Device>, intents: seq<Intent>, challenges: map<string, Bundle>)

  datatype Proof = Proof(previous: Bundle, newDigest: string)

  /** The record the keystore holds beside the keys. */
  datatype Local = Local(deviceId: string, status: Status, digest: string, version: nat,
                         linkIntent: Option<string>, linkExpiresAt: Option<int>)

  datatype Write = FirstRegistered(id: string) | PendingRegistered(id: string) | Published(id: string)
                 | IntentCreated(id: string)

  datatype World = World(keystore: Option<Local>, registry: Registry, log: seq<Write>)

  // ----- The server -----

  function ExpireIf(i: Intent, expires: bool): Intent {
    if i.status.Pending? && expires then i.(status := Expired) else i
  }

  function ExpireStale(intents: seq<Intent>, now: int): seq<Intent> {
    seq(|intents|, k requires 0 <= k < |intents| => ExpireIf(intents[k], intents[k].expiresAt <= now))
  }

  function ExpireOf(intents: seq<Intent>, id: string): seq<Intent> {
    seq(|intents|, k requires 0 <= k < |intents| => ExpireIf(intents[k], intents[k].deviceId == id))
  }

  predicate IsOpenFor(i: Intent, id: string) {
    i.deviceId == id && i.status.Pending?
  }

  predicate IsFirstOpen(intents: seq<Intent>, id: string, k: nat)
    requires k < |intents|
  {
    IsOpenFor(intents[k], id) && forall j :: 0 <= j < k ==> !IsOpenFor(intents[j], id)
  }

  /** Array.prototype.find over the listed intents. */
  function PendingOf(intents: seq<Intent>, id: string): (r: Option<Intent>)
    ensures r.Some? ==> r.value in intents && IsOpenFor(r.value, id)
    ensures r.None? <==> forall k :: 0 <= k < |intents| ==> !IsOpenFor(intents[k], id)
    ensures r.Some? ==> exists k :: 0 <= k < |intents| && IsFirstOpen(intents, id, k) && intents[k] == r.value
  {
    if intents == [] then None
    else if IsOpenFor(intents[0], id) then
      assert IsFirstOpen(intents, id, 0);
      Some(intents[0])
    else
      var rest := intents[1..];
      var r := PendingOf(rest, id);
      assert intents == [intents[0]] + rest;
      assert forall k :: 0 <= k < |rest| && IsFirstOpen(rest, id, k) ==> IsFirstOpen(intents, id, k + 1) by {
        assert forall k :: 0 <= k < |rest| ==> rest[k] == intents[k + 1];
      }
      r
  }

  function Listed(r: Registry, now: int): Registry {
    r.(intents := ExpireStale(r.intents, now))
  }

  function RegisterFirst(r: Registry, id: string, digest: string): Option<Registry> {
    if r.devices != map[] then None
    else Some(r.(devices := map[id := Device(Active, Some(Bundle(digest, 1)))]))
  }

  predicate HasActive(r: Registry) {
    exists id :: id in r.devices && r.devices[id].status.Active?
  }

  function RegisterPending(r: Registry, id: string, digest: string): Option<Registry> {
    if !HasActive(r) || id in r.devices then None
    else Some(r.(devices := r.devices[id := Device(PendingLink, Some(Bundle(digest, 1)))]))
  }

  function CreateChallenge(r: Registry, id: string): Option<Registry> {
    if id !in r.devices || !r.devices[id].status.Active? || r.devices[id].bundle.None? then None
    else Some(r.(challenges := r.challenges[id := r.devices[id].bundle.value]))
  }

  predicate ProofAccepted(r: Registry, id: string, digest: string, proof: Option<Proof>)
    requires id in r.devices && r.devices[id].bundle.Some?
  {
    && proof.Some? && id in r.challenges && r.challenges[id] == r.devices[id].bundle.value
    && proof.value.previous == r.challenges[id] && proof.value.newDigest == digest
  }

  /** A publication supersedes the bundle and, for a pending device, expires its pending intents. */
  function PublishBundle(r: Registry, id: string, digest: string, proof: Option<Proof>): Option<Registry> {
    if id !in r.devices || r.devices[id].status.Revoked? || r.devices[id].bundle.None? then None
    else if r.devices[id].status.Active? && !ProofAccepted(r, id, digest, proof) then None
    else
      var d := r.devices[id];
      Some(Registry(r.devices[id := d.(bundle := Some(Bundle(digest, d.bundle.value.version + 1)))],
                    if d.status.PendingLink? then ExpireOf(r.intents, id) else r.intents,
                    r.challenges - {id}))
  }

  function CreateIntent(r: Registry, id: string, intentId: string, now: int, ttl: nat): Option<Registry> {
    var intents := ExpireStale(r.intents, now);
    if id !in r.devices || !r.devices[id].status.PendingLink? || r.devices[id].bundle.None? then None
    else if PendingOf(intents, id).Some? then None
    else Some(r.(intents := [Intent(intentId, id, Pending, now + ttl)] + intents))
  }

  // ----- One action of the client -----

  /** The calls of one action, in order; each may fail, the server's commit notwithstanding. */
  datatype Call = Load | ListDevices | ListIntents | Register | SaveRegistered | RelistDevices | RelistIntents
                | GetDevice | Challenge | Publish | SavePublished | SaveConfirmed
                | NewIntent | ListNewIntent | SaveLinked | LastDevices | LastIntents
  datatype Fault = NoFault | FailsAt(call: Call, durable: bool)

  /**
   What the action draws from outside: the server's clock and ids, the digest of a rebuilt bundle,
   the call that fails, and the registry as other clients left it just before a call.
   */
  datatype Env = Env(now: int, ttl: nat, deviceId: string, digest: string, intentId: string, fault: Fault,
                     meanwhile: map<Call, Registry>)

  datatype Phase = Ready | AttentionRequired | Error
  datatype Snapshot = Snapshot(phase: Phase, local: Option<Local>, devices: map<string, Device>, intents: seq<Intent>,
                               bundle: Option<Bundle>)

  datatype Step<T> = Going(w: World, value: T) | Stopped(w: World)

  predicate Fails(e: Env, c: Call) {
    e.fault.FailsAt? && e.fault.call == c
  }

  predicate IsQuiet(e: Env) {
    e.meanwhile == map[]
  }

  predicate IsFaultless(e: Env) {
    e.fault == NoFault && IsQuiet(e)
  }

  /** The registry a call meets: others may have changed it, but devices do not vanish. */
  function Met(r: Registry, e: Env, c: Call): Registry {
    if c in e.meanwhile && r.devices.Keys <= e.meanwhile[c].devices.Keys then e.meanwhile[c] else r
  }

  function At(w: World, e: Env, c: Call): World {
    w.(registry := Met(w.registry, e, c))
  }

  function Cut<T>(e: Env, c: Call, before: World, after: World, value: T): Step<T> {
    if Fails(e, c) then Stopped(if e.fault.durable then after else before) else Going(after, value)
  }

  datatype Seen = Seen(local: Option<Local>, devices: map<string, Device>, intents: seq<Intent>, bundle: Option<Bundle>)

  /** listCryptoDeviceLinkIntents: the server expires what is stale first. */
  function ReadIntents(w: World, e: Env, c: Call): Step<seq<Intent>> {
    var met := At(w, e, c);
    var after := met.(registry := Listed(met.registry, e.now));
    Cut(e, c, met, after, after.registry.intents)
  }

  /** keyStore.save */
  function Save<T>(w: World, e: Env, c: Call, local: Local, value: T): Step<T> {
    Cut(e, c, w, w.(keystore := Some(local)), value)
  }

  function Relist(w: World, e: Env, devicesCall: Call, intentsCall: Call, local: Option<Local>, bundle: Option<Bundle>):
    Step<Seen>
  {
    var met := At(w, e, devicesCall);
    if Fails(e, devicesCall) then Stopped(met)
    else
      match ReadIntents(met, e, intentsCall)
      case Stopped(after) => Stopped(after)
      case Going(after, intents) => Going(after, Seen(local, met.registry.devices, intents, bundle))
  }

  function Open(w: World, e: Env): Step<Seen> {
    if Fails(e, Load) then Stopped(w) else Relist(w, e, ListDevices, ListIntents, w.keystore, None)
  }

  /** registerFirstDevice */
  function RegisterFirstDevice(w: World, e: Env): Step<Seen> {
    var met := At(w, e, Register);
    match RegisterFirst(met.registry, e.deviceId, e.digest)
    case None => Stopped(met)
    case Some(r) =>
      var local := Local(e.deviceId, Active, e.digest, 1, None, None);
      var registered := w.(registry := r, log := w.log + [FirstRegistered(e.deviceId)]);
      if Fails(e, Register) then Stopped(if e.fault.durable then registered else met)
      else
        match Save(registered, e, SaveRegistered, local, Bundle(e.digest, 1))
        case Stopped(after) => Stopped(after)
        case Going(saved, bundle) => Relist(saved, e, RelistDevices, RelistIntents, Some(local), Some(bundle))
  }

  /** publishBundleForLocalMaterial */
  function PublishLocal(w: World, e: Env, local: Local): Step<(Local, Bundle)> {
    if !local.status.Active? then PublishWith(w, e, local, None)
    else
      var met := At(w, e, Challenge);
      match CreateChallenge(met.registry, local.deviceId)
      case None => Stopped(met)
      case Some(r) =>
        var challenged := w.(registry := r);
        if Fails(e, Challenge) then Stopped(if e.fault.durable then challenged else met)
        else PublishWith(challenged, e, local, Some(Proof(r.challenges[local.deviceId], e.digest)))
  }

  function PublishWith(w: World, e: Env, local: Local, proof: Option<Proof>): Step<(Local, Bundle)> {
    var met := At(w, e, Publish);
    match PublishBundle(met.registry, local.deviceId, e.digest, proof)
    case None => Stopped(met)
    case Some(r) =>
      var published := w.(registry := r, log := w.log + [Published(local.deviceId)]);
      var device := r.devices[local.deviceId];
      var synced := local.(digest := e.digest, version := device.bundle.value.version, status := device.status);
      if Fails(e, Publish) then Stopped(if e.fault.durable then published else met)
      else Save(published, e, SavePublished, synced, (synced, device.bundle.value))
  }

  function NeedsPublish(d: Device, local: Local): bool {
    d.bundle.None? || d.bundle.value.digest != local.digest
  }

  /** The local record and the registry agree on the bundle, by publishing if they do not. */
  function Agree(w: World, e: Env, local: Local, remote: Status): Step<(Local, Bundle)>
    requires local.deviceId in w.registry.devices
  {
    var met := At(w, e, GetDevice);
    var details := met.registry.devices[local.deviceId];
    if Fails(e, GetDevice) then Stopped(met)
    else if NeedsPublish(details, local) then PublishLocal(met, e, local)
    else
      var bundle := details.bundle.value;
      var synced := local.(digest := bundle.digest, version := bundle.version, status := remote);
      Save(met, e, SaveConfirmed, synced, (synced, bundle))
  }

  function Linked(local: Local, intentId: string, expiresAt: int): Local {
    local.(status := PendingLink, linkIntent := Some(intentId), linkExpiresAt := Some(expiresAt))
  }

  function LinkTo(w: World, e: Env, local: Local, intentId: string, expiresAt: int): Step<Local> {
    var linked := Linked(local, intentId, expiresAt);
    Save(w, e, SaveLinked, linked, linked)
  }

  /** createCryptoDeviceLinkIntent */
  function OpenIntent(w: World, e: Env, id: string): Step<int> {
    var met := At(w, e, NewIntent);
    match CreateIntent(met.registry, id, e.intentId, e.now, e.ttl)
    case None => Stopped(met)
    case Some(r) => Cut(e, NewIntent, met, w.(registry := r, log := w.log + [IntentCreated(id)]), e.now + e.ttl)
  }

  function LinkAnew(w: World, e: Env, local: Local): Step<Local> {
    match OpenIntent(w, e, local.deviceId)
    case Stopped(after) => Stopped(after)
    case Going(created, expiresAt) =>
      match ReadIntents(created, e, ListNewIntent)
      case Stopped(after) => Stopped(after)
      case Going(listed, _) => LinkTo(listed, e, local, e.intentId, expiresAt)
  }

  /** A pending device gets a link intent, unless the list read at the start already shows one. */
  function Link(w: World, e: Env, local: Local, remote: Status, intents: seq<Intent>): Step<Local> {
    if !remote.PendingLink? then Going(w, local)
    else
      match PendingOf(intents, local.deviceId)
      case Some(i) => LinkTo(w, e, local, i.id, i.expiresAt)
      case None => LinkAnew(w, e, local)
  }

  /** What is read first; a first device is registered when keystore and registry are both empty. */
  function Begin(w: World, e: Env): (step: Step<Seen>)
    ensures step.Going? ==> step.value.local == step.w.keystore && step.value.intents == step.w.registry.intents
    ensures step.Going? ==> step.value.devices.Keys <= step.w.registry.devices.Keys
    ensures step.Going? && IsQuiet(e) ==> step.value.devices == step.w.registry.devices
  {
    match Open(w, e)
    case Stopped(after) => Stopped(after)
    case Going(read, seen) =>
      if seen.local.None? && seen.devices == map[] then RegisterFirstDevice(read, e) else Going(read, seen)
  }

  /** The whole of synchronizeSession: the last thing seen, or where it stopped. */
  function Steps(w: World, e: Env): Step<Seen> {
    match Begin(w, e)
    case Stopped(after) => Stopped(after)
    case Going(begun, seen) =>
      if seen.local.None? || seen.local.value.deviceId !in seen.devices then Going(begun, seen)
      else StepsLocal(begun, e, seen)
  }

  function StepsLocal(w: World, e: Env, seen: Seen): Step<Seen>
    requires seen.local.Some? && seen.local.value.deviceId in seen.devices
    requires seen.devices.Keys <= w.registry.devices.Keys
  {
    var local, remote := seen.local.value, seen.devices[seen.local.value.deviceId].status;
    match Agree(w, e, local, remote)
    case Stopped(w1) => Stopped(w1)
    case Going(w1, agreed) =>
      match Link(w1, e, agreed.0, remote, seen.intents)
      case Stopped(w2) => Stopped(w2)
      case Going(w2, linked) => Relist(w2, e, LastDevices, LastIntents, Some(linked), Some(agreed.1))
  }

  function SnapshotOf(seen: Seen): Snapshot {
    if seen.local.Some? && seen.local.value.deviceId !in seen.devices then
      Snapshot(Error, seen.local, seen.devices, seen.intents, None)
    else
      var phase := if seen.local.None? && exists id :: id in seen.devices && seen.devices[id].status.Active?
                   then AttentionRequired else Ready;
      Snapshot(phase, seen.local, seen.devices, seen.intents, seen.bundle)
  }

  function Synchronize(w: World, e: Env): (World, Snapshot) {
    match Steps(w, e)
    case Going(after, seen) => (after, SnapshotOf(seen))
    case Stopped(after) => (after, ErrorSnapshot(after.keystore))
  }

  function ErrorSnapshot(keystore: Option<Local>): Snapshot {
    Snapshot(Error, keystore, map[], [], None)
  }

  /** A pending device is registered, gets its intent, and is stored. */
  function RegisterPendingDevice(w: World, e: Env): Step<Local> {
    var met := At(w, e, Register);
    match RegisterPending(met.registry, e.deviceId, e.digest)
    case None => Stopped(met)
    case Some(r) =>
      var registered := w.(registry := r, log := w.log + [PendingRegistered(e.deviceId)]);
      if Fails(e, Register) then Stopped(if e.fault.durable then registered else met)
      else
        match OpenIntent(registered, e, e.deviceId)
        case Stopped(after) => Stopped(after)
        case Going(created, expiresAt) =>
          var local := Local(e.deviceId, PendingLink, e.digest, 1, Some(e.intentId), Some(expiresAt));
          Save(created, e, SaveLinked, local, local)
  }

  /** createPendingLinkedDevice: its own calls may fail as e says, those of the closing synchronisation as next says. */
  function CreatePending(w: World, e: Env, next: Env): (World, Snapshot) {
    var met := At(w, e, ListDevices);
    if Fails(e, Load) then (w, ErrorSnapshot(w.keystore))
    else if w.keystore.Some? then Synchronize(w, next)
    else if Fails(e, ListDevices) then (met, ErrorSnapshot(w.keystore))
    else if !HasActive(met.registry) then Synchronize(met, next)
    else
      match RegisterPendingDevice(met, e)
      case Stopped(after) => (after, ErrorSnapshot(after.keystore))
      case Going(after, _) => Synchronize(after, next)
  }

  /** publishCurrentBundle */
  function PublishCurrent(w: World, e: Env, next: Env): (World, Snapshot) {
    if Fails(e, Load) then (w, ErrorSnapshot(w.keystore))
    else if w.keystore.None? then Synchronize(w, next)
    else
      match PublishLocal(w, e, w.keystore.value)
      case Stopped(after) => (after, ErrorSnapshot(after.keystore))
      case Going(after, _) => Synchronize(after, next)
  }

  // ----- The same, as the runtime does it -----

  /** The method left the world of the step, and returned its value or, if it stopped, nothing. */
  ghost predicate Did<T>(step: Step<T>, after: World, r: Option<T>) {
    after == step.w && (r.Some? <==> step.Going?) && (r.Some? ==> r.value == step.value)
  }

  class RuntimeCore {
    var keystore: Option<Local>
    var registry: Registry
    var log: seq<Write>

    ghost function State(): World
      reads this
    {
      World(keystore, registry, log)
    }

    constructor (w: World)
      ensures State() == w
    {
      keystore, registry, log := w.keystore, w.registry, w.log;
    }

    method ReadLinkIntents(e: Env, c: Call) returns (intents: Option<seq<Intent>>)
      modifies this`registry
      ensures Did(ReadIntents(old(State()), e, c), State(), intents)
    {
      registry := Met(registry, e, c);
      if Fails(e, c) && !e.fault.durable { return None; }
      registry := Listed(registry, e.now);
      if Fails(e, c) { return None; }
      return Some(registry.intents);
    }

    method SaveLocal<T>(e: Env, c: Call, local: Local, value: T) returns (r: Option<T>)
      modifies this`keystore
      ensures Did(Save(old(State()), e, c, local, value), State(), r)
    {
      if Fails(e, c) && !e.fault.durable { return None; }
      keystore := Some(local);
      if Fails(e, c) { return None; }
      return Some(value);
    }

    /** Two list calls; None when one of them throws. */
    method Read(e: Env, devicesCall: Call, intentsCall: Call, local: Option<Local>, bundle: Option<Bundle>)
      returns (seen: Option<Seen>)
      modifies this`registry
      ensures Did(Relist(old(State()), e, devicesCall, intentsCall, local, bundle), State(), seen)
    {
      registry := Met(registry, e, devicesCall);
      if Fails(e, devicesCall) { return None; }
      var devices := registry.devices;
      var intents := ReadLinkIntents(e, intentsCall);
      if intents.None? { return None; }
      return Some(Seen(local, devices, intents.value, bundle));
    }

    method RegisterFirstCryptoDevice(e: Env) returns (seen: Option<Seen>)
      modifies this
      ensures Did(RegisterFirstDevice(old(State()), e), State(), seen)
    {
      registry := Met(registry, e, Register);
      var registered := RegisterFirst(registry, e.deviceId, e.digest);
      if registered.None? || (Fails(e, Register) && !e.fault.durable) { return None; }
      registry, log := registered.value, log + [FirstRegistered(e.deviceId)];
      if Fails(e, Register) { return None; }
      var local := Local(e.deviceId, Active, e.digest, 1, None, None);
      var bundle := SaveLocal(e, SaveRegistered, local, Bundle(e.digest, 1));
      if bundle.None? { return None; }
      seen := Read(e, RelistDevices, RelistIntents, Some(local), bundle);
    }

    method PublishBundleForLocalMaterial(e: Env, local: Local) returns (r: Option<(Local, Bundle)>)
      modifies this
      ensures Did(PublishLocal(old(State()), e, local), State(), r)
    {
      var proof: Option<Proof> := None;
      if local.status.Active? {
        registry := Met(registry, e, Challenge);
        var challenged := CreateChallenge(registry, local.deviceId);
        if challenged.None? || (Fails(e, Challenge) && !e.fault.durable) { return None; }
        registry := challenged.value;
        if Fails(e, Challenge) { return None; }
        proof := Some(Proof(registry.challenges[local.deviceId], e.digest));
      }
      registry := Met(registry, e, Publish);
      var published := PublishBundle(registry, local.deviceId, e.digest, proof);
      if published.None? || (Fails(e, Publish) && !e.fault.durable) { return None; }
      registry, log := published.value, log + [Published(local.deviceId)];
      if Fails(e, Publish) { return None; }
      var device := registry.devices[local.deviceId];
      var synced := local.(digest := e.digest, version := device.bundle.value.version, status := device.status);
      r := SaveLocal(e, SavePublished, synced, (synced, device.bundle.value));
    }

    method AgreeOnBundle(e: Env, local: Local, remote: Status) returns (r: Option<(Local, Bundle)>)
      requires local.deviceId in registry.devices
      modifies this
      ensures Did(Agree(old(State()), e, local, remote), State(), r)
    {
      registry := Met(registry, e, GetDevice);
      if Fails(e, GetDevice) { return None; }
      var details := registry.devices[local.deviceId];
      if details.bundle.None? || details.bundle.value.digest != local.digest {
        r := PublishBundleForLocalMaterial(e, local);
        return;
      }
      var bundle := details.bundle.value;
      var synced := local.(digest := bundle.digest, version := bundle.version, status := remote);
      r := SaveLocal(e, SaveConfirmed, synced, (synced, bundle));
    }

    method CreateLinkIntent(e: Env, id: string) returns (expiresAt: Option<int>)
      modifies this`registry, this`log
      ensures Did(OpenIntent(old(State()), e, id), State(), expiresAt)
    {
      registry := Met(registry, e, NewIntent);
      var created := CreateIntent(registry, id, e.intentId, e.now, e.ttl);
      if created.None? || (Fails(e, NewIntent) && !e.fault.durable) { return None; }
      registry, log := created.value, log + [IntentCreated(id)];
      if Fails(e, NewIntent) { return None; }
      return Some(e.now + e.ttl);
    }

    method LinkToNewIntent(e: Env, local: Local) returns (r: Option<Local>)
      modifies this
      ensures Did(LinkAnew(old(State()), e, local), State(), r)
    {
      var expiresAt := CreateLinkIntent(e, local.deviceId);
      if expiresAt.None? { return None; }
      var listed := ReadLinkIntents(e, ListNewIntent);
      if listed.None? { return None; }
      var linked := Linked(local, e.intentId, expiresAt.value);
      r := SaveLocal(e, SaveLinked, linked, linked);
    }

    method LinkPending(e: Env, local: Local, remote: Status, linkIntents: seq<Intent>) returns (r: Option<Local>)
      modifies this
      ensures Did(Link(old(State()), e, local, remote, linkIntents), State(), r)
    {
      if !remote.PendingLink? { return Some(local); }
      var matching := PendingOf(linkIntents, local.deviceId);
      if matching.None? {
        r := LinkToNewIntent(e, local);
      } else {
        var linked := Linked(local, matching.value.id, matching.value.expiresAt);
        r := SaveLocal(e, SaveLinked, linked, linked);
      }
    }

    /** The part of synchronizeSession for a device the registry knows. */
    method SynchronizeDevice(e: Env, seen: Seen) returns (last: Option<Seen>)
      requires seen.local.Some? && seen.local.value.deviceId in seen.devices
      requires seen.devices.Keys <= registry.devices.Keys
      modifies this
      ensures Did(StepsLocal(old(State()), e, seen), State(), last)
    {
      var local, remote := seen.local.value, seen.devices[seen.local.value.deviceId].status;
      var agreed := AgreeOnBundle(e, local, remote);
      if agreed.None? { return None; }
      var linked := LinkPending(e, agreed.value.0, remote, seen.intents);
      if linked.None? { return None; }
      last := Read(e, LastDevices, LastIntents, Some(linked.value), Some(agreed.value.1));
    }

    /** The reads that synchronizeSession starts with. */
    method BeginSession(e: Env) returns (seen: Option<Seen>)
      modifies this
      ensures Did(Begin(old(State()), e), State(), seen)
    {
      if Fails(e, Load) { return None; }
      seen := Read(e, ListDevices, ListIntents, keystore, None);
      if seen.None? { return None; }
      if seen.value.local.None? && seen.value.devices == map[] {
        seen := RegisterFirstCryptoDevice(e);
      }
    }

    /** synchronizeSession */
    method SynchronizeSession(e: Env) returns (s: Snapshot)
      modifies this
      ensures (State(), s) == Synchronize(old(State()), e)
    {
      var seen := BeginSession(e);
      if seen.None? { return ErrorSnapshot(keystore); }
      if seen.value.local.Some? && seen.value.local.value.deviceId in seen.value.devices {
        seen := SynchronizeDevice(e, seen.value);
        if seen.None? { return ErrorSnapshot(keystore); }
      }
      return SnapshotOf(seen.value);
    }
  }
}
