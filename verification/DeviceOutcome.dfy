/**
 What a synchronisation reports and what it leaves behind: the phase, the lists in the snapshot, the
 link intent in the saved record, and the devices of the registry.
 */
module DeviceOutcome {
  import opened Wrappers
  import opened DeviceSync
  import opened DeviceFixpoint

  // ----- What was last seen is what is there -----

  /** The lists are the registry's, the record is the keystore's. */
  ghost predicate Sees(w: World, seen: Seen) {
    seen.devices == w.registry.devices && seen.intents == w.registry.intents && seen.local == w.keystore
  }

  lemma RelistSees(w: World, e: Env, devicesCall: Call, intentsCall: Call, bundle: Option<Bundle>)
    requires IsQuiet(e)
    ensures var step := Relist(w, e, devicesCall, intentsCall, w.keystore, bundle);
            && step.w.registry.devices == w.registry.devices && step.w.keystore == w.keystore
            && (step.Going? ==> Sees(step.w, step.value))
  {
    QuietAt(w, e, devicesCall);
    QuietAt(w, e, intentsCall);
  }

  lemma BeginSees(w: World, e: Env)
    requires IsQuiet(e)
    ensures Begin(w, e).Going? ==> Sees(Begin(w, e).w, Begin(w, e).value)
  {}

  lemma LocalStepsSee(w: World, e: Env, seen: Seen)
    requires IsQuiet(e) && Sees(w, seen)
    requires seen.local.Some? && seen.local.value.deviceId in seen.devices && StepsLocal(w, e, seen).Going?
    ensures Sees(StepsLocal(w, e, seen).w, StepsLocal(w, e, seen).value)
    ensures StepsLocal(w, e, seen).value.local.Some?
    ensures StepsLocal(w, e, seen).value.local.value.deviceId in StepsLocal(w, e, seen).value.devices
  {
    var local := seen.local.value;
    AgreeAgrees(w, e, local);
    var agreed := Agree(w, e, local, w.registry.devices[local.deviceId].status);
    LinkAgrees(agreed.w, e, agreed.value.0, seen.intents);
    var linked := Link(agreed.w, e, agreed.value.0, agreed.value.0.status, seen.intents);
    RelistSees(linked.w, e, LastDevices, LastIntents, Some(agreed.value.1));
  }

  lemma StepsSee(w: World, e: Env)
    requires IsQuiet(e) && Steps(w, e).Going?
    ensures Sees(Steps(w, e).w, Steps(w, e).value)
  {
    BeginSees(w, e);
    var begun := Begin(w, e);
    if begun.value.local.Some? && begun.value.local.value.deviceId in begun.value.devices {
      LocalStepsSee(begun.w, e, begun.value);
    }
  }

  lemma StoppedKeepsRecord(w: World, e: Env)
    requires Steps(w, e).Stopped?
    ensures Synchronize(w, e).1.local == Synchronize(w, e).0.keystore
    ensures Synchronize(w, e).1.devices == map[] && Synchronize(w, e).1.intents == []
    ensures Synchronize(w, e).1.bundle.None? && Synchronize(w, e).1.phase.Error?
  {}

  // ----- The phase -----

  ghost predicate HasActiveDevice(r: Registry) {
    exists id :: id in r.devices && r.devices[id].status.Active?
  }

  /** The keystore has a device the registry does not know. */
  ghost predicate IsUnknown(w: World) {
    w.keystore.Some? && w.keystore.value.deviceId !in w.registry.devices
  }

  /**
   While others leave the registry alone: attention is required exactly when the synchronisation
   ended well, the keystore is empty and the registry has an active device; ready is every other
   good end. A good end shows the registry as it is. A bad one shows no bundle, and either nothing
   of the registry or, for a device the registry does not know, all of it.
   */
  lemma PhaseExactly(w: World, e: Env)
    requires IsQuiet(e)
    ensures var (after, s) := Synchronize(w, e);
            && s.local == after.keystore
            && (s.phase.AttentionRequired? <==>
                !s.phase.Error? && after.keystore.None? && HasActiveDevice(after.registry))
            && (s.phase.Ready? <==>
                !s.phase.Error? && (after.keystore.Some? || !HasActiveDevice(after.registry)))
            && (!s.phase.Error? ==> !IsUnknown(after) && s.devices == after.registry.devices &&
                                    s.intents == after.registry.intents)
            && (s.phase.Error? ==> s.bundle.None? &&
                                   ((s.devices == map[] && s.intents == []) ||
                                    (IsUnknown(after) && s.devices == after.registry.devices &&
                                     s.intents == after.registry.intents)))
  {
    if Steps(w, e).Going? {
      StepsSee(w, e);
    } else {
      StoppedKeepsRecord(w, e);
    }
  }

  // ----- The intent in the record -----

  /** The intent the record names, and until when. */
  ghost predicate NamesIntent(local: Local, id: string, expiresAt: int) {
    local.linkIntent == Some(id) && local.linkExpiresAt == Some(expiresAt)
  }

  ghost predicate SameLink(a: Local, b: Local) {
    a.linkIntent == b.linkIntent && a.linkExpiresAt == b.linkExpiresAt
  }

  lemma AgreeKeepsLink(w: World, e: Env, local: Local, remote: Status)
    requires local.deviceId in w.registry.devices && Agree(w, e, local, remote).Going?
    ensures SameLink(Agree(w, e, local, remote).value.0, local)
  {}

  lemma LinkedNames(w: World, e: Env, local: Local, intents: seq<Intent>)
    requires IsQuiet(e) && e.ttl > 0 && Agreed(w) && w.keystore == Some(local) && local.status.PendingLink?
    requires Link(w, e, local, local.status, intents).Going?
    ensures var step, found := Link(w, e, local, local.status, intents), PendingOf(intents, local.deviceId);
            && step.w.keystore == Some(step.value)
            && (found.Some? ==> NamesIntent(step.value, found.value.id, found.value.expiresAt))
            && (found.None? ==>
                  NamesIntent(step.value, e.intentId, e.now + e.ttl) &&
                  PendingOf(step.w.registry.intents, local.deviceId) ==
                  Some(Intent(e.intentId, local.deviceId, Pending, e.now + e.ttl)))
  {
    QuietAt(w, e, NewIntent);
    if PendingOf(intents, local.deviceId).None? {
      var created := OpenIntent(w, e, local.deviceId);
      QuietAt(created.w, e, ListNewIntent);
      var made := Intent(e.intentId, local.deviceId, Pending, e.now + e.ttl);
      assert created.w.registry.intents[0] == made;
      assert ExpireStale(created.w.registry.intents, e.now)[0] == made;
    }
  }

  lemma LastListKeepsIntent(w: World, e: Env, local: Local, bundle: Option<Bundle>, made: Intent)
    requires IsQuiet(e) && PendingOf(w.registry.intents, made.deviceId) == Some(made) && made.expiresAt > e.now
    ensures PendingOf(Relist(w, e, LastDevices, LastIntents, Some(local), bundle).w.registry.intents, made.deviceId) ==
            Some(made)
  {
    QuietAt(w, e, LastDevices);
    QuietAt(w, e, LastIntents);
    StillFirst(w.registry.intents, e.now, made);
  }

  lemma {:induction false} StillFirst(intents: seq<Intent>, now: int, made: Intent)
    requires PendingOf(intents, made.deviceId) == Some(made) && made.expiresAt > now
    ensures PendingOf(ExpireStale(intents, now), made.deviceId) == Some(made)
  {
    var later := ExpireStale(intents, now);
    var k :| 0 <= k < |intents| && IsFirstOpen(intents, made.deviceId, k) && intents[k] == made;
    assert later[k] == made && IsFirstOpen(later, made.deviceId, k);
    FirstOpenIsFound(later, made.deviceId, k);
  }

  lemma FirstOpenIsFound(intents: seq<Intent>, id: string, k: nat)
    requires k < |intents| && IsFirstOpen(intents, id, k)
    ensures PendingOf(intents, id) == Some(intents[k])
  {
    var j :| 0 <= j < |intents| && IsFirstOpen(intents, id, j) && Some(intents[j]) == PendingOf(intents, id);
  }

  lemma LocalStepsLink(w: World, e: Env, seen: Seen)
    requires IsQuiet(e) && e.ttl > 0 && Sees(w, seen)
    requires seen.local.Some? && seen.local.value.deviceId in seen.devices && StepsLocal(w, e, seen).Going?
    ensures var id, after := seen.local.value.deviceId, StepsLocal(w, e, seen).w;
            var found := PendingOf(seen.intents, id);
            && after.keystore.Some?
            && (!IsPending(w) ==> SameLink(after.keystore.value, seen.local.value))
            && (IsPending(w) && found.Some? ==>
                  NamesIntent(after.keystore.value, found.value.id, found.value.expiresAt))
            && (IsPending(w) && found.None? ==>
                  NamesIntent(after.keystore.value, e.intentId, e.now + e.ttl) &&
                  PendingOf(after.registry.intents, id) == Some(Intent(e.intentId, id, Pending, e.now + e.ttl)))
  {
    var local := seen.local.value;
    AgreeAgrees(w, e, local);
    AgreeKeepsLink(w, e, local, w.registry.devices[local.deviceId].status);
    var agreed := Agree(w, e, local, w.registry.devices[local.deviceId].status);
    LinkAgrees(agreed.w, e, agreed.value.0, seen.intents);
    var linked := Link(agreed.w, e, agreed.value.0, agreed.value.0.status, seen.intents);
    RelistSees(linked.w, e, LastDevices, LastIntents, Some(agreed.value.1));
    if IsPending(w) {
      LinkedNames(agreed.w, e, agreed.value.0, seen.intents);
      if PendingOf(seen.intents, local.deviceId).None? {
        var made := Intent(e.intentId, local.deviceId, Pending, e.now + e.ttl);
        LastListKeepsIntent(linked.w, e, linked.value, Some(agreed.value.1), made);
      }
    }
  }

  /**
   After a good end for a pending device the saved record names an intent and its expiry: the first
   open one that was listed, or the one just created, which is then open in the registry. For any
   other device the record's intent stays what it was.
   */
  lemma RecordNamesIntent(w: World, e: Env)
    requires IsQuiet(e) && e.ttl > 0 && w.keystore.Some? && !Synchronize(w, e).1.phase.Error?
    ensures var id, after := w.keystore.value.deviceId, Synchronize(w, e).0;
            var found := PendingOf(ExpireStale(w.registry.intents, e.now), id);
            && after.keystore.Some?
            && (!IsPending(w) ==> SameLink(after.keystore.value, w.keystore.value))
            && (IsPending(w) && found.Some? ==>
                  NamesIntent(after.keystore.value, found.value.id, found.value.expiresAt))
            && (IsPending(w) && found.None? ==>
                  NamesIntent(after.keystore.value, e.intentId, e.now + e.ttl) &&
                  PendingOf(after.registry.intents, id) == Some(Intent(e.intentId, id, Pending, e.now + e.ttl)))
  {
    var begun := Begin(w, e);
    BeginSees(w, e);
    BeginLists(w, e);
    LocalStepsLink(begun.w, e, begun.value);
  }

  lemma BeginLists(w: World, e: Env)
    requires IsQuiet(e) && w.keystore.Some? && Begin(w, e).Going?
    ensures Begin(w, e).w == ListedAt(w, e.now) && Begin(w, e).value.local == w.keystore
  {
    QuietAt(w, e, ListDevices);
    QuietAt(w, e, ListIntents);
  }

  // ----- The devices of the registry -----

  /** The one device of the record has the rebuilt bundle at the next version; everything else is as it was. */
  ghost function WithRebuilt(w: World, digest: string): map<string, Device>
    requires w.keystore.Some? && w.keystore.value.deviceId in w.registry.devices
    requires w.registry.devices[w.keystore.value.deviceId].bundle.Some?
  {
    var id := w.keystore.value.deviceId;
    var d := w.registry.devices[id];
    w.registry.devices[id := Device(d.status, Some(Bundle(digest, d.bundle.value.version + 1)))]
  }

  lemma AgreeDevices(w: World, e: Env)
    requires IsFaultless(e) && w.keystore.Some? && Healthy(w)
    ensures var local := w.keystore.value;
            Agree(w, e, local, w.registry.devices[local.deviceId].status).w.registry.devices ==
            if Publishes(w) then WithRebuilt(w, e.digest) else w.registry.devices
  {}

  /** A synchronisation publishes the rebuilt bundle if the digests differ, and touches nothing else. */
  lemma DevicesAfter(w: World, e: Env)
    requires IsFaultless(e) && w.keystore.Some? && Healthy(w)
    ensures Synchronize(w, e).0.registry.devices ==
            if Publishes(w) then WithRebuilt(w, e.digest) else w.registry.devices
  {
    BeginFaultless(w, e);
    BeginSees(w, e);
    var begun := Begin(w, e);
    var local := w.keystore.value;
    LocalStepsFaultless(begun.w, e, begun.value);
    AgreeDevices(begun.w, e);
    AgreeAgrees(begun.w, e, local);
    var agreed := Agree(begun.w, e, local, begun.w.registry.devices[local.deviceId].status);
    LinkAgrees(agreed.w, e, agreed.value.0, begun.value.intents);
    var linked := Link(agreed.w, e, agreed.value.0, agreed.value.0.status, begun.value.intents);
    RelistSees(linked.w, e, LastDevices, LastIntents, Some(agreed.value.1));
  }

  // ----- New devices -----

  lemma BeginsAnew(w: World, e: Env)
    requires IsFaultless(e) && StartsEmpty(w)
    ensures var w1 := Begin(w, e).w;
            && w1.registry.devices == map[e.deviceId := Device(Active, Some(Bundle(e.digest, 1)))]
            && w1.keystore == Some(Local(e.deviceId, Active, e.digest, 1, None, None))
  {}

  lemma ActiveStepsKeep(w: World, e: Env, seen: Seen)
    requires IsFaultless(e) && Sees(w, seen) && Agreed(w) && w.keystore.value.status.Active?
    ensures var step := StepsLocal(w, e, seen);
            step.Going? && step.w.registry.devices == w.registry.devices && step.w.keystore == w.keystore
  {}

  /**
   The first device of an account is active, with the new bundle as version 1, and the saved record
   says the same of it.
   */
  lemma FirstDeviceExactly(w: World, e: Env)
    requires IsFaultless(e) && StartsEmpty(w)
    ensures var after := Synchronize(w, e).0;
            && after.registry.devices == map[e.deviceId := Device(Active, Some(Bundle(e.digest, 1)))]
            && after.keystore == Some(Local(e.deviceId, Active, e.digest, 1, None, None))
  {
    BeginFaultless(w, e);
    BeginSees(w, e);
    BeginsAnew(w, e);
    ActiveStepsKeep(Begin(w, e).w, e, Begin(w, e).value);
  }

  lemma PairedExactly(w: World, e: Env)
    requires IsFaultless(e) && e.ttl > 0
    requires HasActive(w.registry) && e.deviceId !in w.registry.devices
    requires PendingOf(w.registry.intents, e.deviceId).None?
    ensures var step, made := RegisterPendingDevice(w, e), Intent(e.intentId, e.deviceId, Pending, e.now + e.ttl);
            && step.Going?
            && step.w.registry.devices ==
               w.registry.devices[e.deviceId := Device(PendingLink, Some(Bundle(e.digest, 1)))]
            && step.w.registry.intents == [made] + ExpireStale(w.registry.intents, e.now)
            && step.w.keystore ==
               Some(Local(e.deviceId, PendingLink, e.digest, 1, Some(e.intentId), Some(e.now + e.ttl)))
  {
    NoneLeftAfterExpiry(w.registry.intents, e.deviceId, e.now);
  }

  /**
   A browser without keys that joins an account with an active device registers one pending device,
   leaves the others alone, and saves the record that names its intent.
   */
  lemma PairingExactly(w: World, e: Env, next: Env)
    requires IsFaultless(e) && IsFaultless(next) && e.ttl > 0 && next.ttl > 0 && next.now < e.now + e.ttl
    requires w.keystore.None? && HasActiveDevice(w.registry) && e.deviceId !in w.registry.devices
    requires PendingOf(w.registry.intents, e.deviceId).None?
    ensures var (after, s) := CreatePending(w, e, next);
            && s.phase.Ready?
            && after.registry.devices ==
               w.registry.devices[e.deviceId := Device(PendingLink, Some(Bundle(e.digest, 1)))]
            && NamesIntent(after.keystore.value, e.intentId, e.now + e.ttl)
            && after.keystore.value.digest == e.digest && after.keystore.value.status.PendingLink?
  {
    PairedExactly(w, e);
    var paired := RegisterPendingDevice(w, e).w;
    var made := Intent(e.intentId, e.deviceId, Pending, e.now + e.ttl);
    assert paired.registry.intents[0] == made && ExpireStale(paired.registry.intents, next.now)[0] == made;
    SucceedsExactly(paired, next);
    PhaseExactly(paired, next);
    DevicesAfter(paired, next);
    RecordNamesIntent(paired, next);
    SuccessMeansAgreement(paired, next);
  }

  // ----- Publishing on demand -----

  /** The registry takes a publication of the record: the device has a bundle and its recorded standing. */
  ghost predicate MayPublish(w: World) {
    w.keystore.Some? && w.keystore.value.deviceId in w.registry.devices &&
    var d := w.registry.devices[w.keystore.value.deviceId];
    d.bundle.Some? && !d.status.Revoked? && (d.status.Active? ==> w.keystore.value.status.Active?) &&
    (w.keystore.value.status.Active? ==> d.status.Active?)
  }

  lemma PublishOnce(w: World, e: Env)
    requires IsFaultless(e) && w.keystore.Some?
    ensures var local, step := w.keystore.value, PublishLocal(w, e, w.keystore.value);
            && (step.Going? <==> MayPublish(w))
            && (step.Going? ==> step.w.registry.devices == WithRebuilt(w, e.digest) &&
                                step.w.log == w.log + [Published(local.deviceId)])
            && (step.Stopped? ==> step.w == w)
  {}

  /**
   publishCurrentBundle without failing calls: one publication at the next version, and one only,
   if the registry takes it; otherwise an error, and nothing happened.
   */
  lemma PublishCurrentExactly(w: World, e: Env, next: Env)
    requires IsFaultless(e) && IsFaultless(next) && w.keystore.Some?
    ensures var (after, s) := PublishCurrent(w, e, next);
            && (s.phase != Error <==> MayPublish(w))
            && (MayPublish(w) ==> after.registry.devices == WithRebuilt(w, e.digest))
            && (!MayPublish(w) ==> after == w)
  {
    PublishOnce(w, e);
    if MayPublish(w) {
      PublishAgrees(w, e, w.keystore.value);
      var published := PublishLocal(w, e, w.keystore.value).w;
      SucceedsExactly(published, next);
      DevicesAfter(published, next);
    }
  }

  // ----- The proof of a publication -----

  /** Right after a challenge exactly the proof over the current bundle and the new digest is accepted. */
  lemma ProofAcceptedExactly(r: Registry, id: string, digest: string, proof: Proof)
    requires CreateChallenge(r, id).Some?
    ensures PublishBundle(CreateChallenge(r, id).value, id, digest, Some(proof)).Some? <==>
            proof == Proof(r.devices[id].bundle.value, digest)
    ensures PublishBundle(CreateChallenge(r, id).value, id, digest, None).None?
  {}

  /** And a challenge serves one publication: the next one of an active device needs another. */
  lemma ChallengeServesOnce(r: Registry, id: string, digest: string, proof: Option<Proof>, again: string,
                            other: Option<Proof>)
    requires PublishBundle(r, id, digest, proof).Some? && r.devices[id].status.Active?
    ensures PublishBundle(PublishBundle(r, id, digest, proof).value, id, again, other).None?
  {}

  // ----- What the server guards -----

  /** No device has two open intents. */
  ghost predicate OneOpenEach(intents: seq<Intent>) {
    forall i, j, id :: 0 <= i < j < |intents| ==> !(IsOpenFor(intents[i], id) && IsOpenFor(intents[j], id))
  }

  /** Every operation of the registry keeps it that way. */
  lemma OneOpenKept(r: Registry, id: string, digest: string, intentId: string, now: int, ttl: nat,
                    proof: Option<Proof>)
    requires OneOpenEach(r.intents)
    ensures OneOpenEach(Listed(r, now).intents)
    ensures CreateIntent(r, id, intentId, now, ttl).Some? ==>
              OneOpenEach(CreateIntent(r, id, intentId, now, ttl).value.intents)
    ensures PublishBundle(r, id, digest, proof).Some? ==>
              OneOpenEach(PublishBundle(r, id, digest, proof).value.intents)
  {
    var stale := ExpireStale(r.intents, now);
    assert OneOpenEach(stale);
    if CreateIntent(r, id, intentId, now, ttl).Some? {
      var made := Intent(intentId, id, Pending, now + ttl);
      var more := [made] + stale;
      forall i, j, other | 0 <= i < j < |more| ensures !(IsOpenFor(more[i], other) && IsOpenFor(more[j], other)) {
        assert more[j] == stale[j - 1];
        if i > 0 { assert more[i] == stale[i - 1]; }
      }
    }
  }

  /** An intent is opened for a pending device only, a pending device is registered beside an active one only. */
  lemma ServerRefuses(r: Registry, id: string, digest: string, intentId: string, now: int, ttl: nat)
    ensures CreateIntent(r, id, intentId, now, ttl).Some? ==> id in r.devices && r.devices[id].status.PendingLink?
    ensures RegisterPending(r, id, digest).Some? ==> HasActiveDevice(r) && id !in r.devices
    ensures RegisterFirst(r, id, digest).Some? <==> r.devices == map[]
  {}

  /** What is listed has no pending intent past its time, and every other intent as it was. */
  lemma ListedExactly(r: Registry, now: int, k: nat)
    requires k < |r.intents|
    ensures var i, listed := r.intents[k], Listed(r, now).intents;
            && |listed| == |r.intents| && (listed[k].status.Pending? ==> listed[k].expiresAt > now)
            && (listed[k] == i || (i.status.Pending? && i.expiresAt <= now && listed[k] == i.(status := Expired)))
  {}
}
