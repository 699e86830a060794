/**
 Pairing from end to end: the Mac's coordinator (CompanionPairingSession.swift), the phone's opener and import store
 (PairingHandoffOpener.swift, DefaultPairingHandoffImporter.swift), at-most-once on both ends over every run, and the
 transfer of the vault.
 */
module Pairing {
  import opened Basics
  import opened VaultSession
  import opened PairingHandoff
  import opened ImportStore

  // ---------------------------------------------------------------------------------------------
  // The Mac's coordinator.
  // ---------------------------------------------------------------------------------------------

  datatype Invite = Invite(
    version: int, sessionId: string, sessionNonce: string, sourceDeviceId: string, sourceDeviceDisplayName: string,
    createdAt: int, expiresAt: int)

  datatype PairingError = Expired | InvalidRequest | LockedVault | Replayed

  datatype Coordinator = Coordinator(pendingSessions: map<string, Invite>, consumedSessionIds: set<string>)

  /** The arguments of `startSession`, the ids its generators yield, and its two clock readings. */
  datatype StartCall = StartCall(
    sourceDeviceId: string, displayName: string, ttl: int, newId: string, newNonce: string, sessionNow: int, now: int)

  /** The arguments of `completeSession`, its clock readings, and the random key and nonce of the handoff. */
  datatype CompleteCall = CompleteCall(
    sessionId: string, sessionNonce: string, target: Target, now: int, sessionNow: int,
    senderKey: PrivateKey, nonce: Bytes)

  function InviteFor(c: StartCall): Invite {
    Invite(1, c.newId, c.newNonce, c.sourceDeviceId, c.displayName, c.now, c.now + c.ttl)
  }

  function StartOf(k: Coordinator, s: Session, c: StartCall): (Coordinator, Session, Result<Invite, PairingError>) {
    if c.ttl <= 0 || c.sourceDeviceId == "" || c.displayName == "" then (k, s, Err(InvalidRequest))
    else if !s.IsUnlocked(c.sessionNow) then (k, s.Settled(c.sessionNow), Err(LockedVault))
    else
      (k.(pendingSessions := k.pendingSessions[c.newId := InviteFor(c)]), s.Settled(c.sessionNow), Ok(InviteFor(c)))
  }

  function CompleteOf(
    k: Coordinator, s: Session, c: CompleteCall, p: Platform)
    : (Coordinator, Session, Result<Handoff, PairingError>)
  {
    var without := k.(pendingSessions := k.pendingSessions - {c.sessionId});
    if c.sessionId in k.consumedSessionIds then (k, s, Err(Replayed))
    else if c.sessionId !in k.pendingSessions || k.pendingSessions[c.sessionId].sessionNonce != c.sessionNonce then
      (k, s, Err(InvalidRequest))
    else if !IsValidKeyAgreementPublicKey(p, c.target) then (k, s, Err(InvalidRequest))
    else
      var invite := k.pendingSessions[c.sessionId];
      if c.now > invite.expiresAt then (without, s, Err(Expired))
      else if !s.IsUnlocked(c.sessionNow) then (without, s.Settled(c.sessionNow), Err(LockedVault))
      else
        var handoff := MakeHandoff(p, s.credentials, invite.sourceDeviceId, c.target, c.now, invite.expiresAt - c.now,
                                   invite.sessionId, c.senderKey, c.nonce);
        (without.(consumedSessionIds := k.consumedSessionIds + {c.sessionId}), s.Settled(c.sessionNow), Ok(handoff))
  }

  class CompanionPairingSessionCoordinator {
    const session: CompanionVaultSession
    const platform: Platform
    var pendingSessions: map<string, Invite>
    var consumedSessionIds: set<string>

    ghost function State(): Coordinator
      reads this
    {
      Coordinator(pendingSessions, consumedSessionIds)
    }

    constructor (session: CompanionVaultSession, platform: Platform)
      ensures this.session == session && this.platform == platform && State() == Coordinator(map[], {})
    {
      this.session, this.platform := session, platform;
      pendingSessions, consumedSessionIds := map[], {};
    }

    method StartSession(c: StartCall) returns (r: Result<Invite, PairingError>)
      modifies this, session
      ensures (State(), session.State(), r) == StartOf(old(State()), old(session.State()), c)
      ensures r == Err(InvalidRequest) <==> c.ttl <= 0 || c.sourceDeviceId == "" || c.displayName == ""
      ensures r == Err(LockedVault) <==>
        r != Err(InvalidRequest) && !old(session.State().IsUnlocked(c.sessionNow))
      ensures r.Err? ==> r.error in {InvalidRequest, LockedVault} && State() == old(State())
      ensures r.Ok? ==>
        && r.value == Invite(1, c.newId, c.newNonce, c.sourceDeviceId, c.displayName, c.now, c.now + c.ttl)
        && pendingSessions == old(pendingSessions)[c.newId := r.value] && consumedSessionIds == old(consumedSessionIds)
    {
      if !(c.ttl > 0) || c.sourceDeviceId == "" || c.displayName == "" {
        return Err(InvalidRequest);
      }
      var credentials := session.CredentialsForPairing(c.sessionNow);
      if credentials.None? {
        return Err(LockedVault);
      }
      var createdAt := c.now;
      var payload := Invite(
        1, c.newId, c.newNonce, c.sourceDeviceId, c.displayName, createdAt, createdAt + c.ttl);
      pendingSessions := pendingSessions[payload.sessionId := payload];
      return Ok(payload);
    }

    method CompleteSession(c: CompleteCall) returns (r: Result<Handoff, PairingError>)
      modifies this, session
      ensures (State(), session.State(), r) == CompleteOf(old(State()), old(session.State()), c, platform)
      ensures r == Err(Replayed) <==> c.sessionId in old(consumedSessionIds)
      ensures r == Err(InvalidRequest) <==>
        && c.sessionId !in old(consumedSessionIds)
        && !(c.sessionId in old(pendingSessions) && old(pendingSessions)[c.sessionId].sessionNonce == c.sessionNonce
             && IsValidKeyAgreementPublicKey(platform, c.target))
      ensures r.Ok? ==>
        c.now <= old(pendingSessions)[c.sessionId].expiresAt && old(session.State().IsUnlocked(c.sessionNow))
      ensures r == Err(Expired) ==> c.now > old(pendingSessions)[c.sessionId].expiresAt
      ensures r == Err(LockedVault) ==> !old(session.State().IsUnlocked(c.sessionNow))
      ensures r == Err(Replayed) || r == Err(InvalidRequest) ==> State() == old(State())
      ensures r != Err(Replayed) && r != Err(InvalidRequest) ==>
        pendingSessions == old(pendingSessions) - {c.sessionId}
      ensures consumedSessionIds == old(consumedSessionIds) + if r.Ok? then {c.sessionId} else {}
    {
      hide MakeHandoff, IsValidKeyAgreementPublicKey;
      if c.sessionId in consumedSessionIds {
        return Err(Replayed);
      }
      if c.sessionId !in pendingSessions || pendingSessions[c.sessionId].sessionNonce != c.sessionNonce {
        return Err(InvalidRequest);
      }
      var payload := pendingSessions[c.sessionId];
      if !IsValidKeyAgreementPublicKey(platform, c.target) {
        return Err(InvalidRequest);
      }
      var currentNow := c.now;
      if !(currentNow <= payload.expiresAt) {
        pendingSessions := pendingSessions - {c.sessionId};
        return Err(Expired);
      }
      var credentials := session.CredentialsForPairing(c.sessionNow);
      if credentials.None? {
        pendingSessions := pendingSessions - {c.sessionId};
        return Err(LockedVault);
      }
      var handoff := MakeHandoff(
        platform, credentials.value, payload.sourceDeviceId, c.target, currentNow, payload.expiresAt - currentNow,
        payload.sessionId, c.senderKey, c.nonce);
      pendingSessions := pendingSessions - {c.sessionId};
      consumedSessionIds := consumedSessionIds + {c.sessionId};
      return Ok(handoff);
    }
  }

  // ---------------------------------------------------------------------------------------------
  // Runs of the coordinator, with anyone acting on the session in between.
  // ---------------------------------------------------------------------------------------------

  datatype Action = Start(start: StartCall) | Complete(complete: CompleteCall) | OnSession(step: SessionStep)

  datatype Outcome = Invited(invite: Invite) | HandedOff(handoff: Handoff) | Failed(error: PairingError) | Done

  datatype World = World(coordinator: Coordinator, session: Session)

  datatype Event = Event(before: World, action: Action, after: World, outcome: Outcome)

  function Act(w: World, a: Action, p: Platform, n: Normalizer): (World, Outcome) {
    match a
    case Start(c) =>
      var (k, s, r) := StartOf(w.coordinator, w.session, c);
      (World(k, s), match r case Ok(invite) => Invited(invite) case Err(e) => Failed(e))
    case Complete(c) =>
      var (k, s, r) := CompleteOf(w.coordinator, w.session, c, p);
      (World(k, s), match r case Ok(handoff) => HandedOff(handoff) case Err(e) => Failed(e))
    case OnSession(step) => (w.(session := ApplyStep(w.session, step, n)), Done)
  }

  predicate IsStep(e: Event, p: Platform, n: Normalizer) {
    (e.after, e.outcome) == Act(e.before, e.action, p, n)
  }

  predicate IsRun(run: seq<Event>, p: Platform, n: Normalizer) {
    && (forall k :: 0 <= k < |run| ==> IsStep(run[k], p, n))
    && (forall k :: 0 < k < |run| ==> run[k].before == run[k - 1].after)
    && (run != [] ==> run[0].before.coordinator == Coordinator(map[], {}))
  }

  function StateAt(run: seq<Event>, k: nat): Coordinator
    requires k <= |run|
  {
    if k == 0 then Coordinator(map[], {}) else run[k - 1].after.coordinator
  }

  predicate HandsOff(e: Event, id: string) {
    e.action.Complete? && e.outcome.HandedOff? && e.action.complete.sessionId == id
  }

  predicate Invites(e: Event, id: string) {
    e.action.Start? && e.outcome.Invited? && e.outcome.invite.sessionId == id
  }

  /** What one step does to the coordinator. */
  lemma {:induction false} CoordinatorStep(e: Event, p: Platform, n: Normalizer)
    requires IsStep(e, p, n)
    ensures var k, k' := e.before.coordinator, e.after.coordinator;
      && k.consumedSessionIds <= k'.consumedSessionIds
      && (forall id :: HandsOff(e, id) ==> id !in k.consumedSessionIds && id in k'.consumedSessionIds)
      && (forall id :: id in k'.pendingSessions ==>
            if Invites(e, id) then
              && k'.pendingSessions[id] == e.outcome.invite == InviteFor(e.action.start) && e.action.start.newId == id
              && e.action.start.ttl > 0 && e.action.start.sourceDeviceId != ""
            else id in k.pendingSessions && k'.pendingSessions[id] == k.pendingSessions[id])
  {
    match e.action
    case Start(_) =>
    case Complete(_) =>
    case OnSession(_) =>
  }

  lemma {:induction false} ConsumedForGood(run: seq<Event>, i: nat, k: nat, id: string, p: Platform, n: Normalizer)
    requires IsRun(run, p, n) && i < k <= |run| && HandsOff(run[i], id)
    ensures id in StateAt(run, k).consumedSessionIds
  {
    hide IsStep;
    CoordinatorStep(run[k - 1], p, n);
    if i < k - 1 {
      ConsumedForGood(run, i, k - 1, id, p, n);
      assert run[k - 1].before == run[k - 2].after;
    }
  }

  /** A pairing session id yields at most one handoff, even if the id generator repeats itself. */
  lemma {:induction false} OneHandoffPerSessionId(
    run: seq<Event>, i: nat, k: nat, id: string, p: Platform, n: Normalizer)
    requires IsRun(run, p, n) && i < k < |run| && HandsOff(run[i], id)
    ensures !HandsOff(run[k], id)
  {
    hide IsStep;
    ConsumedForGood(run, i, k, id, p, n);
    assert run[k].before == run[k - 1].after;
    CoordinatorStep(run[k], p, n);
  }

  /** Event `j` is the latest invitation under `id` before event `k`, and `invite` is what it gave out. */
  predicate InvitedAt(run: seq<Event>, j: nat, k: nat, id: string, invite: Invite) {
    && j < k <= |run|
    && Invites(run[j], id) && run[j].outcome.invite == invite == InviteFor(run[j].action.start)
    && run[j].action.start.ttl > 0 && invite.sourceDeviceId != ""
    && forall m :: j < m < k ==> !Invites(run[m], id)
  }

  lemma {:induction false} PendingWasInvited(
    run: seq<Event>, k: nat, id: string, p: Platform, n: Normalizer)
    returns (j: nat)
    requires IsRun(run, p, n) && k <= |run| && id in StateAt(run, k).pendingSessions
    ensures InvitedAt(run, j, k, id, StateAt(run, k).pendingSessions[id])
  {
    hide IsStep;
    var e := run[k - 1];
    CoordinatorStep(e, p, n);
    if Invites(e, id) {
      j := k - 1;
    } else {
      if k > 1 { assert run[k - 1].before == run[k - 2].after; }
      j := PendingWasInvited(run, k - 1, id, p, n);
    }
  }

  /** What a completed session hands off. */
  lemma {:induction false} HandoffOfStep(e: Event, p: Platform, n: Normalizer)
    requires IsStep(e, p, n) && e.action.Complete? && e.outcome.HandedOff?
    ensures var c := e.action.complete;
      && c.sessionId in e.before.coordinator.pendingSessions
      && var invite := e.before.coordinator.pendingSessions[c.sessionId];
         && invite.sessionNonce == c.sessionNonce && c.now <= invite.expiresAt
         && IsValidKeyAgreementPublicKey(p, c.target)
         && e.before.session.IsUnlocked(c.sessionNow)
         && e.outcome.handoff
            == MakeHandoff(p, e.before.session.credentials, invite.sourceDeviceId, c.target,
                           c.now, invite.expiresAt - c.now,
                           invite.sessionId, c.senderKey, c.nonce)
  {
  }

  /**
   Every handoff answers the latest invitation under its session id: same id, same nonce, same source device, made no
   later than the invitation's deadline and due at exactly that deadline.
   */
  lemma {:induction false} HandoffKeepsTheInvitesDeadline(
    run: seq<Event>, k: nat, p: Platform, n: Normalizer)
    returns (j: nat)
    requires IsRun(run, p, n) && k < |run| && run[k].action.Complete? && run[k].outcome.HandedOff?
    ensures var c, h := run[k].action.complete, run[k].outcome.handoff;
      && j < k && run[j].outcome.Invited?
      && var invite := run[j].outcome.invite;
         && InvitedAt(run, j, k, c.sessionId, invite)
         && h.handoffId == invite.sessionId == c.sessionId && invite.sessionNonce == c.sessionNonce
         && h.sourceDeviceId == invite.sourceDeviceId
         && h.createdAt == c.now <= h.expiresAt == invite.expiresAt
  {
    hide IsStep;
    var id := run[k].action.complete.sessionId;
    HandoffOfStep(run[k], p, n);
    assert run[k].before.coordinator == StateAt(run, k);
    j := PendingWasInvited(run, k, id, p, n);
  }

  // ---------------------------------------------------------------------------------------------
  // The phone accepts the invite.
  // ---------------------------------------------------------------------------------------------

  datatype PayloadError = PayloadExpired | PayloadInvalid | PayloadInvalidVersion

  function ParseInvite(i: Invite, now: int): Result<Invite, PayloadError> {
    if i.version != 1 then Err(PayloadInvalidVersion)
    else if i.sessionId == "" || i.sessionNonce == "" || i.sourceDeviceId == "" || i.sourceDeviceDisplayName == ""
         || i.createdAt > i.expiresAt then Err(PayloadInvalid)
    else if now > i.expiresAt then Err(PayloadExpired)
    else Ok(i)
  }

  /** The phone can act on an invitation exactly until its deadline, if the generators yield ids that are not empty. */
  lemma {:induction false} InviteIsGoodUntilItsDeadline(k: Coordinator, s: Session, c: StartCall, now: int)
    requires StartOf(k, s, c).2.Ok? && c.newId != "" && c.newNonce != ""
    ensures var invite := StartOf(k, s, c).2.value;
      ParseInvite(invite, now).Ok? <==> now <= invite.expiresAt
  {
  }

  // ---------------------------------------------------------------------------------------------
  // The phone opens a handoff at most once.
  // ---------------------------------------------------------------------------------------------

  datatype OpenError = OpenExpired | OpenFailed | OpenReplayed | OpenTargetMismatch | OpenUnsupportedAlgorithm

  function OpenOf(consumed: set<string>, h: Handoff, key: PrivateKey, expected: Target, now: int, p: Platform)
    : (set<string>, Result<seq<Credential>, OpenError>)
  {
    if h.material.algorithm != ALGORITHM then (consumed, Err(OpenUnsupportedAlgorithm))
    else if now > h.expiresAt then (consumed, Err(OpenExpired))
    else if h.targetDeviceId != expected.deviceId || h.targetPublicKeyFingerprint != expected.publicKeyFingerprint then
      (consumed, Err(OpenTargetMismatch))
    else if h.handoffId in consumed then (consumed, Err(OpenReplayed))
    else
      match OpenPayload(p, h, key)
      case None => (consumed, Err(OpenFailed))
      case Some(items) => (consumed + {h.handoffId}, Ok(items))
  }

  class PairingHandoffOpener {
    var consumedHandoffIds: set<string>

    constructor ()
      ensures consumedHandoffIds == {}
    {
      consumedHandoffIds := {};
    }

    method Open(
      h: Handoff, key: PrivateKey, expected: Target, now: int, p: Platform)
      returns (r: Result<seq<Credential>, OpenError>)
      modifies this
      ensures (consumedHandoffIds, r) == OpenOf(old(consumedHandoffIds), h, key, expected, now, p)
      ensures consumedHandoffIds == old(consumedHandoffIds) + if r.Ok? then {h.handoffId} else {}
      ensures r.Ok? ==> h.handoffId !in old(consumedHandoffIds) && Some(r.value) == OpenPayload(p, h, key)
      ensures r == Err(OpenReplayed) ==> h.handoffId in old(consumedHandoffIds)
      ensures r == Err(OpenFailed) ==> h.handoffId !in old(consumedHandoffIds) && OpenPayload(p, h, key).None?
      ensures r == Err(OpenUnsupportedAlgorithm) <==> h.material.algorithm != ALGORITHM
      ensures r == Err(OpenExpired) <==> h.material.algorithm == ALGORITHM && now > h.expiresAt
      ensures r == Err(OpenTargetMismatch) <==>
        && h.material.algorithm == ALGORITHM && now <= h.expiresAt
        && (h.targetDeviceId != expected.deviceId || h.targetPublicKeyFingerprint != expected.publicKeyFingerprint)
    {
      if h.material.algorithm != ALGORITHM {
        return Err(OpenUnsupportedAlgorithm);
      }
      if !(now <= h.expiresAt) {
        return Err(OpenExpired);
      }
      if h.targetDeviceId != expected.deviceId || h.targetPublicKeyFingerprint != expected.publicKeyFingerprint {
        return Err(OpenTargetMismatch);
      }
      if h.handoffId in consumedHandoffIds {
        return Err(OpenReplayed);
      }
      var payload := OpenPayload(p, h, key);
      if payload.None? {
        return Err(OpenFailed);
      }
      consumedHandoffIds := consumedHandoffIds + {h.handoffId};
      return Ok(payload.value);
    }
  }

  datatype Opening = Opening(h: Handoff, key: PrivateKey, expected: Target, now: int)

  /** The consumed ids after a sequence of openings by one opener. */
  function ConsumedAfter(openings: seq<Opening>, k: nat, p: Platform): set<string>
    requires k <= |openings|
  {
    if k == 0 then {}
    else var o := openings[k - 1]; OpenOf(ConsumedAfter(openings, k - 1, p), o.h, o.key, o.expected, o.now, p).0
  }

  predicate Opens(openings: seq<Opening>, k: nat, p: Platform)
    requires k < |openings|
  {
    var o := openings[k];
    OpenOf(ConsumedAfter(openings, k, p), o.h, o.key, o.expected, o.now, p).1.Ok?
  }

  lemma {:induction false} OpenedForGood(openings: seq<Opening>, i: nat, k: nat, p: Platform)
    requires i < k <= |openings| && Opens(openings, i, p)
    ensures openings[i].h.handoffId in ConsumedAfter(openings, k, p)
  {
    hide OpenPayload;
    if i < k - 1 { OpenedForGood(openings, i, k - 1, p); }
  }

  /** One opener opens each handoff id at most once, and an opening that fails consumes nothing. */
  lemma {:induction false} OpenedAtMostOnce(openings: seq<Opening>, i: nat, k: nat, p: Platform)
    requires i < k < |openings| && Opens(openings, i, p)
    ensures openings[k].h.handoffId == openings[i].h.handoffId ==> !Opens(openings, k, p)
    ensures !Opens(openings, k, p) ==> ConsumedAfter(openings, k + 1, p) == ConsumedAfter(openings, k, p)
  {
    hide OpenPayload;
    OpenedForGood(openings, i, k, p);
  }

  // ---------------------------------------------------------------------------------------------
  // The Mac's own verifier of handoffs.
  // ---------------------------------------------------------------------------------------------

  datatype VerifyError = VerifyExpired | VerifyFailed | VerifyReplayed | VerifyTargetMismatch

  /** `openHandoff` of the builder: no field needs to be non-empty, and the algorithm is checked here. */
  function OpenHandoff(p: Platform, h: Handoff, recipientKey: PrivateKey): Option<seq<Credential>> {
    var sender := FromBase64Url(p, h.material.senderPublicKey);
    var nonce := p.fromBase64(h.material.nonce);
    var ciphertext := p.fromBase64(h.material.ciphertext);
    var tag := p.fromBase64(h.material.tag);
    if h.version != 1 || h.material.algorithm != ALGORITHM
       || sender.None? || nonce.None? || ciphertext.None? || tag.None? then None
    else if !p.isPublicKey(sender.value) then None
    else
      var ad := AssociatedData(p, h.handoffId, h.sourceDeviceId, h.targetDeviceId, h.targetPublicKeyFingerprint);
      var key := p.deriveKey(p.sharedSecret(recipientKey, sender.value), ad);
      match p.open(nonce.value, ciphertext.value, tag.value, key, ad)
      case None => None
      case Some(payload) => p.decodeItems(payload)
  }

  function VerifyOf(consumed: set<string>, h: Handoff, key: PrivateKey, expected: Target, now: int, p: Platform)
    : (set<string>, Result<seq<Credential>, VerifyError>)
  {
    if now > h.expiresAt then (consumed, Err(VerifyExpired))
    else if h.targetDeviceId != expected.deviceId || h.targetPublicKeyFingerprint != expected.publicKeyFingerprint then
      (consumed, Err(VerifyTargetMismatch))
    else if h.handoffId in consumed then (consumed, Err(VerifyReplayed))
    else
      match OpenHandoff(p, h, key)
      case None => (consumed, Err(VerifyFailed))
      case Some(items) => (consumed + {h.handoffId}, Ok(items))
  }

  class CompanionPairingHandoffVerifier {
    var consumedHandoffIds: set<string>

    constructor ()
      ensures consumedHandoffIds == {}
    {
      consumedHandoffIds := {};
    }

    method Open(
      h: Handoff, key: PrivateKey, expected: Target, now: int, p: Platform)
      returns (r: Result<seq<Credential>, VerifyError>)
      modifies this
      ensures (consumedHandoffIds, r) == VerifyOf(old(consumedHandoffIds), h, key, expected, now, p)
      ensures consumedHandoffIds == old(consumedHandoffIds) + if r.Ok? then {h.handoffId} else {}
      ensures r.Ok? ==> h.handoffId !in old(consumedHandoffIds) && Some(r.value) == OpenHandoff(p, h, key)
      ensures r == Err(VerifyReplayed) ==> h.handoffId in old(consumedHandoffIds)
      ensures r == Err(VerifyFailed) ==> h.handoffId !in old(consumedHandoffIds) && OpenHandoff(p, h, key).None?
      ensures r == Err(VerifyExpired) <==> now > h.expiresAt
      ensures r == Err(VerifyTargetMismatch) <==>
        && now <= h.expiresAt
        && (h.targetDeviceId != expected.deviceId || h.targetPublicKeyFingerprint != expected.publicKeyFingerprint)
    {
      if !(now <= h.expiresAt) {
        return Err(VerifyExpired);
      }
      if h.targetDeviceId != expected.deviceId || h.targetPublicKeyFingerprint != expected.publicKeyFingerprint {
        return Err(VerifyTargetMismatch);
      }
      if h.handoffId in consumedHandoffIds {
        return Err(VerifyReplayed);
      }
      var items := OpenHandoff(p, h, key);
      if items.None? {
        return Err(VerifyFailed);
      }
      consumedHandoffIds := consumedHandoffIds + {h.handoffId};
      return Ok(items.value);
    }
  }

  /** What the phone asks of a handoff and the Mac's verifier does not. */
  predicate NamesItsParties(h: Handoff) {
    h.handoffId != "" && h.sourceDeviceId != "" && h.targetDeviceId != "" && h.targetPublicKeyFingerprint != ""
    && h.createdAt <= h.expiresAt
  }

  /**
   The two implementations agree: from the same consumed ids, the phone opens exactly the handoffs that the Mac's
   verifier opens and that name their parties, with the same credentials and the same ids consumed.
   */
  lemma {:induction false} PhoneAndMacAgree(
    consumed: set<string>, h: Handoff, key: PrivateKey, expected: Target, now: int, p: Platform)
    ensures var phone, mac := OpenOf(consumed, h, key, expected, now, p), VerifyOf(consumed, h, key, expected, now, p);
      && (phone.1.Ok? <==> mac.1.Ok? && NamesItsParties(h))
      && (phone.1.Ok? ==> phone.0 == mac.0 && phone.1.value == mac.1.value)
      && (mac.1.Ok? && !NamesItsParties(h) ==> phone == (consumed, Err(OpenFailed)))
  {
    hide AssociatedData, FromBase64Url;
    SameOpening(p, h, key);
  }

  lemma {:induction false} SameOpening(p: Platform, h: Handoff, key: PrivateKey)
    ensures OpenPayload(p, h, key)
      == if NamesItsParties(h) then OpenHandoff(p, h.(material := h.material.(algorithm := ALGORITHM)), key) else None
  {
    hide AssociatedData, FromBase64Url;
  }

  // ---------------------------------------------------------------------------------------------
  // Opening and importing together.
  // ---------------------------------------------------------------------------------------------

  datatype HandoffImportError =
    | NoPrivateKey
    | NotOpened(error: OpenError)
    | NotConfigured
    | NotImported(cause: ImportError)

  /**
   Open, then import: the consumed ids and the new store. `held` is the store the importer has, or gets from its
   configuration once the handoff is open.
   */
  function ImportHandoffOf(
    consumed: set<string>, held: Result<Store, HandoffImportError>, h: Handoff, key: Option<PrivateKey>,
    expected: Target, now: int, writes: bool, p: Platform)
    : (set<string>, Result<Store, HandoffImportError>)
  {
    if key.None? then (consumed, Err(NoPrivateKey))
    else
      var (consumed', read) := OpenOf(consumed, h, key.value, expected, now, p);
      if read.Err? then (consumed', Err(NotOpened(read.error)))
      else if held.Err? then (consumed', Err(held.error))
      else
        match ImportOf(held.value, read.value, writes)
        case Err(e) => (consumed', Err(NotImported(e)))
        case Ok(store) => (consumed', Ok(store))
  }

  /** The store a configuration makes; one that throws is `None`. */
  function Configured(p: Platform, configuration: Option<Persistence>): Result<Store, HandoffImportError>
    reads if configuration.Some? && configuration.value.EncryptedFile? then {configuration.value.file} else {}
  {
    match configuration
    case None => Err(NotConfigured)
    case Some(where) => match InitialStore(p, where) case Ok(store) => Ok(store) case Err(e) => Err(NotImported(e))
  }

  class DefaultPairingHandoffImporter {
    const opener: PairingHandoffOpener
    const configuration: Option<Persistence>
    var importStore: PairingHandoffImportStore?

    constructor (configuration: Option<Persistence>)
      ensures fresh(opener) && this.configuration == configuration
      ensures opener.consumedHandoffIds == {} && importStore == null
    {
      opener := new PairingHandoffOpener();
      this.configuration := configuration;
      importStore := null;
    }

    ghost predicate Valid()
      reads this, importStore
    {
      importStore != null ==>
        Keyed(importStore.importedCredentialsById) && configuration == Some(importStore.persistence)
    }

    ghost function Files(): set<object> {
      if configuration.Some? && configuration.value.EncryptedFile? then {configuration.value.file} else {}
    }

    ghost function Held(p: Platform): Result<Store, HandoffImportError>
      reads this, importStore, Files()
    {
      if importStore != null then Ok(importStore.importedCredentialsById) else Configured(p, configuration)
    }

    /**
     A handoff is consumed as soon as it opens; the store is replaced only if the whole import succeeds, and then the
     file, if there is one, loads as the new store. On any error the old store and the file are as they were.
     */
    method ImportHandoff(
      h: Handoff, key: Option<PrivateKey>, expected: Target, now: int, nonce: Bytes, writes: bool, p: Platform)
      returns (r: Result<nat, HandoffImportError>)
      requires Valid()
      modifies this, opener, Files()
      ensures Valid()
      ensures var where := if configuration.Some? then configuration.value else Memory;
        var (consumed, imported) := ImportHandoffOf(
          old(opener.consumedHandoffIds), old(Held(p)), h, key, expected, now, writes || where.Memory?, p);
        && opener.consumedHandoffIds == consumed
        && match imported
           case Err(e) => r == Err(e) && importStore == old(importStore)
           case Ok(store) =>
             && r.Ok? && importStore != null && fresh(importStore)
             && importStore.importedCredentialsById == store
             && (where.EncryptedFile? && OpensWhatItSeals(p) && ReadsBackText(p) ==>
                   InitialStore(p, where) == Ok(store))
      ensures old(importStore) != null ==> unchanged(old(importStore))
      ensures r.Err? && configuration.Some? && configuration.value.EncryptedFile? ==>
        configuration.value.file.contents == old(configuration.value.file.contents)
    {
      hide OpenOf, ImportOf, Overridden, Saved, Loaded;
      if key.None? {
        return Err(NoPrivateKey);
      }
      var read := opener.Open(h, key.value, expected, now, p);
      if read.Err? {
        return Err(NotOpened(read.error));
      }
      var receivedVaultStore;
      if importStore != null {
        receivedVaultStore := new PairingHandoffImportStore(
          importStore.importedCredentialsById, importStore.persistence);
      } else {
        var initial := Configured(p, configuration);
        if initial.Err? {
          return Err(initial.error);
        }
        InitialIsKeyed(p, configuration.value);
        receivedVaultStore := new PairingHandoffImportStore(initial.value, configuration.value);
      }
      ghost var before := receivedVaultStore.importedCredentialsById;
      ImportOverrides(before, read.value, writes || receivedVaultStore.persistence.Memory?);
      var error := receivedVaultStore.ImportPayload(read.value, p, nonce, writes);
      if error.Some? {
        return Err(NotImported(error.value));
      }
      importStore := receivedVaultStore;
      if configuration.Some? && configuration.value.EncryptedFile? && OpensWhatItSeals(p) && ReadsBackText(p) {
        SavedStoreLoads(
          p, configuration.value.file.contents, importStore.importedCredentialsById, configuration.value.key);
      }
      return Ok(|read.value|);
    }
  }

  lemma {:induction false} ImportOverrides(store: Store, items: seq<Credential>, writes: bool)
    ensures ImportOf(store, items, writes).Ok? <==> items != [] && AllValid(items) && writes
    ensures ImportOf(store, items, writes).Ok? ==>
      ImportOf(store, items, writes).value == Overridden(store, items, |items|)
  {
  }

  lemma {:induction false} InitialIsKeyed(p: Platform, where: Persistence)
    requires InitialStore(p, where).Ok?
    ensures Keyed(InitialStore(p, where).value)
  {
    if where.EncryptedFile? && where.file.contents.Holding? {
      var e := where.file.contents.envelope;
      var listing := p.decodeSnapshot(p.open(e.nonce, e.ciphertext, e.tag, where.key, []).value).value;
      ImportKeepsKeys(map[], listing, |listing|);
    }
  }

  // ---------------------------------------------------------------------------------------------
  // The transfer.
  // ---------------------------------------------------------------------------------------------

  /** The claim passed the guards of the Mac's HTTP codec. */
  predicate ClaimIsComplete(c: CompleteCall) {
    c.sessionId != "" && c.sessionNonce != "" && NamesItself(c.target) && c.nonce != []
  }

  /** How importing a vault into a store ends: refused for what the vault is, or every id holding what it should. */
  ghost predicate Transferred(result: Result<Store, HandoffImportError>, store: Store, vault: seq<Credential>) {
    if vault == [] then result == Err(NotImported(EmptyPayload))
    else if !AllValid(vault) then result == Err(NotImported(InvalidCredential))
    else result.Ok? && forall id :: HoldsAt(result.value, store, vault, id)
  }

  /**
   The transfer preserves the vault. For a handoff of any run, made for the phone that holds `key`, and an importer
   that has not seen its id: until the deadline it passes the phone's parser, and importing it consumes the id and
   leaves the phone's store holding every credential of the Mac's session, the last of each id, beside what it held
   under other ids; except that a vault that is empty or has an incomplete credential is refused. After the deadline
   it is refused and nothing is consumed.
   */
  lemma {:induction false} TransferPreservesTheVault(
    run: seq<Event>, k: nat, p: Platform, n: Normalizer, key: PrivateKey, consumed: set<string>, store: Store, now: int)
    requires Lawful(p) && IsRun(run, p, n) && k < |run|
    requires run[k].action.Complete? && run[k].outcome.HandedOff?
    requires ClaimIsComplete(run[k].action.complete) && PresentsKey(p, run[k].action.complete.target, key)
    requires run[k].outcome.handoff.handoffId !in consumed
    ensures var h, t, vault := run[k].outcome.handoff, run[k].action.complete.target, run[k].before.session.credentials;
      var (consumed', result) := ImportHandoffOf(consumed, Ok(store), h, Some(key), t, now, true, p);
      if now <= h.expiresAt then
        ParseResponse(h, t, now) == Ok(h) && consumed' == consumed + {h.handoffId} && Transferred(result, store, vault)
      else
        && ParseResponse(h, t, now) == Err(ResponseExpired)
        && consumed' == consumed && result == Err(NotOpened(OpenExpired))
  {
    hide IsStep, IsRun, MakeHandoff, ParseResponse, OpenOf, ImportOf, Overridden, HoldsAt, Lawful, PresentsKey;
    var h, vault := run[k].outcome.handoff, run[k].before.session.credentials;
    TransferOpens(run, k, p, n, key, consumed, now);
    ImportingEnds(store, vault);
    assert vault[..|vault|] == vault;
    forall id ensures HoldsAt(Overridden(store, vault, |vault|), store, vault, id) {
      OverriddenLooksUp(store, vault, |vault|, id);
    }
  }

  lemma {:induction false} ImportingEnds(store: Store, items: seq<Credential>)
    ensures ImportOf(store, items, true)
      == if items == [] then Err(EmptyPayload)
         else if !AllValid(items) then Err(InvalidCredential)
         else Ok(Overridden(store, items, |items|))
  {
  }

  /** A handoff of a run opens to exactly the session's credentials, until its deadline. */
  lemma {:induction false} TransferOpens(
    run: seq<Event>, k: nat, p: Platform, n: Normalizer, key: PrivateKey, consumed: set<string>, now: int)
    requires Lawful(p) && IsRun(run, p, n) && k < |run|
    requires run[k].action.Complete? && run[k].outcome.HandedOff?
    requires ClaimIsComplete(run[k].action.complete) && PresentsKey(p, run[k].action.complete.target, key)
    requires run[k].outcome.handoff.handoffId !in consumed
    ensures var h, t, vault := run[k].outcome.handoff, run[k].action.complete.target, run[k].before.session.credentials;
      && ParseResponse(h, t, now) == (if now <= h.expiresAt then Ok(h) else Err(ResponseExpired))
      && OpenOf(consumed, h, key, t, now, p)
         == if now <= h.expiresAt then (consumed + {h.handoffId}, Ok(vault)) else (consumed, Err(OpenExpired))
  {
    hide IsStep, IsRun, MakeHandoff, OpenPayload, ParseResponse, Lawful, PresentsKey, IsValidKeyAgreementPublicKey;
    var c := run[k].action.complete;
    StepOfRun(run, k, p, n);
    HandoffOfStep(run[k], p, n);
    var j := HandoffKeepsTheInvitesDeadline(run, k, p, n);
    var invite := run[k].before.coordinator.pendingSessions[c.sessionId];
    var vault := run[k].before.session.credentials;
    var ttl := invite.expiresAt - c.now;
    HandoffFields(p, vault, invite.sourceDeviceId, c, ttl, invite.sessionId);
    MadeHandoffIsAccepted(
      p, vault, invite.sourceDeviceId, c.target, c.now, ttl, invite.sessionId, c.senderKey, c.nonce, key, now);
    MadeHandoffOpens(
      p, vault, invite.sourceDeviceId, c.target, c.now, ttl, invite.sessionId, c.senderKey, c.nonce, key);
  }

  /** A completion that came too late or found the vault locked: it drops the pending session. */
  predicate Drops(e: Event, id: string) {
    && e.action.Complete? && e.action.complete.sessionId == id
    && (e.outcome == Failed(Expired) || e.outcome == Failed(LockedVault))
  }

  lemma {:induction false} PendingStep(e: Event, id: string, p: Platform, n: Normalizer)
    requires IsStep(e, p, n) && !Invites(e, id)
    ensures id in e.after.coordinator.pendingSessions
      <==> id in e.before.coordinator.pendingSessions && !Drops(e, id) && !HandsOff(e, id)
    ensures id in e.after.coordinator.consumedSessionIds
      <==> id in e.before.coordinator.consumedSessionIds || HandsOff(e, id)
    ensures HandsOff(e, id) ==> id in e.before.coordinator.pendingSessions
  {
    match e.action
    case Start(_) =>
    case Complete(_) =>
    case OnSession(_) =>
  }

  lemma {:induction false} InvitingStep(e: Event, id: string, p: Platform, n: Normalizer)
    requires IsStep(e, p, n) && Invites(e, id)
    ensures id in e.after.coordinator.pendingSessions
    ensures e.after.coordinator.consumedSessionIds == e.before.coordinator.consumedSessionIds
  {
  }

  /** A session id is consumed exactly by a handoff. */
  lemma {:induction false} ConsumedExactlyByHandoff(run: seq<Event>, k: nat, id: string, p: Platform, n: Normalizer)
    requires IsRun(run, p, n) && k <= |run|
    ensures id in StateAt(run, k).consumedSessionIds <==> exists i :: 0 <= i < k && HandsOff(run[i], id)
  {
    hide IsStep, HandsOff, Invites;
    if k > 0 {
      ConsumedExactlyByHandoff(run, k - 1, id, p, n);
      assert run[k - 1].before.coordinator == StateAt(run, k - 1);
      if Invites(run[k - 1], id) {
        InvitingStep(run[k - 1], id, p, n);
        assert !HandsOff(run[k - 1], id) by { InvitingIsNoHandoff(run[k - 1], id); }
      } else {
        PendingStep(run[k - 1], id, p, n);
      }
    }
  }

  lemma {:induction false} InvitingIsNoHandoff(e: Event, id: string)
    requires Invites(e, id)
    ensures !HandsOff(e, id)
  {
  }

  /** The latest invitation is pending exactly until it is handed off or dropped. */
  lemma {:induction false} PendingExactlyUntilUsed(
    run: seq<Event>, j: nat, k: nat, id: string, invite: Invite, p: Platform, n: Normalizer)
    requires IsRun(run, p, n) && InvitedAt(run, j, k, id, invite)
    ensures id in StateAt(run, k).pendingSessions
      <==> forall m :: j < m < k ==> !Drops(run[m], id) && !HandsOff(run[m], id)
    ensures id in StateAt(run, k).pendingSessions ==> StateAt(run, k).pendingSessions[id] == invite
  {
    hide IsStep, HandsOff, Invites, Drops;
    if id in StateAt(run, k).pendingSessions {
      var i := PendingWasInvited(run, k, id, p, n);
      assert i == j;
    }
    if k == j + 1 {
      InvitingStep(run[j], id, p, n);
    } else {
      PendingExactlyUntilUsed(run, j, k - 1, id, invite, p, n);
      assert run[k - 1].before.coordinator == StateAt(run, k - 1);
      PendingStep(run[k - 1], id, p, n);
    }
  }

  /**
   In any run, a phone that presents its own key and answers the latest invitation under its id gets a handoff exactly
   when it answers by the deadline, the vault is unlocked, the id was never handed off before, and no answer since the
   invitation came too late or found the vault locked. Whatever else happens in between makes no difference.
   */
  lemma {:induction false} AnsweredInviteIsHandedOff(
    run: seq<Event>, j: nat, k: nat, invite: Invite, p: Platform, n: Normalizer, key: PrivateKey)
    requires Lawful(p) && IsRun(run, p, n) && k < |run| && run[k].action.Complete?
    requires InvitedAt(run, j, k, run[k].action.complete.sessionId, invite)
    requires run[k].action.complete.sessionNonce == invite.sessionNonce
    requires PresentsKey(p, run[k].action.complete.target, key)
    ensures var c := run[k].action.complete;
      run[k].outcome.HandedOff? <==>
      && c.now <= invite.expiresAt && run[k].before.session.IsUnlocked(c.sessionNow)
      && (forall i :: 0 <= i < k ==> !HandsOff(run[i], c.sessionId))
      && (forall m :: j < m < k ==> !Drops(run[m], c.sessionId))
  {
    hide IsStep, IsRun, HandsOff, Drops, Lawful, PresentsKey, InvitedAt;
    var c := run[k].action.complete;
    StepOfRun(run, k, p, n);
    BeforeOfRun(run, k, p, n);
    PresentedKeyIsValid(p, c.target, key);
    PendingExactlyUntilUsed(run, j, k, c.sessionId, invite, p, n);
    ConsumedExactlyByHandoff(run, k, c.sessionId, p, n);
    CompletesExactlyWhen(run[k], p, n);
  }

  lemma {:induction false} CompletesExactlyWhen(e: Event, p: Platform, n: Normalizer)
    requires IsStep(e, p, n) && e.action.Complete? && IsValidKeyAgreementPublicKey(p, e.action.complete.target)
    ensures var c, k := e.action.complete, e.before.coordinator;
      e.outcome.HandedOff? <==>
      && c.sessionId !in k.consumedSessionIds
      && c.sessionId in k.pendingSessions && k.pendingSessions[c.sessionId].sessionNonce == c.sessionNonce
      && c.now <= k.pendingSessions[c.sessionId].expiresAt && e.before.session.IsUnlocked(c.sessionNow)
  {
    hide MakeHandoff, IsValidKeyAgreementPublicKey;
  }

  lemma {:induction false} BeforeOfRun(run: seq<Event>, k: nat, p: Platform, n: Normalizer)
    requires IsRun(run, p, n) && k < |run|
    ensures run[k].before.coordinator == StateAt(run, k)
  {
    hide IsStep;
  }

  lemma {:induction false} StepOfRun(run: seq<Event>, k: nat, p: Platform, n: Normalizer)
    requires IsRun(run, p, n) && k < |run|
    ensures IsStep(run[k], p, n)
  {
    hide IsStep;
  }

  lemma {:induction false} HandoffFields(
    p: Platform, credentials: seq<Credential>, sourceDeviceId: string, c: CompleteCall, ttl: int, handoffId: string)
    requires IsValidKeyAgreementPublicKey(p, c.target)
    ensures var h := MakeHandoff(p, credentials, sourceDeviceId, c.target, c.now, ttl, handoffId, c.senderKey, c.nonce);
      && h.handoffId == handoffId && h.sourceDeviceId == sourceDeviceId && h.expiresAt == c.now + ttl
      && h.material.algorithm == ALGORITHM && h.targetDeviceId == c.target.deviceId
      && h.targetPublicKeyFingerprint == c.target.publicKeyFingerprint
  {
  }
}
