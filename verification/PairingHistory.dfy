/**
 What the coordinator and the phone's opener answer, said of their histories alone: which invitations were given, used
 up or dropped, and which handoffs were opened, before.
 */
module PairingHistory {
  import opened Basics
  import opened VaultSession
  import opened PairingHandoff
  import opened ImportStore
  import opened Pairing

  /**
   Whatever is pending or used up, in any run: starting gives an invitation exactly when the time to live is positive,
   both names are there and the vault is unlocked; otherwise the error is that of the first check that fails. Nothing
   but an unlocked check touches the session.
   */
  lemma {:induction false} StartAnswersExactly(run: seq<Event>, k: nat, p: Platform, n: Normalizer)
    requires IsRun(run, p, n) && k < |run| && run[k].action.Start?
    ensures var c, s := run[k].action.start, run[k].before.session;
      var complete := c.ttl > 0 && c.sourceDeviceId != "" && c.displayName != "";
      && (run[k].outcome.Invited? <==> complete && s.IsUnlocked(c.sessionNow))
      && (run[k].outcome == Failed(InvalidRequest) <==> !complete)
      && (run[k].outcome == Failed(LockedVault) <==> complete && !s.IsUnlocked(c.sessionNow))
      && (run[k].outcome.Invited? ==>
            var i := run[k].outcome.invite;
            && i.sessionId == c.newId && i.sessionNonce == c.newNonce && i.sourceDeviceId == c.sourceDeviceId
            && i.sourceDeviceDisplayName == c.displayName && i.createdAt == c.now && i.expiresAt == c.now + c.ttl)
      && run[k].after.session == (if complete then s.Settled(c.sessionNow) else s)
  {
    StepOfRun(run, k, p, n);
  }

  /** The invitation of event `j` can still be answered at `k`: it is the latest under its id and was not dropped. */
  predicate Answerable(run: seq<Event>, j: nat, k: nat, id: string) {
    && j < k <= |run| && Invites(run[j], id)
    && (forall m :: j < m < k ==> !Invites(run[m], id))
    && (forall m :: j < m < k ==> !Drops(run[m], id))
  }

  predicate HandedOffBefore(run: seq<Event>, k: nat, id: string)
    requires k <= |run|
  {
    exists i :: 0 <= i < k && HandsOff(run[i], id)
  }

  lemma {:induction false} PendingExactlyWhileAnswerable(
    run: seq<Event>, k: nat, id: string, p: Platform, n: Normalizer)
    requires IsRun(run, p, n) && k <= |run| && !HandedOffBefore(run, k, id)
    ensures id in StateAt(run, k).pendingSessions <==> exists j: nat :: Answerable(run, j, k, id)
    ensures forall j: nat :: Answerable(run, j, k, id) ==>
      run[j].outcome.Invited? && id in StateAt(run, k).pendingSessions
      && StateAt(run, k).pendingSessions[id] == run[j].outcome.invite
  {
    hide IsStep, IsRun, HandsOff, Drops;
    if id in StateAt(run, k).pendingSessions {
      var j := PendingWasInvited(run, k, id, p, n);
      PendingExactlyUntilUsed(run, j, k, id, StateAt(run, k).pendingSessions[id], p, n);
      assert Answerable(run, j, k, id);
    }
    forall j: nat | Answerable(run, j, k, id)
      ensures run[j].outcome.Invited? && id in StateAt(run, k).pendingSessions
        && StateAt(run, k).pendingSessions[id] == run[j].outcome.invite
    {
      InvitationIsKept(run, j, k, id, p, n);
      PendingExactlyUntilUsed(run, j, k, id, run[j].outcome.invite, p, n);
    }
  }

  lemma {:induction false} InvitationIsKept(run: seq<Event>, j: nat, k: nat, id: string, p: Platform, n: Normalizer)
    requires IsRun(run, p, n) && Answerable(run, j, k, id)
    ensures run[j].outcome.Invited? && InvitedAt(run, j, k, id, run[j].outcome.invite)
  {
    hide Drops;
    StepOfRun(run, j, p, n);
    StartAnswersExactly(run, j, p, n);
  }

  /**
   What a completion answers, in any run: it is a replay if the id was handed off before; invalid without an answerable
   invitation under that id and nonce, or with a key that does not check out; too late after that invitation's
   deadline; refused by a locked vault; and a handoff otherwise.
   */
  lemma {:induction false} CompletionAnswersExactly(run: seq<Event>, j: nat, k: nat, p: Platform, n: Normalizer)
    requires IsRun(run, p, n) && k < |run| && run[k].action.Complete?
    ensures run[k].after.session
      == if run[k].outcome.HandedOff? || run[k].outcome == Failed(LockedVault)
         then run[k].before.session.Settled(run[k].action.complete.sessionNow) else run[k].before.session
    ensures var c, outcome := run[k].action.complete, run[k].outcome;
      if HandedOffBefore(run, k, c.sessionId) then outcome == Failed(Replayed)
      else if !PresentsItsKey(p, c.target) || !(exists i: nat :: Answerable(run, i, k, c.sessionId)) then
        outcome == Failed(InvalidRequest)
      else Answerable(run, j, k, c.sessionId) ==>
        && run[j].outcome.Invited?
        && var invite := run[j].outcome.invite;
          if invite.sessionNonce != c.sessionNonce then outcome == Failed(InvalidRequest)
          else if c.now > invite.expiresAt then outcome == Failed(Expired)
          else if !run[k].before.session.IsUnlocked(c.sessionNow) then outcome == Failed(LockedVault)
          else
            && outcome.HandedOff?
            && var h := outcome.handoff;
              && h.version == 1 && h.handoffId == invite.sessionId && h.sourceDeviceId == invite.sourceDeviceId
              && h.targetDeviceId == c.target.deviceId && h.targetDeviceDisplayName == c.target.displayName
              && h.targetPublicKeyFingerprint == c.target.publicKeyFingerprint
              && h.createdAt == c.now && h.expiresAt == invite.expiresAt
  {
    hide IsStep, IsRun, HandsOff, Drops, IsValidKeyAgreementPublicKey, Answerable;
    var id := run[k].action.complete.sessionId;
    StepOfRun(run, k, p, n);
    BeforeOfRun(run, k, p, n);
    ConsumedExactlyByHandoff(run, k, id, p, n);
    CompletionOfState(run[k], p, n);
    KeyIsPresented(p, run[k].action.complete.target);
    if !HandedOffBefore(run, k, id) {
      PendingExactlyWhileAnswerable(run, k, id, p, n);
    }
  }

  lemma {:induction false} CompletionOfState(e: Event, p: Platform, n: Normalizer)
    requires IsStep(e, p, n) && e.action.Complete?
    ensures e.after.session
      == if e.outcome.HandedOff? || e.outcome == Failed(LockedVault)
         then e.before.session.Settled(e.action.complete.sessionNow) else e.before.session
    ensures var c, k := e.action.complete, e.before.coordinator;
      if c.sessionId in k.consumedSessionIds then e.outcome == Failed(Replayed)
      else if !IsValidKeyAgreementPublicKey(p, c.target) || c.sessionId !in k.pendingSessions
              || k.pendingSessions[c.sessionId].sessionNonce != c.sessionNonce then
        e.outcome == Failed(InvalidRequest)
      else if c.now > k.pendingSessions[c.sessionId].expiresAt then e.outcome == Failed(Expired)
      else if !e.before.session.IsUnlocked(c.sessionNow) then e.outcome == Failed(LockedVault)
      else
        && e.outcome.HandedOff?
        && var h, invite := e.outcome.handoff, k.pendingSessions[c.sessionId];
          && h.version == 1 && h.handoffId == invite.sessionId && h.sourceDeviceId == invite.sourceDeviceId
          && h.targetDeviceId == c.target.deviceId && h.targetDeviceDisplayName == c.target.displayName
          && h.targetPublicKeyFingerprint == c.target.publicKeyFingerprint
          && h.createdAt == c.now && h.expiresAt == invite.expiresAt
  {
    hide IsValidKeyAgreementPublicKey, AssociatedData, FromBase64Url, ToBase64Url;
  }

  /** The target's public key decodes to a key of the curve, and its fingerprint is that key's. */
  ghost predicate PresentsItsKey(p: Platform, t: Target) {
    exists d ::
      FromBase64Url(p, t.publicKey) == Some(d) && p.isPublicKey(d) && p.fingerprint(d) == t.publicKeyFingerprint
  }

  lemma {:induction false} KeyIsPresented(p: Platform, t: Target)
    ensures IsValidKeyAgreementPublicKey(p, t) <==> PresentsItsKey(p, t)
  {
    hide FromBase64Url;
  }

  // ---------------------------------------------------------------------------------------------
  // What a handoff is bound to.
  // ---------------------------------------------------------------------------------------------

  predicate NoBar(s: string) {
    forall k :: 0 <= k < |s| ==> s[k] != '|'
  }

  lemma {:induction false} BarAt(a: string, x: string, k: nat)
    requires NoBar(a)
    ensures k < |a| ==> (a + ("|" + x))[k] == a[k]
    ensures (a + ("|" + x))[|a|] == '|'
  {
  }

  lemma {:induction false} SameBeforeTheBar(a: string, x: string, b: string, y: string)
    requires NoBar(a) && NoBar(b) && a + ("|" + x) == b + ("|" + y)
    ensures a == b && x == y
  {
    BarAt(a, x, |b|);
    BarAt(b, y, |a|);
    assert |a| == |b|;
    assert a == (a + ("|" + x))[..|a|] && b == (b + ("|" + y))[..|b|];
    assert x == (a + ("|" + x))[|a| + 1..] && y == (b + ("|" + y))[|b| + 1..];
  }

  lemma {:induction false} JoinedByBars(a: string, b: string, c: string, d: string, e: string)
    ensures a + "|" + b + "|" + c + "|" + d + "|" + e == a + ("|" + (b + ("|" + (c + ("|" + (d + ("|" + e)))))))
  {
  }

  /**
   The associated data of a handoff names the handoff and its parties: no two share it, as long as the handoff's and the
   devices' ids have no bar in them.
   */
  lemma {:induction false} AssociatedDataNamesTheParties(
    p: Platform, id: string, source: string, target: string, fingerprint: string,
    id': string, source': string, target': string, fingerprint': string)
    requires forall s, t :: p.utf8(s) == p.utf8(t) ==> s == t
    requires NoBar(id) && NoBar(source) && NoBar(target) && NoBar(id') && NoBar(source') && NoBar(target')
    requires AssociatedData(p, id, source, target, fingerprint)
      == AssociatedData(p, id', source', target', fingerprint')
    ensures (id, source, target, fingerprint) == (id', source', target', fingerprint')
  {
    JoinedByBars(CONTEXT, id, source, target, fingerprint);
    JoinedByBars(CONTEXT, id', source', target', fingerprint');
    var t1, t1' := target + ("|" + fingerprint), target' + ("|" + fingerprint');
    var t2, t2' := source + ("|" + t1), source' + ("|" + t1');
    var t3, t3' := id + ("|" + t2), id' + ("|" + t2');
    SameBeforeTheBar(CONTEXT, t3, CONTEXT, t3');
    SameBeforeTheBar(id, t2, id', t2');
    SameBeforeTheBar(source, t1, source', t1');
    SameBeforeTheBar(target, fingerprint, target', fingerprint');
  }

  /** With bars in the ids two different pairs of parties share it. */
  lemma {:induction false} BarsMakeAssociatedDataAmbiguous(p: Platform, target: string, fingerprint: string)
    ensures AssociatedData(p, "a|b", "c", target, fingerprint) == AssociatedData(p, "a", "b|c", target, fingerprint)
  {
    assert "a|b" + "|" + "c" == "a" + "|" + "b|c";
    Regrouped(CONTEXT + "|", "a|b", "c", target, fingerprint);
    Regrouped(CONTEXT + "|", "a", "b|c", target, fingerprint);
  }

  lemma {:induction false} Regrouped(a: string, b: string, c: string, d: string, e: string)
    ensures a + b + "|" + c + "|" + d + "|" + e == a + (b + "|" + c) + "|" + d + "|" + e
  {
  }

  /** The phone takes an invitation exactly when its version is known, nothing is missing, and it is in time. */
  lemma {:induction false} InviteAnswersExactly(i: Invite, now: int)
    ensures var complete := "" !in {i.sessionId, i.sessionNonce, i.sourceDeviceId, i.sourceDeviceDisplayName}
        && i.createdAt <= i.expiresAt;
      var r := ParseInvite(i, now);
      && (r == Err(PayloadInvalidVersion) <==> i.version != 1)
      && (r == Err(PayloadInvalid) <==> i.version == 1 && !complete)
      && (r == Err(PayloadExpired) <==> i.version == 1 && complete && now > i.expiresAt)
      && (r == Ok(i) <==> i.version == 1 && complete && now <= i.expiresAt)
  {
  }

  /** The phone takes a response exactly when nothing is missing and everything is as expected and in time. */
  lemma {:induction false} ResponseAnswersExactly(h: Handoff, expected: Target, now: int)
    ensures var complete :=
      && h.handoffId != "" && h.sourceDeviceId != "" && h.targetDeviceId != "" && h.targetDeviceDisplayName != ""
      && h.targetPublicKeyFingerprint != "" && h.material.senderPublicKey != "" && h.material.nonce != ""
      && h.material.ciphertext != "" && h.material.tag != "" && h.createdAt <= h.expiresAt;
      var known := h.material.algorithm == "P256-HKDF-SHA256-AES-GCM-256";
      var forUs :=
        h.targetDeviceId == expected.deviceId && h.targetPublicKeyFingerprint == expected.publicKeyFingerprint;
      var r := ParseResponse(h, expected, now);
      && (r == Err(ResponseInvalidVersion) <==> h.version != 1)
      && (r == Err(ResponseInvalidPayload) <==> h.version == 1 && !complete)
      && (r == Err(ResponseUnsupportedAlgorithm) <==> h.version == 1 && complete && !known)
      && (r == Err(ResponseTargetMismatch) <==> h.version == 1 && complete && known && !forUs)
      && (r == Err(ResponseExpired) <==> h.version == 1 && complete && known && forUs && now > h.expiresAt)
      && (r == Ok(h) <==> h.version == 1 && complete && known && forUs && now <= h.expiresAt)
  {
  }

  /** The handoff id of opening `k` was opened before by the same opener. */
  predicate OpenedBefore(openings: seq<Opening>, k: nat, p: Platform)
    requires k < |openings|
  {
    exists i :: 0 <= i < k && Opens(openings, i, p) && openings[i].h.handoffId == openings[k].h.handoffId
  }

  lemma {:induction false} ConsumedExactlyByOpening(openings: seq<Opening>, k: nat, id: string, p: Platform)
    requires k <= |openings|
    ensures id in ConsumedAfter(openings, k, p)
      <==> exists i :: 0 <= i < k && Opens(openings, i, p) && openings[i].h.handoffId == id
  {
    hide OpenPayload;
    if k > 0 {
      ConsumedExactlyByOpening(openings, k - 1, id, p);
      assert Opens(openings, k - 1, p) || ConsumedAfter(openings, k, p) == ConsumedAfter(openings, k - 1, p);
    }
  }

  /**
   Whatever one opener was given before, it opens a handoff exactly when it is of the known algorithm, in time, made
   for the expected phone, not opened before, and decryptable; otherwise the error is that of the first check that
   fails.
   */
  lemma {:induction false} OpeningAnswersExactly(openings: seq<Opening>, k: nat, p: Platform)
    requires k < |openings|
    ensures var o := openings[k];
      var r := OpenOf(ConsumedAfter(openings, k, p), o.h, o.key, o.expected, o.now, p).1;
      if o.h.material.algorithm != "P256-HKDF-SHA256-AES-GCM-256" then r == Err(OpenUnsupportedAlgorithm)
      else if o.now > o.h.expiresAt then r == Err(OpenExpired)
      else if (o.h.targetDeviceId, o.h.targetPublicKeyFingerprint)
              != (o.expected.deviceId, o.expected.publicKeyFingerprint) then r == Err(OpenTargetMismatch)
      else if OpenedBefore(openings, k, p) then r == Err(OpenReplayed)
      else match OpenPayload(p, o.h, o.key) case None => r == Err(OpenFailed) case Some(items) => r == Ok(items)
  {
    hide OpenPayload, Opens;
    ConsumedExactlyByOpening(openings, k, openings[k].h.handoffId, p);
  }

  /** The sealed parts of a handoff, decoded: the sender's key, the nonce, the ciphertext and its tag. */
  datatype SealedParts = SealedParts(sender: Bytes, nonce: Bytes, ciphertext: Bytes, tag: Bytes)

  predicate Carries(p: Platform, h: Handoff, parts: SealedParts) {
    && FromBase64Url(p, h.material.senderPublicKey) == Some(parts.sender) && p.isPublicKey(parts.sender)
    && p.fromBase64(h.material.nonce) == Some(parts.nonce)
    && p.fromBase64(h.material.ciphertext) == Some(parts.ciphertext)
    && p.fromBase64(h.material.tag) == Some(parts.tag)
  }

  /** What the parts decrypt to, under the key agreed with the sender and bound to the parties. */
  function Decrypted(p: Platform, h: Handoff, parts: SealedParts, key: PrivateKey): Option<Bytes> {
    var ad := AssociatedData(p, h.handoffId, h.sourceDeviceId, h.targetDeviceId, h.targetPublicKeyFingerprint);
    p.open(parts.nonce, parts.ciphertext, parts.tag, p.deriveKey(p.sharedSecret(key, parts.sender), ad), ad)
  }

  /** A handoff opens to these credentials exactly if it is complete and its parts decrypt to their encoding. */
  lemma {:induction false} PayloadOpensExactly(p: Platform, h: Handoff, key: PrivateKey, items: seq<Credential>)
    ensures OpenPayload(p, h, key) == Some(items) <==>
      && h.version == 1 && h.createdAt <= h.expiresAt
      && "" !in {h.handoffId, h.sourceDeviceId, h.targetDeviceId, h.targetPublicKeyFingerprint}
      && exists parts, payload ::
           Carries(p, h, parts) && Decrypted(p, h, parts, key) == Some(payload) && p.decodeItems(payload) == Some(items)
  {
    hide FromBase64Url, AssociatedData;
    if OpenPayload(p, h, key) == Some(items) {
      var parts := SealedParts(
        FromBase64Url(p, h.material.senderPublicKey).value, p.fromBase64(h.material.nonce).value,
        p.fromBase64(h.material.ciphertext).value, p.fromBase64(h.material.tag).value);
      assert Carries(p, h, parts) && Decrypted(p, h, parts, key).Some?;
    }
  }

  // ---------------------------------------------------------------------------------------------
  // Importing.
  // ---------------------------------------------------------------------------------------------

  /**
   Importing answers with the first step that fails, and uses the handoff up as soon as it opens, whatever comes after.
   On success every id holds the last credential received under it, or what it held.
   */
  lemma {:induction false} ImportingAnswersExactly(
    consumed: set<string>, held: Result<Store, HandoffImportError>, h: Handoff, key: Option<PrivateKey>,
    expected: Target, now: int, writes: bool, p: Platform)
    ensures var (consumed', r) := ImportHandoffOf(consumed, held, h, key, expected, now, writes, p);
      if key.None? then consumed' == consumed && r == Err(NoPrivateKey)
      else match OpenOf(consumed, h, key.value, expected, now, p).1
        case Err(e) => consumed' == consumed && r == Err(NotOpened(e))
        case Ok(items) =>
          && consumed' == consumed + {h.handoffId}
          && if held.Err? then r == Err(held.error)
             else if items == [] then r == Err(NotImported(EmptyPayload))
             else if exists c :: c in items && !IsValidCredential(c) then r == Err(NotImported(InvalidCredential))
             else if !writes then r == Err(NotImported(PersistFailed))
             else r.Ok? && forall id :: HoldsAt(r.value, held.value, items, id)
  {
    hide OpenPayload, Overridden, HoldsAt;
    if key.Some? && held.Ok? && OpenOf(consumed, h, key.value, expected, now, p).1.Ok? {
      var items := OpenOf(consumed, h, key.value, expected, now, p).1.value;
      assert items[..|items|] == items;
      forall id ensures HoldsAt(Overridden(held.value, items, |items|), held.value, items, id) {
        OverriddenLooksUp(held.value, items, |items|, id);
      }
      assert AllValid(items) <==> forall c :: c in items ==> IsValidCredential(c);
    }
  }

  /** The envelope is of the known version and opens under the key to the snapshot of this listing. */
  ghost predicate IsSnapshotOf(p: Platform, e: StoreEnvelope, key: Bytes, listing: seq<Credential>) {
    e.version == 1 && exists snapshot ::
      p.open(e.nonce, e.ciphertext, e.tag, key, []) == Some(snapshot) && p.decodeSnapshot(snapshot) == Some(listing)
  }

  /**
   A file loads exactly if there is none, or if its envelope lists credentials with distinct ids, and then as a store
   that holds each under its id; with an id twice the load traps, and any other file is invalid.
   */
  lemma {:induction false} FileLoadsExactly(p: Platform, file: FileContents, key: Bytes, listing: seq<Credential>)
    ensures var r := Loaded(p, file, key);
      && (file.Absent? ==> r == Ok(map[]))
      && (file.Undecodable? ==> r == Err(InvalidEncryptedStore))
      && (file.Holding? && IsSnapshotOf(p, file.envelope, key, listing) ==>
            if DistinctIds(listing) then r.Ok? && forall id :: HoldsAt(r.value, map[], listing, id)
            else r == Err(Trapped))
      && (file.Holding? && !(exists any :: IsSnapshotOf(p, file.envelope, key, any)) ==>
            r == Err(InvalidEncryptedStore))
  {
    hide Overridden, HoldsAt, DistinctIds;
    if file.Holding? && IsSnapshotOf(p, file.envelope, key, listing) && DistinctIds(listing) {
      assert listing[..|listing|] == listing;
      forall id ensures HoldsAt(Overridden(map[], listing, |listing|), map[], listing, id) {
        OverriddenLooksUp(map[], listing, |listing|, id);
      }
    }
    if file.Holding? && Loaded(p, file, key) != Err(InvalidEncryptedStore) {
      var e := file.envelope;
      assert IsSnapshotOf(p, e, key, p.decodeSnapshot(p.open(e.nonce, e.ciphertext, e.tag, key, []).value).value);
    }
  }
}
