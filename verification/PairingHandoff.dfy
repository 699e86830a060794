/**
 One sealed handoff from the Mac companion to the iPhone: how the Mac makes it (CompanionPairingHandoff.swift), how
 the phone checks the response (PairingPayload.swift) and opens it (PairingHandoffOpener.swift). P-256, HKDF,
 AES-GCM, SHA-256, UTF-8 and JSON belong to the platform and are constrained only by the laws below. Times are whole
 units of a clock.
 */
module PairingHandoff {
  import opened Basics
  import opened Base64
  import opened VaultSession

  type Bytes = seq<Byte>

  type PrivateKey = int

  const ALGORITHM: string := "P256-HKDF-SHA256-AES-GCM-256"
  const CONTEXT: string := "unuvault-pairing-v1"

  datatype Platform = Platform(
    publicDer: PrivateKey -> Bytes,
    isPublicKey: Bytes -> bool,
    sharedSecret: (PrivateKey, Bytes) -> Bytes,
    deriveKey: (Bytes, Bytes) -> Bytes,
    seal: (Bytes, Bytes, Bytes, Bytes) -> (Bytes, Bytes),
    open: (Bytes, Bytes, Bytes, Bytes, Bytes) -> Option<Bytes>,
    fingerprint: Bytes -> string,
    utf8: string -> Bytes,
    fromBase64: string -> Option<Bytes>,
    encodeItems: seq<Credential> -> Bytes,
    decodeItems: Bytes -> Option<seq<Credential>>,
    encodeSnapshot: seq<Credential> -> Bytes,
    decodeSnapshot: Bytes -> Option<seq<Credential>>)

  /** Both sides of a key agreement get one secret. */
  ghost predicate AgreesOnSecrets(p: Platform) {
    && (forall a, b :: p.sharedSecret(a, p.publicDer(b)) == p.sharedSecret(b, p.publicDer(a)))
    && (forall k :: p.isPublicKey(p.publicDer(k)) && p.publicDer(k) != [])
  }

  /** What is sealed opens with the same key, nonce and associated data. */
  ghost predicate OpensWhatItSeals(p: Platform) {
    forall plain, key, nonce, ad :: SealedWell(p, plain, key, nonce, ad)
  }

  predicate SealedWell(p: Platform, plain: Bytes, key: Bytes, nonce: Bytes, ad: Bytes) {
    var (ciphertext, tag) := p.seal(plain, key, nonce, ad);
    p.open(nonce, ciphertext, tag, key, ad) == Some(plain) && |ciphertext| == |plain| && |tag| == 16
  }

  ghost predicate ReadsBackText(p: Platform) {
    && (forall d :: p.fromBase64(EncodePadded(d)) == Some(d))
    && (forall items :: p.decodeItems(p.encodeItems(items)) == Some(items) && p.encodeItems(items) != [])
    && (forall items :: p.decodeSnapshot(p.encodeSnapshot(items)) == Some(items))
    && (forall d :: p.fingerprint(d) != "")
  }

  ghost predicate Lawful(p: Platform) {
    AgreesOnSecrets(p) && OpensWhatItSeals(p) && ReadsBackText(p)
  }

  // ---------------------------------------------------------------------------------------------
  // Base64url by way of padded base64, as both apps do it.
  // ---------------------------------------------------------------------------------------------

  function UrlChar(c: char): char {
    if c == '+' then '-' else if c == '/' then '_' else c
  }

  function StandardChar(c: char): char {
    if c == '-' then '+' else if c == '_' then '/' else c
  }

  function ToUrl(s: string): (r: string)
    ensures |r| == |s|
  {
    if s == "" then ""
    else [UrlChar(s[0])] + ToUrl(s[1..])
  }

  function ToStandard(s: string): (r: string)
    ensures |r| == |s|
  {
    if s == "" then ""
    else [StandardChar(s[0])] + ToStandard(s[1..])
  }

  function WithoutPadding(s: string): string {
    if s == "" then "" else (if s[0] == '=' then "" else [s[0]]) + WithoutPadding(s[1..])
  }

  function Padding(n: nat): string {
    if n == 0 then "" else "=" + Padding(n - 1)
  }

  /** The padding that `n` bytes need. */
  function PadCount(n: nat): nat {
    if n == 0 then 0 else if n == 1 then 2 else if n == 2 then 1 else PadCount(n - 3)
  }

  function Pad(s: string): string {
    if |s| % 4 > 0 then s + Padding(4 - |s| % 4) else s
  }

  function ToBase64Url(d: Bytes): string {
    WithoutPadding(ToUrl(EncodePadded(d)))
  }

  function FromBase64Url(p: Platform, value: string): Option<Bytes> {
    p.fromBase64(Pad(ToStandard(value)))
  }

  lemma {:induction false} PaddedIsEncodedAndPadding(d: Bytes)
    ensures EncodePadded(d) == Encode(Standard, d) + Padding(PadCount(|d|))
  {
    if |d| <= 2 {
      ShortPadding(d);
    } else {
      hide Encode, EncodePadded, Padding, Group;
      var g, n := Group(Standard, d[0], d[1], d[2]), PadCount(|d|);
      PaddedIsEncodedAndPadding(d[3..]);
      EncodeStep(d);
      Regroup(g, Encode(Standard, d[3..]), Padding(n));
    }
  }

  lemma {:induction false} EncodeStep(d: Bytes)
    requires |d| > 2
    ensures var g := Group(Standard, d[0], d[1], d[2]);
      Encode(Standard, d) == g + Encode(Standard, d[3..]) && EncodePadded(d) == g + EncodePadded(d[3..])
  {
  }

  lemma {:induction false} ShortPadding(d: Bytes)
    requires |d| <= 2
    ensures EncodePadded(d) == Encode(Standard, d) + Padding(PadCount(|d|))
  {
    hide Group, Pair, Single;
    assert Padding(0) == "";
    assert Padding(1) == "=";
    assert Padding(2) == "==";
  }

  lemma {:induction false} Regroup(a: string, b: string, c: string)
    ensures a + (b + c) == a + b + c
  {
  }

  /** The replacements turn one alphabet into the other and leave padding alone. */
  lemma {:induction false} CharsTranslate(x: Sextet)
    ensures ToUrl([CharOf(Standard, x)]) == [CharOf(UrlSafe, x)]
    ensures ToStandard([CharOf(UrlSafe, x)]) == [CharOf(Standard, x)]
    ensures CharOf(UrlSafe, x) != '='
  {
  }

  lemma {:induction false} ToUrlConcat(a: string, b: string)
    ensures ToUrl(a + b) == ToUrl(a) + ToUrl(b)
  {
    hide UrlChar;
    if a == "" {
      assert a + b == b && ToUrl(a) + ToUrl(b) == ToUrl(b);
    } else {
      assert (a + b)[1..] == a[1..] + b;
      ToUrlConcat(a[1..], b);
    }
  }

  lemma {:induction false} WithoutPaddingConcat(a: string, b: string)
    ensures WithoutPadding(a + b) == WithoutPadding(a) + WithoutPadding(b)
  {
    if a == "" {
      assert a + b == b && WithoutPadding(a) + WithoutPadding(b) == WithoutPadding(b);
    } else {
      assert (a + b)[1..] == a[1..] + b;
      WithoutPaddingConcat(a[1..], b);
      Regroup(if a[0] == '=' then "" else [a[0]], WithoutPadding(a[1..]), WithoutPadding(b));
    }
  }

  lemma {:induction false} SextetsTranslate(xs: seq<Sextet>, s: string, u: string)
    requires |s| == |u| == |xs|
    requires forall k :: 0 <= k < |xs| ==> s[k] == CharOf(Standard, xs[k]) && u[k] == CharOf(UrlSafe, xs[k])
    ensures ToUrl(s) == u && ToStandard(u) == s && WithoutPadding(u) == u
  {
    if xs != [] {
      CharsTranslate(xs[0]);
      assert s == [s[0]] + s[1..] && u == [u[0]] + u[1..];
      SextetsTranslate(xs[1..], s[1..], u[1..]);
    }
  }

  /** The sextets of data, the same for both alphabets. */
  function Sextets(d: Bytes): seq<Sextet> {
    if d == [] then []
    else if |d| == 1 then [d[0] / 4, d[0] % 4 * 16]
    else if |d| == 2 then [d[0] / 4, d[0] % 4 * 16 + d[1] / 16, d[1] % 16 * 4]
    else [d[0] / 4, d[0] % 4 * 16 + d[1] / 16, d[1] % 16 * 4 + d[2] / 64, d[2] % 64] + Sextets(d[3..])
  }

  lemma {:induction false} EncodeIsSextets(a: Alphabet, d: Bytes)
    ensures |Encode(a, d)| == |Sextets(d)|
    ensures forall k :: 0 <= k < |Sextets(d)| ==> Encode(a, d)[k] == CharOf(a, Sextets(d)[k])
  {
    hide CharOf;
    if |d| > 2 { EncodeIsSextets(a, d[3..]); }
  }

  lemma {:induction false} AlphabetsTranslate(d: Bytes)
    ensures ToUrl(Encode(Standard, d)) == Encode(UrlSafe, d)
    ensures ToStandard(Encode(UrlSafe, d)) == Encode(Standard, d)
    ensures WithoutPadding(Encode(UrlSafe, d)) == Encode(UrlSafe, d)
  {
    hide Encode, Sextets;
    EncodeIsSextets(Standard, d);
    EncodeIsSextets(UrlSafe, d);
    SextetsTranslate(Sextets(d), Encode(Standard, d), Encode(UrlSafe, d));
  }

  lemma {:induction false} PaddingVanishes(n: nat)
    ensures ToUrl(Padding(n)) == Padding(n) && WithoutPadding(Padding(n)) == "" && |Padding(n)| == n
  {
    if n > 0 { PaddingVanishes(n - 1); }
  }

  /** The encoder by replacements is the URL-safe encoder, and the decoder by padding reads it back. */
  lemma {:induction false} Base64UrlReadsBack(p: Platform, d: Bytes)
    requires ReadsBackText(p)
    ensures ToBase64Url(d) == Encode(UrlSafe, d)
    ensures FromBase64Url(p, ToBase64Url(d)) == Some(d)
  {
    hide Encode, EncodePadded, ToUrl, ToStandard, WithoutPadding, PadCount;
    var n := PadCount(|d|);
    PaddedIsEncodedAndPadding(d);
    AlphabetsTranslate(d);
    PaddingVanishes(n);
    ToUrlConcat(Encode(Standard, d), Padding(n));
    WithoutPaddingConcat(Encode(UrlSafe, d), Padding(n));
    assert Encode(UrlSafe, d) + "" == Encode(UrlSafe, d);
    PaddingLength(|d|);
    assert Pad(Encode(Standard, d)) == EncodePadded(d);
  }

  /** So the link decoder of the phone, which decodes this way, accepts exactly what the encoder writes. */
  lemma {:induction false} PhoneLinksAreCanonical(p: Platform, value: string, d: Bytes)
    requires ReadsBackText(p)
    ensures DecodePairingLink(value, s => FromBase64Url(p, s)) == Some(d) <==> d != [] && value == ToBase64Url(d)
  {
    hide FromBase64Url, ToBase64Url, Encode, DecodePairingLink;
    var decode: Decoder := s => FromBase64Url(p, s);
    forall e ensures decode(Encode(UrlSafe, e)) == Some(e) {
      Base64UrlReadsBack(p, e);
    }
    Base64UrlReadsBack(p, d);
    CanonicalDecodersInvertTheEncoder(value, d, decode);
  }

  lemma {:induction false} PaddingLength(n: nat)
    ensures var chars := (4 * n + 2) / 3;
      PadCount(n) == if chars % 4 > 0 then 4 - chars % 4 else 0
  {
    if n > 2 {
      PaddingLength(n - 3);
      ThreeMoreBytes(n - 3);
      FourMoreCharacters((4 * (n - 3) + 2) / 3);
    }
  }

  lemma {:induction false} ThreeMoreBytes(n: nat)
    ensures (4 * (n + 3) + 2) / 3 == 4 + (4 * n + 2) / 3
  {
  }

  lemma {:induction false} FourMoreCharacters(c: nat)
    ensures (4 + c) % 4 == c % 4
  {
  }

  // ---------------------------------------------------------------------------------------------
  // The Mac makes a handoff.
  // ---------------------------------------------------------------------------------------------

  datatype Target = Target(deviceId: string, displayName: string, publicKeyFingerprint: string, publicKey: string)

  datatype Material = Material(
    algorithm: string, senderPublicKey: string, nonce: string, ciphertext: string, tag: string)

  datatype Handoff = Handoff(
    handoffId: string, version: int, sourceDeviceId: string, targetDeviceId: string, targetDeviceDisplayName: string,
    targetPublicKeyFingerprint: string, createdAt: int, expiresAt: int, material: Material)

  predicate IsValidKeyAgreementPublicKey(p: Platform, t: Target) {
    var key := FromBase64Url(p, t.publicKey);
    key.Some? && p.isPublicKey(key.value) && t.publicKeyFingerprint == p.fingerprint(key.value)
  }

  function AssociatedData(
    p: Platform, handoffId: string, sourceDeviceId: string, targetDeviceId: string, fingerprint: string)
    : Bytes
  {
    p.utf8(CONTEXT + "|" + handoffId + "|" + sourceDeviceId + "|" + targetDeviceId + "|" + fingerprint)
  }

  /** `senderKey` is the ephemeral key and `nonce` the random nonce of this call. */
  function MakeHandoff(
    p: Platform, credentials: seq<Credential>, sourceDeviceId: string, t: Target, now: int, ttl: int, handoffId: string,
    senderKey: PrivateKey, nonce: Bytes)
    : Handoff
    requires IsValidKeyAgreementPublicKey(p, t)
  {
    var ad := AssociatedData(p, handoffId, sourceDeviceId, t.deviceId, t.publicKeyFingerprint);
    var recipient := FromBase64Url(p, t.publicKey).value;
    var key := p.deriveKey(p.sharedSecret(senderKey, recipient), ad);
    var (ciphertext, tag) := p.seal(p.encodeItems(credentials), key, nonce, ad);
    Handoff(handoffId, 1, sourceDeviceId, t.deviceId, t.displayName, t.publicKeyFingerprint, now, now + ttl,
            Material(ALGORITHM, ToBase64Url(p.publicDer(senderKey)),
                     EncodePadded(nonce), EncodePadded(ciphertext), EncodePadded(tag)))
  }

  // ---------------------------------------------------------------------------------------------
  // The phone checks and opens it.
  // ---------------------------------------------------------------------------------------------

  datatype ResponseError =
    | ResponseInvalidVersion
    | ResponseInvalidPayload
    | ResponseUnsupportedAlgorithm
    | ResponseTargetMismatch
    | ResponseExpired

  function ParseResponse(h: Handoff, expected: Target, now: int): Result<Handoff, ResponseError> {
    if h.version != 1 then Err(ResponseInvalidVersion)
    else if h.handoffId == "" || h.sourceDeviceId == "" || h.targetDeviceId == "" || h.targetDeviceDisplayName == ""
         || h.targetPublicKeyFingerprint == "" || h.material.senderPublicKey == "" || h.material.nonce == ""
         || h.material.ciphertext == "" || h.material.tag == "" || h.createdAt > h.expiresAt then
         Err(ResponseInvalidPayload)
    else if h.material.algorithm != ALGORITHM then Err(ResponseUnsupportedAlgorithm)
    else if h.targetDeviceId != expected.deviceId || h.targetPublicKeyFingerprint != expected.publicKeyFingerprint then
      Err(ResponseTargetMismatch)
    else if now > h.expiresAt then Err(ResponseExpired)
    else Ok(h)
  }

  function OpenPayload(p: Platform, h: Handoff, recipientKey: PrivateKey): Option<seq<Credential>> {
    var sender := FromBase64Url(p, h.material.senderPublicKey);
    var nonce := p.fromBase64(h.material.nonce);
    var ciphertext := p.fromBase64(h.material.ciphertext);
    var tag := p.fromBase64(h.material.tag);
    if h.version != 1 || h.handoffId == "" || h.sourceDeviceId == "" || h.targetDeviceId == ""
       || h.targetPublicKeyFingerprint == "" || h.createdAt > h.expiresAt
       || sender.None? || nonce.None? || ciphertext.None? || tag.None? then None
    else if !p.isPublicKey(sender.value) then None
    else
      var ad := AssociatedData(p, h.handoffId, h.sourceDeviceId, h.targetDeviceId, h.targetPublicKeyFingerprint);
      var key := p.deriveKey(p.sharedSecret(recipientKey, sender.value), ad);
      match p.open(nonce.value, ciphertext.value, tag.value, key, ad)
      case None => None
      case Some(payload) => p.decodeItems(payload)
  }

  /** The target that holds private key `k`, as the phone presents itself. */
  predicate PresentsKey(p: Platform, t: Target, k: PrivateKey) {
    t.publicKey == ToBase64Url(p.publicDer(k)) && t.publicKeyFingerprint == p.fingerprint(p.publicDer(k))
  }

  predicate NamesItself(t: Target) {
    t.deviceId != "" && t.displayName != ""
  }

  lemma {:induction false} PresentedKeyIsValid(p: Platform, t: Target, k: PrivateKey)
    requires Lawful(p) && PresentsKey(p, t, k)
    ensures IsValidKeyAgreementPublicKey(p, t) && FromBase64Url(p, t.publicKey) == Some(p.publicDer(k))
    ensures t.publicKeyFingerprint != ""
  {
    hide FromBase64Url, ToBase64Url;
    Base64UrlReadsBack(p, p.publicDer(k));
  }

  /** Until its deadline, what the Mac makes passes every guard of the phone's response parser. */
  lemma {:induction false} MadeHandoffIsAccepted(
    p: Platform, credentials: seq<Credential>, sourceDeviceId: string, t: Target, now: int, ttl: int, handoffId: string,
    senderKey: PrivateKey, nonce: Bytes, k: PrivateKey, later: int)
    requires Lawful(p) && PresentsKey(p, t, k) && NamesItself(t) && IsValidKeyAgreementPublicKey(p, t)
    requires handoffId != "" && sourceDeviceId != "" && nonce != [] && 0 <= ttl
    ensures var h := MakeHandoff(p, credentials, sourceDeviceId, t, now, ttl, handoffId, senderKey, nonce);
      ParseResponse(h, t, later) == if later <= now + ttl then Ok(h) else Err(ResponseExpired)
  {
    hide EncodePadded, FromBase64Url, ToBase64Url, IsValidKeyAgreementPublicKey, Encode, AssociatedData;
    PresentedKeyIsValid(p, t, k);
    Base64UrlReadsBack(p, p.publicDer(senderKey));
    var ad := AssociatedData(p, handoffId, sourceDeviceId, t.deviceId, t.publicKeyFingerprint);
    var key := p.deriveKey(p.sharedSecret(senderKey, p.publicDer(k)), ad);
    assert SealedWell(p, p.encodeItems(credentials), key, nonce, ad);
    var (ciphertext, tag) := p.seal(p.encodeItems(credentials), key, nonce, ad);
    assert |EncodePadded(nonce)| > 0 && |EncodePadded(ciphertext)| > 0 && |EncodePadded(tag)| > 0;
  }

  /** What the Mac seals for a target opens with that target's key to exactly the credentials. */
  lemma {:induction false} MadeHandoffOpens(
    p: Platform, credentials: seq<Credential>, sourceDeviceId: string, t: Target, now: int, ttl: int, handoffId: string,
    senderKey: PrivateKey, nonce: Bytes, k: PrivateKey)
    requires Lawful(p) && PresentsKey(p, t, k) && NamesItself(t) && IsValidKeyAgreementPublicKey(p, t)
    requires handoffId != "" && sourceDeviceId != "" && 0 <= ttl
    ensures OpenPayload(p, MakeHandoff(p, credentials, sourceDeviceId, t, now, ttl, handoffId, senderKey, nonce), k)
         == Some(credentials)
  {
    hide EncodePadded, FromBase64Url, ToBase64Url, IsValidKeyAgreementPublicKey, AssociatedData;
    PresentedKeyIsValid(p, t, k);
    Base64UrlReadsBack(p, p.publicDer(senderKey));
    var ad := AssociatedData(p, handoffId, sourceDeviceId, t.deviceId, t.publicKeyFingerprint);
    var key := p.deriveKey(p.sharedSecret(senderKey, p.publicDer(k)), ad);
    assert SealedWell(p, p.encodeItems(credentials), key, nonce, ad);
    assert p.sharedSecret(k, p.publicDer(senderKey)) == p.sharedSecret(senderKey, p.publicDer(k));
    var (ciphertext, tag) := p.seal(p.encodeItems(credentials), key, nonce, ad);
    assert p.fromBase64(EncodePadded(nonce)) == Some(nonce)
      && p.fromBase64(EncodePadded(ciphertext)) == Some(ciphertext);
    assert p.fromBase64(EncodePadded(tag)) == Some(tag);
    assert p.decodeItems(p.encodeItems(credentials)) == Some(credentials);
  }
}
