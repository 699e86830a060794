/**
 Password envelopes (packages/security/src): the Argon2id/XChaCha20 envelope that is written today, in its vault and
 developer-secret forms, and the two legacy XOR envelopes that are still opened. The cryptographic primitives, UTF-8
 and JSON parsing belong to the host and are constrained only by the laws below.
 */
module Envelope {
  import opened Basics
  import opened Base64
  import opened LegacyStream
  import opened Utf16

  const MAX_PLAINTEXT_BYTES: nat := 1_048_576
  const AEAD_TAG_BYTES: nat := 16
  const MAX_CIPHERTEXT_BYTES: nat := MAX_PLAINTEXT_BYTES + AEAD_TAG_BYTES
  /** `Math.ceil((MAX_CIPHERTEXT_BYTES * 4) / 3)`. */
  const MAX_CIPHERTEXT_CHARACTERS: nat := (MAX_CIPHERTEXT_BYTES * 4 + 2) / 3
  const MAX_ENVELOPE_CHARACTERS: nat := MAX_CIPHERTEXT_CHARACTERS + 2_048
  const OPS_LIMIT: int := 2
  const MEM_LIMIT: int := 67_108_864
  const SALT_BYTES: nat := 16
  const NONCE_BYTES: nat := 24
  const MAX_PURPOSE_BYTES: nat := 128
  const LEGACY_SALT_CHARACTERS: nat := 16
  const MAX_LEGACY_PAYLOAD_CHARACTERS: nat := 4 * ((MAX_PLAINTEXT_BYTES + 2) / 3)

  const AEAD_CIPHER: string := "xchacha20poly1305-ietf"
  const PWHASH_ALGORITHM: string := "argon2id13"
  const XOR_CIPHER: string := "xor-stream-v1"
  const UNLOCK_PASSPHRASE: string := "unlock-passphrase-v1"
  const MASTER_PASSWORD: string := "master-password-v1"

  // ---------------------------------------------------------------------------------------------
  // The host.
  // ---------------------------------------------------------------------------------------------

  type Bytes = seq<Byte>

  datatype Sodium = Sodium(
    matchesPolicy: bool,
    pwhash: (Text, Bytes, int, int) -> Bytes,
    encrypt: (Bytes, string, Bytes, Bytes) -> Bytes,
    decrypt: (Bytes, string, Bytes, Bytes) -> Option<Bytes>,
    fromBase64: Decoder)

  /** A field of a parsed JSON object. */
  datatype Field = Absent | TextField(text: string) | NumberField(number: int) | OtherField

  /** A parsed JSON object: the keys the envelopes use, and how many others it has. */
  datatype Parsed = Parsed(
    version: Field, cipher: Field, purpose: Field, encryptedPayload: Field, nonce: Field, salt: Field,
    opsLimit: Field, memLimit: Field, keyDerivation: Field, unlockSalt: Field, unlockTag: Field, tag: Field,
    otherKeys: nat)

  datatype Host = Host(
    sodium: Sodium, text: TextCodec, parseJson: string -> Option<Parsed>, trimStart: string -> string)

  /** Authenticated encryption adds a tag and is undone with the same key, nonce and associated data. */
  ghost predicate LawfulSodium(s: Sodium) {
    && (forall p, ad, n, k :: |s.encrypt(p, ad, n, k)| == |p| + AEAD_TAG_BYTES)
    && (forall p, ad, n, k :: s.decrypt(s.encrypt(p, ad, n, k), ad, n, k) == Some(p))
    && ReadsBack(s.fromBase64, UrlSafe)
  }

  /** A character takes at most four bytes in UTF-8. */
  ghost predicate FourBytesACharacter(text: TextCodec) {
    forall s :: |text.encode(Units(s))| <= 4 * |s|
  }

  /** Parsing reads back the objects that are printed below. */
  ghost predicate ReadsBackJson(parse: string -> Option<Parsed>) {
    && (forall version, c :: PlainSealed(c) ==> parse(SealedJson(version, c)) == Some(SealedObject(version, c)))
    && (forall kind, c :: PlainLegacy(c) ==> parse(LegacyJson(kind, c)) == Some(LegacyObject(kind, c)))
  }

  ghost predicate LawfulHost(h: Host) {
    && LawfulSodium(h.sodium)
    && LawfulText(h.text)
    && FourBytesACharacter(h.text)
    && ReadsBackJson(h.parseJson)
    && (forall s :: s != "" && s[0] == '{' ==> h.trimStart(s) == s)
  }

  // ---------------------------------------------------------------------------------------------
  // Sealing and opening with a password.
  // ---------------------------------------------------------------------------------------------

  datatype Sealed = Sealed(
    cipher: string, purpose: string, encryptedPayload: string, nonce: string, salt: string,
    opsLimit: int, memLimit: int, keyDerivation: string)

  datatype SealError = EmptyPassword | EmptyPurpose | PurposeTooLong | PlaintextTooLong | UnsupportedRuntime

  /** `salt` and `nonce` are the random bytes of this call. */
  function SealWithPassword(plaintext: Text, password: Text, purpose: string, salt: Bytes, nonce: Bytes, h: Host)
    : Result<Sealed, SealError>
  {
    if password == [] then Err(EmptyPassword)
    else if purpose == "" then Err(EmptyPurpose)
    else if |h.text.encode(Units(purpose))| > MAX_PURPOSE_BYTES then Err(PurposeTooLong)
    else if |h.text.encode(plaintext)| > MAX_PLAINTEXT_BYTES then Err(PlaintextTooLong)
    else if !h.sodium.matchesPolicy then Err(UnsupportedRuntime)
    else
      var key := h.sodium.pwhash(password, salt, OPS_LIMIT, MEM_LIMIT);
      var encrypted := h.sodium.encrypt(h.text.encode(plaintext), purpose, nonce, key);
      Ok(Sealed(AEAD_CIPHER, purpose, Encode(UrlSafe, encrypted), Encode(UrlSafe, nonce), Encode(UrlSafe, salt),
                OPS_LIMIT, MEM_LIMIT, PWHASH_ALGORITHM))
  }

  /** The policy on a ciphertext: exact parameters, exact lengths, canonical base64url everywhere. */
  predicate IsSupported(c: Sealed, h: Host) {
    var dec := h.sodium.fromBase64;
    && h.sodium.matchesPolicy
    && c.opsLimit == OPS_LIMIT && c.memLimit == MEM_LIMIT
    && c.purpose != "" && |h.text.encode(Units(c.purpose))| <= MAX_PURPOSE_BYTES
    && |c.salt| == 22 && |c.nonce| == 32
    && 22 <= |c.encryptedPayload| <= MAX_CIPHERTEXT_CHARACTERS
    && var salt := DecodeCanonicalBase64Url(c.salt, dec);
       var nonce := DecodeCanonicalBase64Url(c.nonce, dec);
       var ciphertext := DecodeCanonicalBase64Url(c.encryptedPayload, dec);
       && salt.Some? && |salt.value| == SALT_BYTES
       && nonce.Some? && |nonce.value| == NONCE_BYTES
       && ciphertext.Some? && AEAD_TAG_BYTES <= |ciphertext.value| <= MAX_CIPHERTEXT_BYTES
  }

  function OpenWithPassword(c: Sealed, password: Text, h: Host): Text {
    if password == [] then []
    else if c.cipher != AEAD_CIPHER || c.keyDerivation != PWHASH_ALGORITHM
            || c.purpose == "" || c.encryptedPayload == "" || c.nonce == "" || c.salt == "" then []
    else if !IsSupported(c, h) then []
    else
      var dec := h.sodium.fromBase64;
      var key := h.sodium.pwhash(password, dec(c.salt).value, c.opsLimit, c.memLimit);
      match h.sodium.decrypt(dec(c.encryptedPayload).value, c.purpose, dec(c.nonce).value, key)
      case None => []
      case Some(plaintext) => h.text.decode(plaintext)
  }

  lemma {:induction false} CanonicalBytes(d: Bytes, dec: Decoder)
    requires ReadsBack(dec, UrlSafe) && d != []
    ensures DecodeCanonicalBase64Url(Encode(UrlSafe, d), dec) == Some(d) && dec(Encode(UrlSafe, d)) == Some(d)
  {
    CanonicalDecodersInvertTheEncoder(Encode(UrlSafe, d), d, dec);
  }

  /** Whatever is sealed meets the policy: each length is exact and each field canonical. */
  lemma {:induction false} SealedIsSupported(
    plaintext: Text, password: Text, purpose: string, salt: Bytes, nonce: Bytes, h: Host)
    requires LawfulSodium(h.sodium) && |salt| == SALT_BYTES && |nonce| == NONCE_BYTES
    requires SealWithPassword(plaintext, password, purpose, salt, nonce, h).Ok?
    ensures IsSupported(SealWithPassword(plaintext, password, purpose, salt, nonce, h).value, h)
  {
    hide Encode, DecodeCanonicalBase64Url, ReadsBack;
    var p := h.text.encode(plaintext);
    var encrypted := h.sodium.encrypt(p, purpose, nonce, h.sodium.pwhash(password, salt, OPS_LIMIT, MEM_LIMIT));
    assert |encrypted| == |p| + AEAD_TAG_BYTES;
    CanonicalBytes(salt, h.sodium.fromBase64);
    CanonicalBytes(nonce, h.sodium.fromBase64);
    CanonicalBytes(encrypted, h.sodium.fromBase64);
  }

  /** What is sealed opens to the plaintext as encoding and decoding leave it. */
  lemma {:induction false} SealedReopens(
    plaintext: Text, password: Text, purpose: string, salt: Bytes, nonce: Bytes, h: Host)
    requires LawfulSodium(h.sodium) && LawfulText(h.text) && |salt| == SALT_BYTES && |nonce| == NONCE_BYTES
    requires SealWithPassword(plaintext, password, purpose, salt, nonce, h).Ok?
    ensures OpenWithPassword(SealWithPassword(plaintext, password, purpose, salt, nonce, h).value, password, h)
         == WithoutBom(ToWellFormed(plaintext))
  {
    hide Encode, DecodeCanonicalBase64Url, ReadsBack, IsSupported;
    SealedIsSupported(plaintext, password, purpose, salt, nonce, h);
    var p := h.text.encode(plaintext);
    var key := h.sodium.pwhash(password, salt, OPS_LIMIT, MEM_LIMIT);
    var encrypted := h.sodium.encrypt(p, purpose, nonce, key);
    assert |encrypted| == |p| + AEAD_TAG_BYTES && h.sodium.decrypt(encrypted, purpose, nonce, key) == Some(p);
    assert h.text.decode(p) == WithoutBom(ToWellFormed(plaintext));
    CanonicalBytes(salt, h.sodium.fromBase64);
    CanonicalBytes(nonce, h.sodium.fromBase64);
    CanonicalBytes(encrypted, h.sodium.fromBase64);
    SealedFieldsAreNotEmpty(salt, nonce, encrypted);
  }

  lemma {:induction false} SealedFieldsAreNotEmpty(salt: Bytes, nonce: Bytes, encrypted: Bytes)
    requires salt != [] && nonce != [] && encrypted != []
    ensures Encode(UrlSafe, salt) != "" && Encode(UrlSafe, nonce) != "" && Encode(UrlSafe, encrypted) != ""
  {
  }

  // ---------------------------------------------------------------------------------------------
  // The envelope as JSON text.
  // ---------------------------------------------------------------------------------------------

  datatype Kind = VaultPassword | DeveloperSecret

  function PurposeOf(kind: Kind): string {
    match kind case VaultPassword => "vault-password" case DeveloperSecret => "developer-secret-blob"
  }

  function VersionOf(kind: Kind): nat {
    match kind case VaultPassword => 3 case DeveloperSecret => 2
  }

  predicate Plain(s: string) {
    forall k :: 0 <= k < |s| ==> ' ' <= s[k] <= '~' && s[k] != '"' && s[k] != '\\'
  }

  /** All texts print without escapes. */
  predicate PlainSealed(c: Sealed) {
    && Plain(c.cipher) && Plain(c.purpose) && Plain(c.encryptedPayload) && Plain(c.nonce) && Plain(c.salt)
    && Plain(c.keyDerivation) && c.opsLimit >= 0 && c.memLimit >= 0
  }

  function SealedJson(version: nat, c: Sealed): string {
    "{\"version\":" + NatText(version) + ",\"cipher\":\"" + c.cipher + "\",\"purpose\":\"" + c.purpose
    + "\",\"encryptedPayload\":\"" + c.encryptedPayload + "\",\"nonce\":\"" + c.nonce + "\",\"salt\":\"" + c.salt
    + "\",\"opsLimit\":" + IntText(c.opsLimit) + ",\"memLimit\":" + IntText(c.memLimit)
    + ",\"keyDerivation\":\"" + c.keyDerivation + "\"}"
  }

  function IntText(n: int): string {
    if n >= 0 then NatText(n) else "-" + NatText(-n)
  }

  function SealedObject(version: nat, c: Sealed): Parsed {
    Parsed(NumberField(version), TextField(c.cipher), TextField(c.purpose), TextField(c.encryptedPayload),
           TextField(c.nonce), TextField(c.salt), NumberField(c.opsLimit), NumberField(c.memLimit),
           TextField(c.keyDerivation), Absent, Absent, Absent, 0)
  }

  /** `sealVaultPassword` and `sealDeveloperSecretBlob`. */
  function SealEnvelope(kind: Kind, plaintext: Text, password: Text, salt: Bytes, nonce: Bytes, h: Host)
    : Result<string, SealError>
  {
    match SealWithPassword(plaintext, password, PurposeOf(kind), salt, nonce, h)
    case Err(e) => Err(e)
    case Ok(c) => Ok(SealedJson(VersionOf(kind), c))
  }

  function ParseEnvelope(ciphertext: string, h: Host): Option<Parsed> {
    if |ciphertext| > MAX_ENVELOPE_CHARACTERS then None else h.parseJson(ciphertext)
  }

  /** `isSecureEnvelope` and `isSecureDeveloperSecretEnvelope`. */
  predicate IsSecure(kind: Kind, p: Parsed) {
    && p.version == NumberField(VersionOf(kind))
    && p.cipher == TextField(AEAD_CIPHER)
    && p.keyDerivation == TextField(PWHASH_ALGORITHM)
    && p.purpose == TextField(PurposeOf(kind))
    && p.encryptedPayload.TextField? && p.nonce.TextField? && p.salt.TextField?
    && p.opsLimit.NumberField? && p.memLimit.NumberField?
  }

  function AsSealed(p: Parsed): Sealed
    requires p.cipher.TextField? && p.purpose.TextField? && p.encryptedPayload.TextField? && p.nonce.TextField?
    requires p.salt.TextField? && p.opsLimit.NumberField? && p.memLimit.NumberField? && p.keyDerivation.TextField?
  {
    Sealed(p.cipher.text, p.purpose.text, p.encryptedPayload.text, p.nonce.text, p.salt.text,
           p.opsLimit.number, p.memLimit.number, p.keyDerivation.text)
  }

  // ---------------------------------------------------------------------------------------------
  // The legacy envelopes.
  // ---------------------------------------------------------------------------------------------

  datatype Legacy = Legacy(encryptedPayload: string, salt: string, tag: string)

  /** `isSupportedLegacyXorEnvelope`. */
  predicate IsSupportedLegacy(c: Legacy) {
    && |c.salt| == LEGACY_SALT_CHARACTERS && AllInAlphabet(Standard, c.salt)
    && |c.encryptedPayload| <= MAX_LEGACY_PAYLOAD_CHARACTERS
    && |c.encryptedPayload| % 4 == 0 && MatchesLegacyPattern(c.encryptedPayload)
    && PayloadBytes(c.encryptedPayload) <= MAX_PLAINTEXT_BYTES
    && |c.tag| == 8 && IsLowerHex(c.tag)
  }

  predicate PlainLegacy(c: Legacy) {
    Plain(c.encryptedPayload) && Plain(c.salt) && Plain(c.tag)
  }

  function LegacyDerivation(kind: Kind): string {
    match kind case VaultPassword => UNLOCK_PASSPHRASE case DeveloperSecret => MASTER_PASSWORD
  }

  function LegacyVersionOf(kind: Kind): nat {
    match kind case VaultPassword => 2 case DeveloperSecret => 1
  }

  function LegacyJson(kind: Kind, c: Legacy): string {
    "{\"version\":" + NatText(LegacyVersionOf(kind)) + ",\"cipher\":\"" + XOR_CIPHER
    + "\",\"encryptedPayload\":\"" + c.encryptedPayload + "\",\"keyDerivation\":\"" + LegacyDerivation(kind)
    + (if kind.VaultPassword? then "\",\"unlockSalt\":\"" else "\",\"salt\":\"") + c.salt
    + (if kind.VaultPassword? then "\",\"unlockTag\":\"" else "\",\"tag\":\"") + c.tag + "\"}"
  }

  function LegacyObject(kind: Kind, c: Legacy): Parsed {
    var bare := Parsed(NumberField(LegacyVersionOf(kind)), TextField(XOR_CIPHER), Absent, TextField(c.encryptedPayload),
                       Absent, Absent, Absent, Absent, TextField(LegacyDerivation(kind)), Absent, Absent, Absent, 0);
    match kind
    case VaultPassword => bare.(unlockSalt := TextField(c.salt), unlockTag := TextField(c.tag))
    case DeveloperSecret => bare.(salt := TextField(c.salt), tag := TextField(c.tag))
  }

  function AsLegacy(kind: Kind, p: Parsed): Option<Legacy> {
    var salt := if kind.VaultPassword? then p.unlockSalt else p.salt;
    var tag := if kind.VaultPassword? then p.unlockTag else p.tag;
    if p.encryptedPayload.TextField? && salt.TextField? && tag.TextField?
    then Some(Legacy(p.encryptedPayload.text, salt.text, tag.text)) else None
  }

  /** `isPassphraseEnvelope` and `isLegacyDeveloperSecretEnvelope`. */
  predicate IsLegacyXor(kind: Kind, p: Parsed) {
    && p.version == NumberField(LegacyVersionOf(kind))
    && p.cipher == TextField(XOR_CIPHER)
    && p.keyDerivation == TextField(LegacyDerivation(kind))
    && AsLegacy(kind, p).Some?
    && IsSupportedLegacy(AsLegacy(kind, p).value)
  }

  function TagOf(plaintext: Text, password: Text, salt: string, h: Host): string {
    HashText(h.text.encode(plaintext + Units(":") + password + Units(":" + salt)))
  }

  function OpenLegacy(c: Legacy, password: Text, h: Host): Text
    requires IsSupportedLegacy(c)
  {
    var bytes := DecodePadded(c.encryptedPayload);
    var plain := h.text.decode(Xored(bytes, password, c.salt, h.text, |bytes|));
    if TagOf(plain, password, c.salt, h) == c.tag then plain else []
  }

  /** What wrote such envelopes: exclusive-or with the keystream, and the hash of the plaintext as a tag. */
  function SealLegacy(plaintext: Text, password: Text, salt: string, h: Host): Legacy {
    var bytes := h.text.encode(plaintext);
    Legacy(EncodePadded(Xored(bytes, password, salt, h.text, |bytes|)), salt, TagOf(plaintext, password, salt, h))
  }

  // ---------------------------------------------------------------------------------------------
  // Opening.
  // ---------------------------------------------------------------------------------------------

  /** `isLegacyEnvelope`: version 1 of the vault envelope holds its password as it is. */
  predicate IsPlaintextEnvelope(p: Parsed) {
    && p.version == NumberField(1) && p.cipher == TextField("xchacha20-poly1305")
    && p.keyDerivation == TextField("argon2id") && p.encryptedPayload.TextField?
  }

  function OpenVaultPassword(ciphertext: string, passphrase: Text, h: Host): Text {
    if ciphertext == "" then []
    else
      match ParseEnvelope(ciphertext, h)
      case None => []
      case Some(p) =>
        if p.version != NumberField(1) && p.version != NumberField(2) && p.version != NumberField(3) then []
        else if IsPlaintextEnvelope(p) then Units(p.encryptedPayload.text)
        else if IsSecure(VaultPassword, p) then
          (if passphrase != [] then OpenWithPassword(AsSealed(p), passphrase, h) else [])
        else if !IsLegacyXor(VaultPassword, p) || passphrase == [] then []
        else OpenLegacy(AsLegacy(VaultPassword, p).value, passphrase, h)
  }

  function OpenDeveloperSecretBlob(ciphertext: string, masterPassword: Text, h: Host): Text {
    if ciphertext == "" || masterPassword == [] then []
    else
      match ParseEnvelope(ciphertext, h)
      case None => []
      case Some(p) =>
        if IsSecure(DeveloperSecret, p) then OpenWithPassword(AsSealed(p), masterPassword, h)
        else if !IsLegacyXor(DeveloperSecret, p) then []
        else OpenLegacy(AsLegacy(DeveloperSecret, p).value, masterPassword, h)
  }

  function Open(kind: Kind, ciphertext: string, password: Text, h: Host): Text {
    match kind
    case VaultPassword => OpenVaultPassword(ciphertext, password, h)
    case DeveloperSecret => OpenDeveloperSecretBlob(ciphertext, password, h)
  }

  /** `openStoredVaultPassword`, which passes text that is no envelope through. */
  function OpenStoredVaultPassword(ciphertext: string, passphrase: Text, h: Host): Text {
    if ciphertext == "" || |ciphertext| > MAX_ENVELOPE_CHARACTERS then []
    else
      var plain := OpenVaultPassword(ciphertext, passphrase, h);
      if plain != [] then plain
      else
        var trimmed := h.trimStart(ciphertext);
        if trimmed != "" && (trimmed[0] == '{' || trimmed[0] == '[' || trimmed[0] == '"') then [] else Units(ciphertext)
  }

  /** `isPassphraseProtectedVaultPassword`. */
  predicate IsPassphraseProtected(ciphertext: string, h: Host) {
    ciphertext != "" && var p := ParseEnvelope(ciphertext, h);
      p.Some? && (IsLegacyXor(VaultPassword, p.value) || IsSecure(VaultPassword, p.value))
  }

  // ---------------------------------------------------------------------------------------------
  // Sealed envelopes always reopen.
  // ---------------------------------------------------------------------------------------------

  lemma {:induction false} EncodedIsPlain(d: Bytes)
    ensures Plain(Encode(UrlSafe, d))
  {
    hide Encode;
    EncodedIsInAlphabet(UrlSafe, d);
  }

  lemma {:induction false} EncodedPaddedIsPlain(d: Bytes)
    ensures Plain(EncodePadded(d))
  {
    if |d| > 2 {
      EncodedPaddedIsPlain(d[3..]);
    }
  }

  lemma {:induction false} ConstantsArePlain()
    ensures Plain(AEAD_CIPHER) && Plain(PWHASH_ALGORITHM)
    ensures Plain("vault-password") && Plain("developer-secret-blob")
  {
  }

  lemma {:induction false} LimitsPrintShort()
    ensures |NatText(2)| == 1 && |NatText(3)| == 1 && |NatText(67_108_864)| <= 8
  {
    assert |NatText(67)| == 2;
    assert |NatText(671)| == 3;
    assert |NatText(6_710)| == 4;
    assert |NatText(67_108)| == 5;
    assert |NatText(671_088)| == 6;
    assert |NatText(6_710_886)| == 7;
  }

  /** The text stays under the limit: the fixed part of an envelope takes less than 300 characters. */
  lemma {:induction false} SealedJsonLength(kind: Kind, c: Sealed)
    requires c.cipher == AEAD_CIPHER && c.keyDerivation == PWHASH_ALGORITHM && c.purpose == PurposeOf(kind)
    requires c.opsLimit == OPS_LIMIT && c.memLimit == MEM_LIMIT && |c.salt| == 22 && |c.nonce| == 32
    ensures 0 < |SealedJson(VersionOf(kind), c)| <= |c.encryptedPayload| + 300
    ensures SealedJson(VersionOf(kind), c)[0] == '{'
  {
    hide NatText;
    LimitsPrintShort();
  }

  lemma {:induction false} SealedIsPlain(
    kind: Kind, plaintext: Text, password: Text, salt: Bytes, nonce: Bytes, h: Host)
    requires SealWithPassword(plaintext, password, PurposeOf(kind), salt, nonce, h).Ok?
    ensures PlainSealed(SealWithPassword(plaintext, password, PurposeOf(kind), salt, nonce, h).value)
  {
    var encrypted := h.sodium.encrypt(
      h.text.encode(plaintext), PurposeOf(kind), nonce, h.sodium.pwhash(password, salt, OPS_LIMIT, MEM_LIMIT));
    EncodedIsPlain(salt);
    EncodedIsPlain(nonce);
    EncodedIsPlain(encrypted);
    PurposeIsPlain(kind);
    ConstantsArePlain();
    hide Plain, Encode, PurposeOf;
  }

  lemma {:induction false} PurposeIsPlain(kind: Kind)
    ensures Plain(PurposeOf(kind))
  {
    hide Plain;
    ConstantsArePlain();
  }

  lemma {:induction false} SealsWithinTheLimits(
    kind: Kind, plaintext: Text, password: Text, salt: Bytes, nonce: Bytes, h: Host)
    requires FourBytesACharacter(h.text) && h.sodium.matchesPolicy
    requires password != [] && |h.text.encode(plaintext)| <= MAX_PLAINTEXT_BYTES
    ensures var sealed := SealWithPassword(plaintext, password, PurposeOf(kind), salt, nonce, h);
      && sealed.Ok?
      && sealed.value.opsLimit == OPS_LIMIT && sealed.value.memLimit == MEM_LIMIT
  {
    assert |h.text.encode(Units(PurposeOf(kind)))| <= 4 * |PurposeOf(kind)| <= MAX_PURPOSE_BYTES;
  }

  /** The envelope that sealing writes: recognised, supported, under every limit. */
  lemma {:induction false} SealedEnvelopeIsRecognised(
    kind: Kind, plaintext: Text, password: Text, salt: Bytes, nonce: Bytes, h: Host)
    requires LawfulHost(h) && h.sodium.matchesPolicy && |salt| == SALT_BYTES && |nonce| == NONCE_BYTES
    requires password != [] && |h.text.encode(plaintext)| <= MAX_PLAINTEXT_BYTES
    ensures var sealed := SealWithPassword(plaintext, password, PurposeOf(kind), salt, nonce, h);
      && sealed.Ok? && IsSupported(sealed.value, h)
      && var json := SealedJson(VersionOf(kind), sealed.value);
         && SealEnvelope(kind, plaintext, password, salt, nonce, h) == Ok(json)
         && json != "" && json[0] == '{' && |json| <= MAX_ENVELOPE_CHARACTERS
         && ParseEnvelope(json, h) == Some(SealedObject(VersionOf(kind), sealed.value))
  {
    SealsWithinTheLimits(kind, plaintext, password, salt, nonce, h);
    hide SealWithPassword, Plain, SealedJson, SealedObject, PurposeOf, PlainSealed, LawfulSodium, LawfulText;
    SealedIsSupported(plaintext, password, PurposeOf(kind), salt, nonce, h);
    SealedFieldsAreFixed(plaintext, password, PurposeOf(kind), salt, nonce, h);
    var sealed := SealWithPassword(plaintext, password, PurposeOf(kind), salt, nonce, h).value;
    SealedJsonLength(kind, sealed);
    SealedIsPlain(kind, plaintext, password, salt, nonce, h);
    assert h.parseJson(SealedJson(VersionOf(kind), sealed)) == Some(SealedObject(VersionOf(kind), sealed));
  }

  /**
   Sealing succeeds exactly for a password that is not empty and a plaintext within the limit; and then the envelope, of
   either kind, opens with the same password to the plaintext exactly when that has no unpaired surrogate and does not
   start with a byte-order mark.
   */
  lemma {:induction false} SealedEnvelopesReopen(
    kind: Kind, plaintext: Text, password: Text, salt: Bytes, nonce: Bytes, h: Host)
    requires LawfulHost(h) && h.sodium.matchesPolicy && |salt| == SALT_BYTES && |nonce| == NONCE_BYTES
    ensures var sealed := SealEnvelope(kind, plaintext, password, salt, nonce, h);
      && (sealed.Ok? <==> password != [] && |h.text.encode(plaintext)| <= MAX_PLAINTEXT_BYTES)
      && (sealed.Ok? ==>
            && Open(kind, sealed.value, password, h) == WithoutBom(ToWellFormed(plaintext))
            && (Open(kind, sealed.value, password, h) == plaintext <==> ComesBack(plaintext))
            && (kind.VaultPassword? ==>
                  OpenStoredVaultPassword(sealed.value, password, h) == Open(kind, sealed.value, password, h)))
  {
    hide SealedJson, IsSupported, SealWithPassword, OpenWithPassword, ParseEnvelope, SealedObject, PurposeOf;
    hide Open, OpenStoredVaultPassword, ToWellFormed, ComesBack;
    if password != [] && |h.text.encode(plaintext)| <= MAX_PLAINTEXT_BYTES {
      hide SealEnvelope, LawfulSodium, FourBytesACharacter, ReadsBackJson;
      SealedEnvelopeIsRecognised(kind, plaintext, password, salt, nonce, h);
      SealedReopens(plaintext, password, PurposeOf(kind), salt, nonce, h);
      SealedFieldsAreFixed(plaintext, password, PurposeOf(kind), salt, nonce, h);
      var sealed := SealWithPassword(plaintext, password, PurposeOf(kind), salt, nonce, h).value;
      var json := SealedJson(VersionOf(kind), sealed);
      assert h.trimStart(json) == json;
      SealedObjectOpens(kind, sealed, json, password, h);
      ComesBackExactly(plaintext);
    } else {
      NothingSealedBeyondTheLimits(plaintext, password, PurposeOf(kind), salt, nonce, h);
    }
  }

  /** Text that parses to a sealed object is opened as one; and as a stored password it is never passed through. */
  lemma {:induction false} SealedObjectOpens(kind: Kind, c: Sealed, json: string, password: Text, h: Host)
    requires json != "" && json[0] == '{' && |json| <= MAX_ENVELOPE_CHARACTERS && h.trimStart(json) == json
    requires ParseEnvelope(json, h) == Some(SealedObject(VersionOf(kind), c)) && password != []
    requires c.cipher == AEAD_CIPHER && c.keyDerivation == PWHASH_ALGORITHM && c.purpose == PurposeOf(kind)
    ensures Open(kind, json, password, h) == OpenWithPassword(c, password, h)
    ensures kind.VaultPassword? ==> OpenStoredVaultPassword(json, password, h) == Open(kind, json, password, h)
  {
    hide OpenWithPassword, ParseEnvelope, IsLegacyXor;
  }

  lemma {:induction false} NothingSealedBeyondTheLimits(
    plaintext: Text, password: Text, purpose: string, salt: Bytes, nonce: Bytes, h: Host)
    requires password == [] || |h.text.encode(plaintext)| > MAX_PLAINTEXT_BYTES
    ensures SealWithPassword(plaintext, password, purpose, salt, nonce, h).Err?
  {
  }

  lemma {:induction false} SealedFieldsAreFixed(
    plaintext: Text, password: Text, purpose: string, salt: Bytes, nonce: Bytes, h: Host)
    requires SealWithPassword(plaintext, password, purpose, salt, nonce, h).Ok?
    ensures var c := SealWithPassword(plaintext, password, purpose, salt, nonce, h).value;
      c.cipher == AEAD_CIPHER && c.keyDerivation == PWHASH_ALGORITHM && c.purpose == purpose
  {
  }

  // ---------------------------------------------------------------------------------------------
  // Legacy envelopes open to what was sealed.
  // ---------------------------------------------------------------------------------------------

  lemma {:induction false} LegacyTextsArePlain(salt: string, tag: string)
    requires AllInAlphabet(Standard, salt) && IsLowerHex(tag)
    ensures Plain(salt) && Plain(tag)
  {
    forall k | 0 <= k < |salt| ensures ' ' <= salt[k] <= '~' && salt[k] != '"' && salt[k] != '\\' {
      assert InAlphabet(Standard, salt[k]);
    }
  }

  lemma {:induction false} LegacyPayloadIsSupported(d: Bytes)
    requires |d| <= MAX_PLAINTEXT_BYTES
    ensures var payload := EncodePadded(d);
      && |payload| <= MAX_LEGACY_PAYLOAD_CHARACTERS && |payload| % 4 == 0
      && MatchesLegacyPattern(payload) && PayloadBytes(payload) <= MAX_PLAINTEXT_BYTES && Plain(payload)
  {
    hide EncodePadded, MatchesLegacyPattern, PayloadBytes, Plain;
    LegacyPatternIsTheEncodersImage(EncodePadded(d));
    assert MatchesLegacyPattern(EncodePadded(d)) && PayloadBytes(EncodePadded(d)) == |d|;
    EncodedPaddedIsPlain(d);
  }

  lemma {:induction false} LegacySealIsSupported(plaintext: Text, password: Text, salt: string, h: Host)
    requires |h.text.encode(plaintext)| <= MAX_PLAINTEXT_BYTES
    requires |salt| == LEGACY_SALT_CHARACTERS && AllInAlphabet(Standard, salt)
    ensures IsSupportedLegacy(SealLegacy(plaintext, password, salt, h))
    ensures PlainLegacy(SealLegacy(plaintext, password, salt, h))
  {
    hide HashText, Xored, EncodePadded, MatchesLegacyPattern, PayloadBytes, Plain, AllInAlphabet, IsLowerHex;
    var bytes := h.text.encode(plaintext);
    LegacyPayloadIsSupported(Xored(bytes, password, salt, h.text, |bytes|));
    HashPrintsItsTopByte(h.text.encode(plaintext + Units(":") + password + Units(":" + salt)));
    LegacyTextsArePlain(salt, TagOf(plaintext, password, salt, h));
  }

  lemma {:induction false} LegacyXorReopens(plaintext: Text, password: Text, salt: string, h: Host)
    requires LawfulText(h.text) && IsSupportedLegacy(SealLegacy(plaintext, password, salt, h))
    ensures var c := SealLegacy(plaintext, password, salt, h);
      OpenLegacy(c, password, h)
      == if TagOf(WithoutBom(ToWellFormed(plaintext)), password, salt, h) == c.tag
         then WithoutBom(ToWellFormed(plaintext)) else []
  {
    hide HashText, Xored, IsSupportedLegacy, DecodePadded, EncodePadded, MatchesLegacyPattern;
    var bytes := h.text.encode(plaintext);
    var crossed := Xored(bytes, password, salt, h.text, |bytes|);
    hide ToWellFormed;
    assert h.text.decode(bytes) == WithoutBom(ToWellFormed(plaintext));
    DecodePaddedEncodePadded(crossed);
    StreamIsItsOwnInverse(bytes, password, salt, h.text);
  }

  lemma {:induction false} LegacyJsonLength(kind: Kind, c: Legacy)
    requires |c.salt| == LEGACY_SALT_CHARACTERS && |c.tag| == 8
    ensures 0 < |LegacyJson(kind, c)| <= |c.encryptedPayload| + 300
  {
    hide NatText;
    assert |NatText(1)| == 1 && |NatText(2)| == 1 by { OneDigit(1); OneDigit(2); }
  }

  lemma {:induction false} OneDigit(n: nat)
    requires n < 10
    ensures |NatText(n)| == 1
  {
  }

  lemma {:induction false} KindsDiffer()
    ensures XOR_CIPHER != AEAD_CIPHER && |XOR_CIPHER| != |"xchacha20-poly1305"|
  {
  }

  /**
   Opening a legacy envelope of either kind gives back what was sealed exactly when the plaintext has no unpaired
   surrogate and does not start with a byte-order mark; otherwise it comes back altered, or nothing does.
   */
  lemma {:induction false} LegacyEnvelopesReopen(kind: Kind, plaintext: Text, password: Text, salt: string, h: Host)
    requires LawfulHost(h) && password != []
    requires |h.text.encode(plaintext)| <= MAX_PLAINTEXT_BYTES
    requires |salt| == LEGACY_SALT_CHARACTERS && AllInAlphabet(Standard, salt)
    ensures var json := LegacyJson(kind, SealLegacy(plaintext, password, salt, h));
      Open(kind, json, password, h) == plaintext <==> ComesBack(plaintext)
  {
    hide ToWellFormed, LegacyJson, SealLegacy, TagOf, IsSupportedLegacy, PlainLegacy;
    hide OpenLegacy, Open, LegacyObject, AllInAlphabet;
    var c := SealLegacy(plaintext, password, salt, h);
    LegacySealIsSupported(plaintext, password, salt, h);
    LegacyXorReopens(plaintext, password, salt, h);
    LegacyFields(plaintext, password, salt, h);
    LegacyJsonLength(kind, c);
    KindsDiffer();
    assert ParseEnvelope(LegacyJson(kind, c), h) == Some(LegacyObject(kind, c));
    LegacyObjectOpens(kind, c, password, h);
    ComesBackExactly(plaintext);
  }

  lemma {:induction false} LegacyObjectOpens(kind: Kind, c: Legacy, password: Text, h: Host)
    requires password != [] && LegacyJson(kind, c) != "" && IsSupportedLegacy(c)
    requires ParseEnvelope(LegacyJson(kind, c), h) == Some(LegacyObject(kind, c))
    ensures Open(kind, LegacyJson(kind, c), password, h) == OpenLegacy(c, password, h)
  {
    hide LegacyJson, IsSupportedLegacy, OpenLegacy, OpenWithPassword, ParseEnvelope;
    KindsDiffer();
  }

  lemma {:induction false} LegacyFields(plaintext: Text, password: Text, salt: string, h: Host)
    requires IsSupportedLegacy(SealLegacy(plaintext, password, salt, h))
    ensures var c := SealLegacy(plaintext, password, salt, h);
      && c.tag == TagOf(plaintext, password, salt, h) && |c.salt| == LEGACY_SALT_CHARACTERS && |c.tag| == 8
      && |c.encryptedPayload| <= MAX_LEGACY_PAYLOAD_CHARACTERS
  {
  }
}
