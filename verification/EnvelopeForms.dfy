/**
 What sealing writes and what opening does with any text: which ciphertexts the policies accept, said by what they
 encode, and what each form of envelope opens to.
 */
module EnvelopeForms {
  import opened Basics
  import opened Base64
  import opened LegacyStream
  import opened Utf16
  import opened Envelope

  // ---------------------------------------------------------------------------------------------
  // The sealed form.
  // ---------------------------------------------------------------------------------------------

  /** The parts of a sealed value: random salt and nonce, and what was encrypted. */
  datatype Parts = Parts(salt: Bytes, nonce: Bytes, encrypted: Bytes)

  /** The fixed parameters, and each part written in base64url. */
  predicate Writes(c: Sealed, parts: Parts) {
    && c.cipher == "xchacha20poly1305-ietf" && c.keyDerivation == "argon2id13"
    && c.opsLimit == 2 && c.memLimit == 67_108_864
    && c.salt == Encode(UrlSafe, parts.salt) && c.nonce == Encode(UrlSafe, parts.nonce)
    && c.encryptedPayload == Encode(UrlSafe, parts.encrypted)
  }

  /** 16 bytes of salt, 24 of nonce, and a ciphertext of a tag and at most one MiB. */
  predicate Sized(parts: Parts) {
    |parts.salt| == 16 && |parts.nonce| == 24 && 16 <= |parts.encrypted| <= 1_048_592
  }

  predicate PurposeFits(purpose: string, h: Host) {
    purpose != "" && |h.text.encode(Units(purpose))| <= 128
  }

  /** The key of a password, and what is encrypted under it: the plaintext, bound to its purpose. */
  function Encrypted(plaintext: Text, password: Text, purpose: string, salt: Bytes, nonce: Bytes, h: Host): Bytes {
    h.sodium.encrypt(h.text.encode(plaintext), purpose, nonce, h.sodium.pwhash(password, salt, 2, 67_108_864))
  }

  /** Sealing is refused for the first fault of its arguments; otherwise it writes the plaintext encrypted. */
  lemma {:induction false} SealAnswersExactly(
    plaintext: Text, password: Text, purpose: string, salt: Bytes, nonce: Bytes, h: Host)
    ensures var r := SealWithPassword(plaintext, password, purpose, salt, nonce, h);
      if password == [] then r == Err(SealError.EmptyPassword)
      else if purpose == "" then r == Err(EmptyPurpose)
      else if !PurposeFits(purpose, h) then r == Err(PurposeTooLong)
      else if |h.text.encode(plaintext)| > 1_048_576 then r == Err(PlaintextTooLong)
      else if !h.sodium.matchesPolicy then r == Err(UnsupportedRuntime)
      else
        && r.Ok? && r.value.purpose == purpose
        && Writes(r.value, Parts(salt, nonce, Encrypted(plaintext, password, purpose, salt, nonce, h)))
  {
    hide Encode;
  }

  lemma {:induction false} CanonicalExactly(value: string, d: Bytes, dec: Decoder)
    requires ReadsBack(dec, UrlSafe)
    ensures DecodeCanonicalBase64Url(value, dec) == Some(d) <==> d != [] && value == Encode(UrlSafe, d)
  {
    CanonicalDecodersInvertTheEncoder(value, d, dec);
  }

  /** The policy accepts exactly the values written from parts of the right sizes, for a purpose that fits. */
  lemma {:induction false} SupportedExactly(c: Sealed, h: Host)
    requires ReadsBack(h.sodium.fromBase64, UrlSafe) && h.sodium.matchesPolicy
    requires c.cipher == "xchacha20poly1305-ietf" && c.keyDerivation == "argon2id13"
    ensures IsSupported(c, h) <==> PurposeFits(c.purpose, h) && exists parts :: Sized(parts) && Writes(c, parts)
  {
    hide DecodeCanonicalBase64Url, Encode;
    var dec := h.sodium.fromBase64;
    var salt, nonce, payload := DecodeCanonicalBase64Url(c.salt, dec), DecodeCanonicalBase64Url(c.nonce, dec),
      DecodeCanonicalBase64Url(c.encryptedPayload, dec);
    if IsSupported(c, h) {
      var parts := Parts(salt.value, nonce.value, payload.value);
      CanonicalExactly(c.salt, parts.salt, dec);
      CanonicalExactly(c.nonce, parts.nonce, dec);
      CanonicalExactly(c.encryptedPayload, parts.encrypted, dec);
      assert Sized(parts) && Writes(c, parts);
    }
    if parts :| Sized(parts) && Writes(c, parts) {
      CanonicalExactly(c.salt, parts.salt, dec);
      CanonicalExactly(c.nonce, parts.nonce, dec);
      CanonicalExactly(c.encryptedPayload, parts.encrypted, dec);
    }
  }

  /** What decrypting these parts for this purpose gives, or nothing. */
  function Decrypted(parts: Parts, password: Text, purpose: string, h: Host): Text {
    match h.sodium.decrypt(
      parts.encrypted, purpose, parts.nonce, h.sodium.pwhash(password, parts.salt, 2, 67_108_864))
    case None => []
    case Some(plaintext) => h.text.decode(plaintext)
  }

  /** Opening decrypts what a supported value was written from, and gives nothing for any other value. */
  lemma {:induction false} SealedOpensExactly(c: Sealed, password: Text, h: Host, parts: Parts)
    requires ReadsBack(h.sodium.fromBase64, UrlSafe) && h.sodium.matchesPolicy
    ensures password != [] && PurposeFits(c.purpose, h) && Sized(parts) && Writes(c, parts) ==>
      OpenWithPassword(c, password, h) == Decrypted(parts, password, c.purpose, h)
    ensures password == [] || !PurposeFits(c.purpose, h) || !(exists ps :: Sized(ps) && Writes(c, ps)) ==>
      OpenWithPassword(c, password, h) == []
  {
    hide IsSupported, Encode;
    if c.cipher == "xchacha20poly1305-ietf" && c.keyDerivation == "argon2id13" {
      SupportedExactly(c, h);
      if password != [] && PurposeFits(c.purpose, h) && Sized(parts) && Writes(c, parts) {
        assert IsSupported(c, h);
        ReadsBackParts(parts, h);
        assert |Encode(UrlSafe, parts.salt)| > 0 && |Encode(UrlSafe, parts.nonce)| > 0
          && |Encode(UrlSafe, parts.encrypted)| > 0;
      }
    }
  }

  lemma {:induction false} ReadsBackParts(parts: Parts, h: Host)
    requires ReadsBack(h.sodium.fromBase64, UrlSafe)
    ensures var dec := h.sodium.fromBase64;
      && dec(Encode(UrlSafe, parts.salt)) == Some(parts.salt)
      && dec(Encode(UrlSafe, parts.nonce)) == Some(parts.nonce)
      && dec(Encode(UrlSafe, parts.encrypted)) == Some(parts.encrypted)
  {
  }

  // ---------------------------------------------------------------------------------------------
  // The legacy form.
  // ---------------------------------------------------------------------------------------------

  predicate LegacySalt(salt: string) {
    |salt| == 16 && forall k :: 0 <= k < |salt| ==>
      'A' <= salt[k] <= 'Z' || 'a' <= salt[k] <= 'z' || '0' <= salt[k] <= '9' || salt[k] == '+' || salt[k] == '/'
  }

  predicate LegacyTag(tag: string) {
    |tag| == 8 && forall k :: 0 <= k < |tag| ==> '0' <= tag[k] <= '9' || 'a' <= tag[k] <= 'f'
  }

  /** The recogniser accepts exactly padded base64 of at most one MiB, with a salt and a tag of the right shape. */
  lemma {:induction false} LegacySupportedExactly(c: Legacy)
    ensures IsSupportedLegacy(c) <==>
      && LegacySalt(c.salt) && LegacyTag(c.tag)
      && exists d :: c.encryptedPayload == EncodePadded(d) && |d| <= 1_048_576
  {
    hide MatchesLegacyPattern, PayloadBytes, EncodePadded;
    if |c.salt| == 16 { SaltShape(c.salt); }
    LegacyPatternIsTheEncodersImage(c.encryptedPayload);
    if d :| c.encryptedPayload == EncodePadded(d) && |d| <= 1_048_576 {
      LegacyPayloadIsSupported(d);
    }
  }

  lemma {:induction false} SaltShape(salt: string)
    requires |salt| == 16
    ensures AllInAlphabet(Standard, salt) <==> LegacySalt(salt)
  {
    forall k | 0 <= k < |salt|
      ensures InAlphabet(Standard, salt[k]) <==>
        'A' <= salt[k] <= 'Z' || 'a' <= salt[k] <= 'z' || '0' <= salt[k] <= '9' || salt[k] == '+' || salt[k] == '/'
    {
    }
  }

  /**
   Opening crosses the bytes with the keystream; the text comes back exactly if its hash, with the password and the
   salt, is the tag.
   */
  lemma {:induction false} LegacyOpensExactly(c: Legacy, d: Bytes, password: Text, h: Host)
    requires IsSupportedLegacy(c) && c.encryptedPayload == EncodePadded(d)
    ensures var plain := h.text.decode(Xored(d, password, c.salt, h.text, |d|));
      OpenLegacy(c, password, h)
      == if HashText(h.text.encode(plain + Units(":") + password + Units(":" + c.salt))) == c.tag then plain else []
  {
    hide IsSupportedLegacy, EncodePadded, DecodePadded, Xored, HashText;
    DecodePaddedEncodePadded(d);
  }

  // ---------------------------------------------------------------------------------------------
  // Any text.
  // ---------------------------------------------------------------------------------------------

  /** The four things a text can be to the vault. */
  datatype Form = PlainForm(text: string) | SealedForm(c: Sealed) | LegacyForm(legacy: Legacy) | NoForm

  function IsText(f: Field, text: string): bool {
    f.TextField? && f.text == text
  }

  /** Told by the version first, and then by everything that version asks for. */
  function VaultForm(p: Parsed): Form {
    if p.version == NumberField(1) && IsText(p.cipher, "xchacha20-poly1305") && IsText(p.keyDerivation, "argon2id")
       && p.encryptedPayload.TextField? then PlainForm(p.encryptedPayload.text)
    else if p.version == NumberField(3) && IsText(p.cipher, "xchacha20poly1305-ietf")
       && IsText(p.keyDerivation, "argon2id13") && IsText(p.purpose, "vault-password")
       && p.encryptedPayload.TextField? && p.nonce.TextField? && p.salt.TextField?
       && p.opsLimit.NumberField? && p.memLimit.NumberField? then
      SealedForm(Sealed("xchacha20poly1305-ietf", "vault-password", p.encryptedPayload.text, p.nonce.text, p.salt.text,
                        p.opsLimit.number, p.memLimit.number, "argon2id13"))
    else if p.version == NumberField(2) && IsText(p.cipher, "xor-stream-v1")
       && IsText(p.keyDerivation, "unlock-passphrase-v1")
       && p.encryptedPayload.TextField? && p.unlockSalt.TextField? && p.unlockTag.TextField?
       && IsSupportedLegacy(Legacy(p.encryptedPayload.text, p.unlockSalt.text, p.unlockTag.text)) then
      LegacyForm(Legacy(p.encryptedPayload.text, p.unlockSalt.text, p.unlockTag.text))
    else NoForm
  }

  /** Whatever text is stored, opening it does what its form asks for, and gives nothing for a text without one. */
  lemma {:induction false} VaultOpensByForm(ciphertext: string, passphrase: Text, h: Host)
    ensures var plain := OpenVaultPassword(ciphertext, passphrase, h);
      if ciphertext == "" || |ciphertext| > MAX_ENVELOPE_CHARACTERS || h.parseJson(ciphertext).None? then plain == []
      else match VaultForm(h.parseJson(ciphertext).value)
        case PlainForm(text) => plain == Units(text)
        case SealedForm(c) => plain == if passphrase == [] then [] else OpenWithPassword(c, passphrase, h)
        case LegacyForm(c) =>
          IsSupportedLegacy(c) && plain == if passphrase == [] then [] else OpenLegacy(c, passphrase, h)
        case NoForm => plain == []
  {
    hide OpenWithPassword, IsSupportedLegacy, OpenLegacy;
  }

  /** A stored password counts as protected exactly if its form asks for a password. */
  lemma {:induction false} ProtectedExactly(ciphertext: string, h: Host)
    ensures IsPassphraseProtected(ciphertext, h) <==>
      && 0 < |ciphertext| <= MAX_ENVELOPE_CHARACTERS && h.parseJson(ciphertext).Some?
      && var form := VaultForm(h.parseJson(ciphertext).value); form.SealedForm? || form.LegacyForm?
  {
    hide IsSupportedLegacy;
  }

  /** Developer secrets know the two forms that need a password, under their own names. */
  function SecretForm(p: Parsed): Form {
    if p.version == NumberField(2) && IsText(p.cipher, "xchacha20poly1305-ietf")
       && IsText(p.keyDerivation, "argon2id13") && IsText(p.purpose, "developer-secret-blob")
       && p.encryptedPayload.TextField? && p.nonce.TextField? && p.salt.TextField?
       && p.opsLimit.NumberField? && p.memLimit.NumberField? then
      SealedForm(Sealed("xchacha20poly1305-ietf", "developer-secret-blob", p.encryptedPayload.text, p.nonce.text,
                        p.salt.text, p.opsLimit.number, p.memLimit.number, "argon2id13"))
    else if p.version == NumberField(1) && IsText(p.cipher, "xor-stream-v1")
       && IsText(p.keyDerivation, "master-password-v1")
       && p.encryptedPayload.TextField? && p.salt.TextField? && p.tag.TextField?
       && IsSupportedLegacy(Legacy(p.encryptedPayload.text, p.salt.text, p.tag.text)) then
      LegacyForm(Legacy(p.encryptedPayload.text, p.salt.text, p.tag.text))
    else NoForm
  }

  lemma {:induction false} SecretOpensByForm(ciphertext: string, password: Text, h: Host)
    ensures var plain := OpenDeveloperSecretBlob(ciphertext, password, h);
      if ciphertext == "" || password == [] || |ciphertext| > MAX_ENVELOPE_CHARACTERS
         || h.parseJson(ciphertext).None? then plain == []
      else match SecretForm(h.parseJson(ciphertext).value)
        case SealedForm(c) => plain == OpenWithPassword(c, password, h)
        case LegacyForm(c) => IsSupportedLegacy(c) && plain == OpenLegacy(c, password, h)
        case _ => plain == []
  {
    hide OpenWithPassword, IsSupportedLegacy, OpenLegacy;
  }

  predicate LooksLikeJson(ciphertext: string, h: Host) {
    var trimmed := h.trimStart(ciphertext);
    trimmed != "" && trimmed[0] in {'{', '[', '"'}
  }

  /**
   A stored password that opens is what it opens to. One that does not is given back as it is, unless it looks like
   JSON or is too long: a damaged envelope is never taken for a password.
   */
  lemma {:induction false} StoredPasswordsPassThroughExactly(ciphertext: string, passphrase: Text, h: Host)
    ensures var plain, stored :=
      OpenVaultPassword(ciphertext, passphrase, h), OpenStoredVaultPassword(ciphertext, passphrase, h);
      && (plain != [] ==> stored == plain)
      && (plain == [] ==>
            stored
            == if |ciphertext| > MAX_ENVELOPE_CHARACTERS || LooksLikeJson(ciphertext, h) then [] else Units(ciphertext))
  {
    VaultOpensByForm(ciphertext, passphrase, h);
    hide OpenVaultPassword, VaultForm;
  }
}
