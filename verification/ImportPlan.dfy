/**
 Turning accepted rows into encrypted vault items (apps/web/src/lib/import/encrypted-import-plan.ts).
 */
module ImportPlan {
  import opened Basics
  import opened Utf16
  import opened Envelope
  import BrowserImport
  import Csv

  const MAX_ID_LENGTH: nat := 200

  datatype PlanError = EmptyPassphrase | InvalidTimestamp | InvalidId | InvalidCiphertext | EncryptionFailed

  /** A new login item; its type, schema version, notes, favourite flag and last use are the same for every import. */
  datatype Item = Item(
    id: string, title: string, username: string, passwordCiphertext: string, websiteUrl: string, source: string,
    timestamp: string)

  /**
   What the plan takes from its caller: the ids its factory yields, a sealer that may throw, and a host name lookup.
   */
  datatype Inputs = Inputs(
    passphrase: Text,
    timestamp: Option<string>,
    makeId: nat -> Option<string>,
    seal: (nat, Text, Text) -> Option<string>,
    hostname: string -> string)

  // ---------------------------------------------------------------------------------------------
  // The two recognisers.
  // ---------------------------------------------------------------------------------------------

  predicate IsIdStart(c: char) {
    'A' <= c <= 'Z' || 'a' <= c <= 'z' || '0' <= c <= '9'
  }

  predicate IsValidId(id: string) {
    && 0 < |id| <= MAX_ID_LENGTH
    && IsIdStart(id[0])
    && forall k :: 1 <= k < |id| ==> IsIdStart(id[k]) || id[k] == '.' || id[k] == '_' || id[k] == ':' || id[k] == '-'
  }

  /** Exactly the nine keys of a version 3 envelope. */
  predicate HasExactKeys(p: Parsed) {
    && !p.version.Absent? && !p.cipher.Absent? && !p.purpose.Absent? && !p.encryptedPayload.Absent? && !p.nonce.Absent?
    && !p.salt.Absent? && !p.opsLimit.Absent? && !p.memLimit.Absent? && !p.keyDerivation.Absent?
    && p.unlockSalt.Absent? && p.unlockTag.Absent? && p.tag.Absent? && p.otherKeys == 0
  }

  /** `isVersionThreeCiphertext`, the strict recogniser. */
  predicate IsVersionThree(ciphertext: string, h: Host) {
    IsPassphraseProtected(ciphertext, h)
    && var p := ParseEnvelope(ciphertext, h).value;
       p.version == NumberField(3) && HasExactKeys(p) && IsSupported(AsSealed(p), h)
  }

  // ---------------------------------------------------------------------------------------------
  // The plan, entry by entry.
  // ---------------------------------------------------------------------------------------------

  function ItemFor(
    entry: BrowserImport.AcceptedEntry, id: string, ciphertext: string, timestamp: string, i: Inputs)
    : Item
  {
    var login := entry.login;
    Item(id, if login.name != "" then login.name else i.hostname(login.websiteOrigin), login.username, ciphertext,
         login.websiteOrigin, "browser_import_" + entry.source, timestamp)
  }

  /** The item of entry `k`, or why it cannot become one, when the ids `used` are taken. */
  function PlanEntry(
    entry: BrowserImport.AcceptedEntry, k: nat, used: set<string>, timestamp: string, i: Inputs, h: Host)
    : Result<Item, PlanError>
  {
    if i.makeId(k).None? || !IsValidId(i.makeId(k).value) || i.makeId(k).value in used then Err(InvalidId)
    else
      match i.seal(k, Units(entry.login.password), i.passphrase)
      case None => Err(EncryptionFailed)
      case Some(ciphertext) =>
        if IsVersionThree(ciphertext, h) then Ok(ItemFor(entry, i.makeId(k).value, ciphertext, timestamp, i))
        else Err(InvalidCiphertext)
  }

  function UsedIds(i: Inputs, n: nat): set<string> {
    if n == 0 then {} else UsedIds(i, n - 1) + if i.makeId(n - 1).Some? then {i.makeId(n - 1).value} else {}
  }

  /** The items of the first `n` entries, or the first error among them. */
  function ItemsOf(entries: seq<BrowserImport.AcceptedEntry>, n: nat, timestamp: string, i: Inputs, h: Host)
    : Result<seq<Item>, PlanError>
    requires n <= |entries|
  {
    if n == 0 then Ok([])
    else
      match ItemsOf(entries, n - 1, timestamp, i, h)
      case Err(e) => Err(e)
      case Ok(items) =>
        match PlanEntry(entries[n - 1], n - 1, UsedIds(i, n - 1), timestamp, i, h)
        case Err(e) => Err(e)
        case Ok(item) => Ok(items + [item])
  }

  lemma {:induction false} ItemsAreInOrder(
    entries: seq<BrowserImport.AcceptedEntry>, n: nat, timestamp: string, i: Inputs, h: Host)
    requires n <= |entries|
    ensures match ItemsOf(entries, n, timestamp, i, h)
      case Err(_) => true
      case Ok(items) =>
        |items| == n
        && forall k :: 0 <= k < n ==> PlanEntry(entries[k], k, UsedIds(i, k), timestamp, i, h) == Ok(items[k])
  {
    hide PlanEntry;
    if n > 0 { ItemsAreInOrder(entries, n - 1, timestamp, i, h); }
  }

  function PlanOf(entries: seq<BrowserImport.AcceptedEntry>, i: Inputs, h: Host): Result<seq<Item>, PlanError> {
    if i.passphrase == [] then Err(EmptyPassphrase)
    else if i.timestamp.None? then Err(InvalidTimestamp)
    else ItemsOf(entries, |entries|, i.timestamp.value, i, h)
  }

  lemma {:induction false} ObstacleStays(
    entries: seq<BrowserImport.AcceptedEntry>, n: nat, m: nat, timestamp: string, i: Inputs, h: Host)
    requires n <= m <= |entries| && ItemsOf(entries, n, timestamp, i, h).Err?
    ensures ItemsOf(entries, m, timestamp, i, h) == ItemsOf(entries, n, timestamp, i, h)
    decreases m
  {
    hide PlanEntry;
    if n < m { ObstacleStays(entries, n, m - 1, timestamp, i, h); }
  }

  lemma {:induction false} NothingPlanned(entries: seq<BrowserImport.AcceptedEntry>, i: Inputs, h: Host)
    ensures forall timestamp :: ItemsOf(entries, 0, timestamp, i, h) == Ok([])
  {
  }

  /** One more entry is planned after the ids before it. */
  lemma {:induction false} PlanStep(
    entries: seq<BrowserImport.AcceptedEntry>, k: nat, items: seq<Item>, timestamp: string, i: Inputs, h: Host)
    requires k < |entries| && ItemsOf(entries, k, timestamp, i, h) == Ok(items)
    ensures ItemsOf(entries, k + 1, timestamp, i, h)
      == match PlanEntry(entries[k], k, UsedIds(i, k), timestamp, i, h)
         case Err(e) => Err(e)
         case Ok(item) => Ok(items + [item])
  {
    hide PlanEntry, UsedIds;
  }

  /** The guards of one entry, in the order in which they are met. */
  lemma {:induction false} EntryPlan(
    entry: BrowserImport.AcceptedEntry, k: nat, used: set<string>, timestamp: string, i: Inputs, h: Host)
    ensures var id, sealed := i.makeId(k), i.seal(k, Units(entry.login.password), i.passphrase);
      PlanEntry(entry, k, used, timestamp, i, h)
      == if id.None? || !IsValidId(id.value) || id.value in used then Err(InvalidId)
         else if sealed.None? then Err(EncryptionFailed)
         else if !IsVersionThree(sealed.value, h) then Err(InvalidCiphertext)
         else Ok(ItemFor(entry, id.value, sealed.value, timestamp, i))
  {
    hide IsVersionThree, IsValidId, ItemFor;
  }

  method BuildEncryptedImportPlan(acceptedEntries: seq<BrowserImport.AcceptedEntry>, i: Inputs, h: Host)
    returns (r: Result<seq<Item>, PlanError>)
    ensures r == PlanOf(acceptedEntries, i, h)
  {
    hide IsVersionThree, IsValidId, ItemFor, ItemsOf, PlanEntry;
    NothingPlanned(acceptedEntries, i, h);
    if i.passphrase == [] {
      return Err(EmptyPassphrase);
    }
    if i.timestamp.None? {
      return Err(InvalidTimestamp);
    }
    var timestamp := i.timestamp.value;
    var items: seq<Item> := [];
    var generatedIds: set<string> := {};
    for k := 0 to |acceptedEntries|
      invariant ItemsOf(acceptedEntries, k, timestamp, i, h) == Ok(items)
      invariant generatedIds == UsedIds(i, k)
    {
      var entry := acceptedEntries[k];
      var id := i.makeId(k);
      PlanStep(acceptedEntries, k, items, timestamp, i, h);
      EntryPlan(entry, k, generatedIds, timestamp, i, h);
      if id.None? || !IsValidId(id.value) || id.value in generatedIds {
        ObstacleStays(acceptedEntries, k + 1, |acceptedEntries|, timestamp, i, h);
        return Err(InvalidId);
      }
      generatedIds := generatedIds + {id.value};
      var passwordCiphertext := i.seal(k, Units(entry.login.password), i.passphrase);
      if passwordCiphertext.None? {
        ObstacleStays(acceptedEntries, k + 1, |acceptedEntries|, timestamp, i, h);
        return Err(EncryptionFailed);
      }
      if !IsVersionThree(passwordCiphertext.value, h) {
        ObstacleStays(acceptedEntries, k + 1, |acceptedEntries|, timestamp, i, h);
        return Err(InvalidCiphertext);
      }
      items := items + [ItemFor(entry, id.value, passwordCiphertext.value, timestamp, i)];
    }
    return Ok(items);
  }

  // ---------------------------------------------------------------------------------------------
  // With the default sealer, every analysis becomes a plan that opens again.
  // ---------------------------------------------------------------------------------------------

  /** The sealer is the vault's own, with fresh random bytes for each entry. */
  ghost predicate SealsByDefault(i: Inputs, salts: nat -> Bytes, nonces: nat -> Bytes, h: Host) {
    && (forall k :: |salts(k)| == SALT_BYTES && |nonces(k)| == NONCE_BYTES)
    && (forall k, password, passphrase {:trigger i.seal(k, password, passphrase)} ::
          i.seal(k, password, passphrase) == DefaultSeal(password, passphrase, salts(k), nonces(k), h))
  }

  function DefaultSeal(password: Text, passphrase: Text, salt: Bytes, nonce: Bytes, h: Host): Option<string> {
    match SealEnvelope(VaultPassword, password, passphrase, salt, nonce, h)
    case Ok(json) => Some(json)
    case Err(_) => None
  }

  /** The id factory yields valid ids and never the same twice. */
  ghost predicate IdsAreGood(i: Inputs, n: nat) {
    && (forall k :: 0 <= k < n ==> i.makeId(k).Some? && IsValidId(i.makeId(k).value))
    && (forall j, k :: 0 <= j < k < n ==> i.makeId(j) != i.makeId(k))
  }

  lemma {:induction false} UsedIdsAreEarlier(i: Inputs, n: nat, id: string)
    requires id in UsedIds(i, n)
    ensures exists k :: 0 <= k < n && i.makeId(k) == Some(id)
  {
    if !(i.makeId(n - 1) == Some(id)) {
      UsedIdsAreEarlier(i, n - 1, id);
    }
  }

  /** The strict recogniser accepts every output of the default sealer. */
  lemma {:induction false} DefaultSealIsVersionThree(
    password: Text, passphrase: Text, salt: Bytes, nonce: Bytes, h: Host)
    requires LawfulHost(h) && h.sodium.matchesPolicy && |salt| == SALT_BYTES && |nonce| == NONCE_BYTES
    requires passphrase != [] && |h.text.encode(password)| <= MAX_PLAINTEXT_BYTES
    ensures var sealed := DefaultSeal(password, passphrase, salt, nonce, h);
      && sealed.Some? && IsVersionThree(sealed.value, h)
      && (OpenVaultPassword(sealed.value, passphrase, h) == password <==> ComesBack(password))
  {
    hide SealedJson, IsSupported, SealWithPassword, OpenWithPassword, SealEnvelope;
    hide ParseEnvelope, IsLegacyXor, LawfulHost;
    SealedEnvelopeIsRecognised(VaultPassword, password, passphrase, salt, nonce, h);
    SealedEnvelopesReopen(VaultPassword, password, passphrase, salt, nonce, h);
    SealedFieldsAreFixed(password, passphrase, PurposeOf(VaultPassword), salt, nonce, h);
  }

  /** Both ends measure text in the same UTF-8 bytes. */
  ghost predicate SameBytes(p: BrowserImport.Platform, h: Host) {
    forall s :: p.utf8ByteLength(s) == |h.text.encode(Units(s))|
  }

  lemma {:induction false} EntryIsPlanned(
    entry: BrowserImport.AcceptedEntry, k: nat, n: nat, i: Inputs, h: Host, salts: nat -> Bytes, nonces: nat -> Bytes)
    requires k < n && IdsAreGood(i, n) && SealsByDefault(i, salts, nonces, h)
    requires LawfulHost(h) && h.sodium.matchesPolicy && i.passphrase != [] && i.timestamp.Some?
    requires |h.text.encode(Units(entry.login.password))| <= MAX_PLAINTEXT_BYTES
    ensures var planned := PlanEntry(entry, k, UsedIds(i, k), i.timestamp.value, i, h);
      planned.Ok? && PlannedFor(planned.value, entry, k, i, h)
  {
    hide IsVersionThree, IsValidId, DefaultSeal, LawfulHost, OpenVaultPassword;
    DefaultSealIsVersionThree(Units(entry.login.password), i.passphrase, salts(k), nonces(k), h);
    UnitsComeBack(entry.login.password);
    if i.makeId(k).value in UsedIds(i, k) {
      UsedIdsAreEarlier(i, k, i.makeId(k).value);
    }
  }

  lemma {:induction false} AllEntriesArePlanned(
    entries: seq<BrowserImport.AcceptedEntry>, n: nat, i: Inputs, h: Host, salts: nat -> Bytes, nonces: nat -> Bytes)
    requires n <= |entries| && IdsAreGood(i, |entries|) && SealsByDefault(i, salts, nonces, h)
    requires LawfulHost(h) && h.sodium.matchesPolicy && i.passphrase != [] && i.timestamp.Some?
    requires forall k :: 0 <= k < |entries| ==> |h.text.encode(Units(entries[k].login.password))| <= MAX_PLAINTEXT_BYTES
    ensures ItemsOf(entries, n, i.timestamp.value, i, h).Ok?
  {
    hide IdsAreGood, SealsByDefault, LawfulHost, PlanEntry, PlannedFor;
    if n > 0 {
      AllEntriesArePlanned(entries, n - 1, i, h, salts, nonces);
      EntryIsPlanned(entries[n - 1], n - 1, |entries|, i, h, salts, nonces);
    }
  }

  /**
   For every analysis the plan succeeds; its items stand for the accepted entries one to one and in order, under
   distinct ids, and opening item `k` gives entry `k`'s password exactly when that does not start with a byte-order
   mark.
   */
  lemma {:induction false} EveryAnalysisBecomesAPlan(
    source: string, csv: string, p: BrowserImport.Platform, i: Inputs, h: Host,
    salts: nat -> Bytes, nonces: nat -> Bytes)
    requires SameBytes(p, h) && SealsByDefault(i, salts, nonces, h)
    requires LawfulHost(h) && h.sodium.matchesPolicy && i.passphrase != [] && i.timestamp.Some?
    ensures match BrowserImport.AnalysisOf(source, csv, p)
      case Err(_) => true
      case Ok(a) =>
        IdsAreGood(i, |a.acceptedEntries|) ==>
          PlannedAsAccepted(PlanOf(a.acceptedEntries, i, h), a.acceptedEntries, i, h)
  {
    hide BrowserImport.AnalysisOf, LawfulHost, SealsByDefault, BrowserImport.WithinLimits;
    hide PlannedAsAccepted, IdsAreGood;
    BrowserImport.AcceptedEntriesAreWithinLimits(source, csv, p);
    if BrowserImport.AnalysisOf(source, csv, p).Ok? {
      var entries := BrowserImport.AnalysisOf(source, csv, p).value.acceptedEntries;
      forall k | 0 <= k < |entries| ensures |h.text.encode(Units(entries[k].login.password))| <= MAX_PLAINTEXT_BYTES {
        assert entries[k] in entries;
        PasswordFits(entries[k], p, h);
      }
      if IdsAreGood(i, |entries|) { SmallEntriesBecomeAPlan(entries, i, h, salts, nonces); }
    }
  }

  /** The plan succeeds, item `k` stands for entry `k`, and no two items share an id. */
  predicate PlannedAsAccepted(
    plan: Result<seq<Item>, PlanError>, entries: seq<BrowserImport.AcceptedEntry>, i: Inputs, h: Host)
  {
    && plan.Ok? && |plan.value| == |entries|
    && (forall k :: 0 <= k < |entries| ==> PlannedFor(plan.value[k], entries[k], k, i, h))
    && (forall j, k :: 0 <= j < k < |entries| ==> plan.value[j].id != plan.value[k].id)
  }

  lemma {:induction false} SmallEntriesBecomeAPlan(
    entries: seq<BrowserImport.AcceptedEntry>, i: Inputs, h: Host, salts: nat -> Bytes, nonces: nat -> Bytes)
    requires IdsAreGood(i, |entries|) && SealsByDefault(i, salts, nonces, h)
    requires LawfulHost(h) && h.sodium.matchesPolicy && i.passphrase != [] && i.timestamp.Some?
    requires forall k :: 0 <= k < |entries| ==> |h.text.encode(Units(entries[k].login.password))| <= MAX_PLAINTEXT_BYTES
    ensures PlannedAsAccepted(PlanOf(entries, i, h), entries, i, h)
  {
    hide LawfulHost, SealsByDefault, PlanEntry, ItemsOf, IsVersionThree, OpenVaultPassword;
    AllEntriesArePlanned(entries, |entries|, i, h, salts, nonces);
    ItemsAreInOrder(entries, |entries|, i.timestamp.value, i, h);
    forall k | 0 <= k < |entries| ensures PlannedFor(PlanOf(entries, i, h).value[k], entries[k], k, i, h) {
      EntryIsPlanned(entries[k], k, |entries|, i, h, salts, nonces);
    }
  }

  lemma {:induction false} PasswordFits(entry: BrowserImport.AcceptedEntry, p: BrowserImport.Platform, h: Host)
    requires BrowserImport.WithinLimits(entry.login, p) && SameBytes(p, h)
    ensures |h.text.encode(Units(entry.login.password))| <= MAX_PLAINTEXT_BYTES
  {
    assert p.utf8ByteLength(entry.login.password) == |h.text.encode(Units(entry.login.password))|;
  }

  /** `item` carries the login of `entry` under the `k`-th id, and its ciphertext opens to the password. */
  predicate PlannedFor(item: Item, entry: BrowserImport.AcceptedEntry, k: nat, i: Inputs, h: Host) {
    && Some(item.id) == i.makeId(k)
    && item.username == entry.login.username && item.websiteUrl == entry.login.websiteOrigin
    && item.source == "browser_import_" + entry.source
    && Some(item.timestamp) == i.timestamp
    && item.title == (if entry.login.name != "" then entry.login.name else i.hostname(entry.login.websiteOrigin))
    && IsVersionThree(item.passwordCiphertext, h)
    && (OpenVaultPassword(item.passwordCiphertext, i.passphrase, h) == Units(entry.login.password)
        <==> entry.login.password == "" || entry.login.password[0] != '\U{FEFF}')
  }
}
