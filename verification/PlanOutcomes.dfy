/** How an import plan ends: with the first obstacle of the first entry that has one, or an item for every entry. */
module PlanOutcomes {
  import opened Basics
  import opened Utf16
  import opened Envelope
  import opened ImportPlan
  import BrowserImport

  /** The id of entry `k` was given to an entry before it. */
  ghost predicate IdIsTaken(i: Inputs, k: nat) {
    exists j: nat :: j < k && i.makeId(j) == i.makeId(k)
  }

  /** What stops entry `k`: its id, then its sealing, then what it was sealed to. */
  ghost function ObstacleAt(entries: seq<BrowserImport.AcceptedEntry>, k: nat, i: Inputs, h: Host): Option<PlanError>
    requires k < |entries|
  {
    var id, sealed := i.makeId(k), i.seal(k, Units(entries[k].login.password), i.passphrase);
    if id.None? || !IsValidId(id.value) || IdIsTaken(i, k) then Some(InvalidId)
    else if sealed.None? then Some(EncryptionFailed)
    else if !IsVersionThree(sealed.value, h) then Some(InvalidCiphertext)
    else None
  }

  ghost predicate FirstObstacle(
    entries: seq<BrowserImport.AcceptedEntry>, k: nat, n: nat, i: Inputs, h: Host, e: PlanError)
    requires n <= |entries|
  {
    k < n && ObstacleAt(entries, k, i, h) == Some(e) && forall j :: 0 <= j < k ==> ObstacleAt(entries, j, i, h) == None
  }

  /** The item of entry `k` carries its login, its id and what its password was sealed to. */
  predicate IsItemOf(item: Item, entries: seq<BrowserImport.AcceptedEntry>, k: nat, i: Inputs)
    requires k < |entries|
  {
    var login := entries[k].login;
    && Some(item.id) == i.makeId(k) && Some(item.timestamp) == i.timestamp
    && Some(item.passwordCiphertext) == i.seal(k, Units(login.password), i.passphrase)
    && item.username == login.username && item.websiteUrl == login.websiteOrigin
    && item.source == "browser_import_" + entries[k].source
    && item.title == (if login.name != "" then login.name else i.hostname(login.websiteOrigin))
  }

  lemma {:induction false} UsedExactly(i: Inputs, n: nat, id: string)
    ensures id in UsedIds(i, n) <==> exists j: nat :: j < n && i.makeId(j) == Some(id)
  {
    if n > 0 { UsedExactly(i, n - 1, id); }
  }

  lemma {:induction false} EntryMeetsItsObstacle(
    entries: seq<BrowserImport.AcceptedEntry>, k: nat, i: Inputs, h: Host)
    requires k < |entries| && i.timestamp.Some?
    ensures match PlanEntry(entries[k], k, UsedIds(i, k), i.timestamp.value, i, h)
      case Err(e) => ObstacleAt(entries, k, i, h) == Some(e)
      case Ok(item) => ObstacleAt(entries, k, i, h) == None && IsItemOf(item, entries, k, i)
  {
    hide IsVersionThree, IsValidId;
    if i.makeId(k).Some? { UsedExactly(i, k, i.makeId(k).value); }
  }

  lemma {:induction false} ItemsMeetTheFirstObstacle(
    entries: seq<BrowserImport.AcceptedEntry>, n: nat, i: Inputs, h: Host) returns (k: nat)
    requires n <= |entries| && i.timestamp.Some?
    ensures match ItemsOf(entries, n, i.timestamp.value, i, h)
      case Err(e) => FirstObstacle(entries, k, n, i, h, e)
      case Ok(items) =>
        && |items| == n
        && forall j :: 0 <= j < n ==> ObstacleAt(entries, j, i, h) == None && IsItemOf(items[j], entries, j, i)
  {
    hide PlanEntry, ObstacleAt, IsItemOf;
    k := 0;
    if n > 0 {
      k := ItemsMeetTheFirstObstacle(entries, n - 1, i, h);
      EntryMeetsItsObstacle(entries, n - 1, i, h);
      if ItemsOf(entries, n - 1, i.timestamp.value, i, h).Ok? && ItemsOf(entries, n, i.timestamp.value, i, h).Err? {
        k := n - 1;
      }
    }
  }

  /**
   Without a passphrase or a timestamp there is no plan. Otherwise it succeeds exactly if no entry meets an obstacle,
   with one item for each entry, in order; and it fails with the first obstacle of the first entry that meets one.
   */
  lemma {:induction false} PlanEndsAtTheFirstObstacle(
    entries: seq<BrowserImport.AcceptedEntry>, i: Inputs, h: Host)
    ensures var plan, n := PlanOf(entries, i, h), |entries|;
      if i.passphrase == [] then plan == Err(EmptyPassphrase)
      else if i.timestamp.None? then plan == Err(InvalidTimestamp)
      else
        && (plan.Ok? <==> forall k :: 0 <= k < n ==> ObstacleAt(entries, k, i, h) == None)
        && (plan.Ok? ==> |plan.value| == n && forall k :: 0 <= k < n ==> IsItemOf(plan.value[k], entries, k, i))
        && (plan.Err? ==> exists k: nat :: FirstObstacle(entries, k, n, i, h, plan.error))
  {
    hide ItemsOf, ObstacleAt, IsItemOf;
    if i.passphrase != [] && i.timestamp.Some? {
      var k := ItemsMeetTheFirstObstacle(entries, |entries|, i, h);
    }
  }

  /** The text is an object of the nine keys of a sealed vault password, version 3, with these values and no others. */
  predicate StandsFor(ciphertext: string, c: Sealed, h: Host) {
    && h.parseJson(ciphertext) == Some(SealedObject(3, c))
    && c.cipher == "xchacha20poly1305-ietf" && c.purpose == "vault-password" && c.keyDerivation == "argon2id13"
  }

  /** The strict recogniser accepts exactly such texts, if the policy supports the values. */
  lemma {:induction false} VersionThreeExactly(ciphertext: string, h: Host)
    ensures IsVersionThree(ciphertext, h) <==>
      0 < |ciphertext| <= MAX_ENVELOPE_CHARACTERS && exists c :: StandsFor(ciphertext, c, h) && IsSupported(c, h)
  {
    hide IsSupported, IsSupportedLegacy;
    if IsVersionThree(ciphertext, h) {
      assert StandsFor(ciphertext, AsSealed(h.parseJson(ciphertext).value), h);
    }
    if c :| StandsFor(ciphertext, c, h) && IsSupported(c, h) {
      assert AsSealed(SealedObject(3, c)) == c;
    }
  }
}
