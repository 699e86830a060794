/**
 The phone's store of received credentials (PairingHandoffImportStore.swift): a dictionary that a payload overrides,
 kept in memory or in an encrypted file. AES-GCM and JSON are the platform's.
 */
module ImportStore {
  import opened Basics
  import opened VaultSession
  import opened PairingHandoff

  /** `Trapped` is the dictionary initializer that meets an id twice. */
  datatype ImportError = EmptyPayload | InvalidCredential | PersistFailed | InvalidEncryptedStore | Trapped

  type Store = map<string, Credential>

  predicate IsValidCredential(c: Credential) {
    && c.id != "" && c.displayLabel != "" && c.username != "" && c.password != ""
    && c.profileId != "" && c.websiteOrigin != ""
  }

  predicate AllValid(items: seq<Credential>) {
    forall k :: 0 <= k < |items| ==> IsValidCredential(items[k])
  }

  // ---------------------------------------------------------------------------------------------
  // Overriding.
  // ---------------------------------------------------------------------------------------------

  /** `store` overridden by the first `n` items, later items over earlier ones with the same id. */
  function Overridden(store: Store, items: seq<Credential>, n: nat): Store
    requires n <= |items|
  {
    if n == 0 then store else Overridden(store, items, n - 1)[items[n - 1].id := items[n - 1]]
  }

  /** The last of the first `n` items with this id. */
  function LastWith(items: seq<Credential>, n: nat, id: string): (r: Option<nat>)
    requires n <= |items|
    ensures r.Some? ==> r.value < n && items[r.value].id == id && forall m :: r.value < m < n ==> items[m].id != id
    ensures r.None? ==> forall m :: 0 <= m < n ==> items[m].id != id
  {
    if n == 0 then None else if items[n - 1].id == id then Some(n - 1) else LastWith(items, n - 1, id)
  }

  /** `after` holds the last item under every id that the items name, and otherwise what `store` held. */
  predicate HoldsAt(after: Store, store: Store, items: seq<Credential>, id: string) {
    match LastWith(items, |items|, id)
    case Some(k) => id in after && after[id] == items[k]
    case None => (id in after <==> id in store) && (id in after ==> after[id] == store[id])
  }

  lemma {:induction false} OverriddenLooksUp(store: Store, items: seq<Credential>, n: nat, id: string)
    requires n <= |items|
    ensures HoldsAt(Overridden(store, items, n), store, items[..n], id)
  {
    if n > 0 {
      var before, now := items[..n - 1], items[..n];
      OverriddenLooksUp(store, items, n - 1, id);
      assert now[..n - 1] == before && now[n - 1] == items[n - 1];
      assert forall m :: 0 <= m < n - 1 ==> now[m] == before[m];
    }
  }

  /** Every credential is filed under its own id. */
  predicate Keyed(store: Store) {
    forall id :: id in store ==> store[id].id == id
  }

  lemma {:induction false} ImportKeepsKeys(store: Store, items: seq<Credential>, n: nat)
    requires n <= |items| && Keyed(store)
    ensures Keyed(Overridden(store, items, n))
  {
    if n > 0 { ImportKeepsKeys(store, items, n - 1); }
  }

  // ---------------------------------------------------------------------------------------------
  // The encrypted file.
  // ---------------------------------------------------------------------------------------------

  datatype StoreEnvelope = StoreEnvelope(version: int, nonce: Bytes, ciphertext: Bytes, tag: Bytes)

  datatype FileContents = Absent | Undecodable | Holding(envelope: StoreEnvelope)

  /** The snapshot of these credentials, sealed without associated data. */
  function SealedSnapshot(p: Platform, listing: seq<Credential>, key: Bytes, nonce: Bytes): StoreEnvelope {
    var (ciphertext, tag) := p.seal(p.encodeSnapshot(listing), key, nonce, []);
    StoreEnvelope(1, nonce, ciphertext, tag)
  }

  predicate DistinctIds(listing: seq<Credential>) {
    forall i, j :: 0 <= i < j < |listing| ==> listing[i].id != listing[j].id
  }

  function Loaded(p: Platform, file: FileContents, key: Bytes): Result<Store, ImportError> {
    match file
    case Absent => Ok(map[])
    case Undecodable => Err(InvalidEncryptedStore)
    case Holding(e) =>
      if e.version != 1 then Err(InvalidEncryptedStore)
      else
        match p.open(e.nonce, e.ciphertext, e.tag, key, [])
        case None => Err(InvalidEncryptedStore)
        case Some(snapshot) =>
          match p.decodeSnapshot(snapshot)
          case None => Err(InvalidEncryptedStore)
          case Some(listing) => if DistinctIds(listing) then Ok(Overridden(map[], listing, |listing|)) else Err(Trapped)
  }

  /** `listing` holds the store's credentials, each once, in some order: what is saved to the file. */
  predicate Lists(listing: seq<Credential>, store: Store) {
    && DistinctIds(listing)
    && (forall i :: 0 <= i < |listing| ==> listing[i].id in store && store[listing[i].id] == listing[i])
    && (forall id :: id in store ==> store[id] in listing)
  }

  /** The file holds this store, sealed under this key. */
  ghost predicate Saved(p: Platform, file: FileContents, store: Store, key: Bytes) {
    file.Holding?
    && exists listing, nonce :: Lists(listing, store) && file.envelope == SealedSnapshot(p, listing, key, nonce)
  }

  /** Loading a saved store gives the store back. */
  lemma {:induction false} SavedStoreLoads(p: Platform, file: FileContents, store: Store, key: Bytes)
    requires OpensWhatItSeals(p) && ReadsBackText(p)
    requires Keyed(store) && Saved(p, file, store, key)
    ensures Loaded(p, file, key) == Ok(store)
  {
    var listing, nonce :| Lists(listing, store) && file.envelope == SealedSnapshot(p, listing, key, nonce);
    assert SealedWell(p, p.encodeSnapshot(listing), key, nonce, []);
    assert p.decodeSnapshot(p.encodeSnapshot(listing)) == Some(listing);
    ListingIsTheStore(listing, store);
  }

  lemma {:induction false} ListingIsTheStore(listing: seq<Credential>, store: Store)
    requires Keyed(store) && Lists(listing, store)
    ensures Overridden(map[], listing, |listing|) == store
  {
    var loaded := Overridden(map[], listing, |listing|);
    assert listing[..|listing|] == listing;
    forall id ensures (id in loaded <==> id in store) && (id in store ==> loaded[id] == store[id]) {
      OverriddenLooksUp(map[], listing, |listing|, id);
      if id in store { assert store[id] in listing; }
    }
  }

  class StoreFile {
    var contents: FileContents

    constructor (contents: FileContents)
      ensures this.contents == contents
    {
      this.contents := contents;
    }
  }

  datatype Persistence = Memory | EncryptedFile(file: StoreFile, key: Bytes)

  /** The store that a configuration starts with: an empty one in memory, or the one in the file. */
  function InitialStore(p: Platform, where: Persistence): Result<Store, ImportError>
    reads if where.EncryptedFile? then {where.file} else {}
  {
    match where
    case Memory => Ok(map[])
    case EncryptedFile(file, key) => Loaded(p, file.contents, key)
  }

  // ---------------------------------------------------------------------------------------------
  // The store.
  // ---------------------------------------------------------------------------------------------

  /** What a payload makes of the store; `writes` says whether saving succeeds. */
  function ImportOf(store: Store, items: seq<Credential>, writes: bool): Result<Store, ImportError> {
    if items == [] then Err(EmptyPayload)
    else if !AllValid(items) then Err(InvalidCredential)
    else if !writes then Err(PersistFailed)
    else Ok(Overridden(store, items, |items|))
  }

  /** A struct in the source: it is copied before it is changed, and the copies share the file. */
  class PairingHandoffImportStore {
    var importedCredentialsById: Store
    const persistence: Persistence

    constructor (contents: Store, persistence: Persistence)
      ensures importedCredentialsById == contents && this.persistence == persistence
    {
      importedCredentialsById := contents;
      this.persistence := persistence;
    }

    /** The store's credentials; the source sorts them by id, here they come in any order. */
    method ListCredentials() returns (listing: seq<Credential>)
      requires Keyed(importedCredentialsById)
      ensures Lists(listing, importedCredentialsById)
    {
      var ids := importedCredentialsById.Keys;
      listing := [];
      while ids != {}
        invariant ids <= importedCredentialsById.Keys
        invariant DistinctIds(listing)
        invariant forall i :: 0 <= i < |listing| ==>
          && listing[i].id in importedCredentialsById && importedCredentialsById[listing[i].id] == listing[i]
          && listing[i].id !in ids
        invariant forall id :: id in importedCredentialsById && id !in ids ==> importedCredentialsById[id] in listing
        decreases |ids|
      {
        var id :| id in ids;
        ids := ids - {id};
        listing := listing + [importedCredentialsById[id]];
      }
    }

    /**
     A payload that is empty or has an incomplete credential changes nothing. Otherwise the dictionary is overridden;
     then saving succeeds, and the file holds the new dictionary, or it fails, and the file is as it was.
     */
    method ImportPayload(items: seq<Credential>, p: Platform, nonce: Bytes, writes: bool)
      returns (error: Option<ImportError>)
      requires Keyed(importedCredentialsById)
      modifies this, if persistence.EncryptedFile? then {persistence.file} else {}
      ensures Keyed(importedCredentialsById)
      ensures match ImportOf(old(importedCredentialsById), items, writes || persistence.Memory?)
        case Ok(_) => error == None
        case Err(e) => error == Some(e)
      ensures error == Some(EmptyPayload) <==> items == []
      ensures error == Some(InvalidCredential) <==>
        exists c :: c in items && "" in {c.id, c.displayLabel, c.username, c.password, c.profileId, c.websiteOrigin}
      ensures error.Some? ==> error.value in {EmptyPayload, InvalidCredential, PersistFailed}
      ensures error == Some(PersistFailed) ==> persistence.EncryptedFile? && !writes
      ensures importedCredentialsById
        == if items != [] && AllValid(items) then Overridden(old(importedCredentialsById), items, |items|)
           else old(importedCredentialsById)
      ensures persistence.EncryptedFile? && error == None ==>
        Saved(p, persistence.file.contents, importedCredentialsById, persistence.key)
      ensures persistence.EncryptedFile? && error != None ==>
        persistence.file.contents == old(persistence.file.contents)
    {
      if |items| == 0 {
        return Some(EmptyPayload);
      }
      for k := 0 to |items|
        invariant forall i :: 0 <= i < k ==> IsValidCredential(items[i])
        invariant importedCredentialsById == old(importedCredentialsById)
        invariant persistence.EncryptedFile? ==> persistence.file.contents == old(persistence.file.contents)
      {
        if !IsValidCredential(items[k]) {
          return Some(InvalidCredential);
        }
      }
      for k := 0 to |items|
        invariant importedCredentialsById == Overridden(old(importedCredentialsById), items, k)
        invariant persistence.EncryptedFile? ==> persistence.file.contents == old(persistence.file.contents)
      {
        importedCredentialsById := importedCredentialsById[items[k].id := items[k]];
      }
      ImportKeepsKeys(old(importedCredentialsById), items, |items|);
      if persistence.EncryptedFile? {
        var listing := ListCredentials();
        if !writes {
          return Some(PersistFailed);
        }
        persistence.file.contents := Holding(SealedSnapshot(p, listing, persistence.key, nonce));
      }
      return None;
    }
  }
}
