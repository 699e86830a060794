/**
 Vault synchronisation on the server: the row store (lib/supabase.ts) with its upsert, soft delete and listings, and
 the call that composes them (services/vault-service.ts). An item is kept as its id, its payload and the rest of the
 columns its type names. The request body is not checked, and an upserted record is the body's record as it came: it
 may also name the column with the deletion mark.
 */
module VaultSync {
  import opened Basics

  datatype Item = Item(id: string, payload: string, details: string)

  /** A record to upsert; `mark` is the deletion mark, null or a time, when the record names that column. */
  datatype Change = Change(item: Item, mark: Option<Option<int>>)

  datatype Row = Row(profileId: string, item: Item, deletedAt: Option<int>)

  type Rows = map<string, Row>

  /**
   What a call meets: the time; whether a batch in which some record names the mark writes null for the records that
   leave it out, as the database client decides; and which of the store's operations fail.
   */
  datatype Conditions = Conditions(
    now: int, fills: bool, lookupFails: bool, upsertFails: bool, softDeleteFails: bool, listingFails: bool)

  datatype Call = Call(profileId: string, changed: seq<Change>, deleted: seq<string>, at: Conditions)

  datatype Response = Response(updatedItems: map<string, Item>, deletedItemIds: set<string>)

  datatype SyncError = ItemConflict | SyncFailed

  function IdsOf(changes: seq<Change>): set<string> {
    set c | c in changes :: c.item.id
  }

  predicate DistinctIds(changes: seq<Change>) {
    forall i, j :: 0 <= i < j < |changes| ==> changes[i].item.id != changes[j].item.id
  }

  /** `[...new Set(ids)]`: each id once, in the order of first occurrence. */
  function UniqueIds(ids: seq<string>): (r: seq<string>)
    ensures forall id :: id in r <==> id in ids
    ensures forall i, j :: 0 <= i < j < |r| ==> r[i] != r[j]
  {
    if ids == [] then []
    else
      var before := UniqueIds(ids[..|ids| - 1]);
      assert ids == ids[..|ids| - 1] + [ids[|ids| - 1]];
      if ids[|ids| - 1] in before then before else before + [ids[|ids| - 1]]
  }

  /** The changes whose ids are not deleted in the same call. */
  function Kept(changed: seq<Change>, deleted: seq<string>): (r: seq<Change>)
    ensures forall c :: c in r <==> c in changed && c.item.id !in deleted
  {
    if changed == [] then []
    else if changed[0].item.id in deleted then Kept(changed[1..], deleted)
    else [changed[0]] + Kept(changed[1..], deleted)
  }

  // ---------------------------------------------------------------------------------------------
  // The row store.
  // ---------------------------------------------------------------------------------------------

  predicate NamesMark(batch: seq<Change>) {
    exists c :: c in batch && c.mark.Some?
  }

  /** What upserting the batch writes into the mark of this record's row, if anything. */
  function MarkWritten(batch: seq<Change>, c: Change, fills: bool): Option<Option<int>> {
    if c.mark.Some? then c.mark else if fills && NamesMark(batch) then Some(None) else None
  }

  /** The row an upserted record leaves: columns that are not written keep their value. */
  function RowWritten(rows: Rows, profileId: string, batch: seq<Change>, c: Change, fills: bool): Row {
    var kept := if c.item.id in rows then rows[c.item.id].deletedAt else None;
    Row(profileId, c.item, match MarkWritten(batch, c, fills) case Some(mark) => mark case None => kept)
  }

  /** The rows after the first `n` records of the batch: the id is the conflict key. */
  function Upserted(rows: Rows, profileId: string, batch: seq<Change>, fills: bool, n: nat): Rows
    requires n <= |batch|
  {
    if n == 0 then rows
    else
      var before := Upserted(rows, profileId, batch, fills, n - 1);
      before[batch[n - 1].item.id := RowWritten(before, profileId, batch, batch[n - 1], fills)]
  }

  function SoftDeleted(rows: Rows, profileId: string, ids: seq<string>, now: int): Rows {
    map id | id in rows ::
      if id in ids && rows[id].profileId == profileId then rows[id].(deletedAt := Some(now)) else rows[id]
  }

  function LiveItems(rows: Rows, profileId: string): map<string, Item> {
    map id | id in rows && rows[id].profileId == profileId && rows[id].deletedAt.None? :: rows[id].item
  }

  function DeletedIds(rows: Rows, profileId: string): set<string> {
    set id | id in rows && rows[id].profileId == profileId && rows[id].deletedAt.Some?
  }

  class VaultItemTable {
    var rows: Rows

    constructor ()
      ensures rows == map[]
    {
      rows := map[];
    }

    method ListByIds(ids: seq<string>, fails: bool) returns (ok: bool, found: Rows)
      ensures ok == !fails
      ensures ok ==> forall id :: id in found <==> id in rows && id in ids
      ensures ok ==> forall id :: id in found ==> found[id] == rows[id]
    {
      if fails {
        return false, map[];
      }
      return true, map id | id in rows && id in ids :: rows[id];
    }

    /** The database refuses a batch that names an id twice; a batch that is refused or fails changes nothing. */
    method Upsert(profileId: string, batch: seq<Change>, fills: bool, fails: bool) returns (ok: bool)
      modifies this
      ensures ok == (DistinctIds(batch) && !fails)
      ensures rows == if ok then Upserted(old(rows), profileId, batch, fills, |batch|) else old(rows)
    {
      if fails || !DistinctIds(batch) {
        return false;
      }
      for k := 0 to |batch|
        invariant rows == Upserted(old(rows), profileId, batch, fills, k)
      {
        rows := rows[batch[k].item.id := RowWritten(rows, profileId, batch, batch[k], fills)];
      }
      return true;
    }

    method SoftDelete(profileId: string, ids: seq<string>, now: int, fails: bool) returns (ok: bool)
      modifies this
      ensures ok == !fails
      ensures rows == if ok then SoftDeleted(old(rows), profileId, ids, now) else old(rows)
    {
      if fails {
        return false;
      }
      rows := SoftDeleted(rows, profileId, ids, now);
      return true;
    }
  }

  // ---------------------------------------------------------------------------------------------
  // One call, row by row.
  // ---------------------------------------------------------------------------------------------

  predicate ForeignOwned(rows: Rows, profileId: string, id: string) {
    id in rows && rows[id].profileId != profileId
  }

  /** The ids a call names. */
  function Named(call: Call): set<string> {
    IdsOf(call.changed) + (set id | id in call.deleted)
  }

  predicate Conflicts(rows: Rows, call: Call) {
    exists id :: id in Named(call) && ForeignOwned(rows, call.profileId, id)
  }

  function Batch(call: Call): seq<Change> {
    Kept(call.changed, call.deleted)
  }

  /** The ownership check passes. */
  predicate Passes(rows: Rows, call: Call) {
    Named(call) != {} ==> !call.at.lookupFails && !Conflicts(rows, call)
  }

  /** The call writes its changes, if it has any. */
  predicate Changes(rows: Rows, call: Call) {
    Passes(rows, call) && (Batch(call) != [] ==> DistinctIds(Batch(call)) && !call.at.upsertFails)
  }

  /** The call writes its deletions, if it has any. */
  predicate Deletes(rows: Rows, call: Call) {
    Changes(rows, call) && (call.deleted != [] ==> !call.at.softDeleteFails)
  }

  predicate Accepted(rows: Rows, call: Call) {
    Deletes(rows, call) && !call.at.listingFails
  }

  /**
   What a call does to one id. Deleting marks a row that is there and does nothing else, and wins over a change. A
   change replaces the item, takes the caller as owner, and leaves the row's deletion mark alone unless the batch
   writes it. Other ids are left alone; and so is everything that a failing call does not reach.
   */
  ghost predicate RowSynced(before: Rows, after: Rows, call: Call, id: string) {
    if id in call.deleted && Deletes(before, call) then
      && (id in after <==> id in before)
      && (id in before ==> after[id] == before[id].(deletedAt := Some(call.at.now)))
    else if id in IdsOf(call.changed) && id !in call.deleted && Changes(before, call) then
      && id in after
      && exists c :: c in Batch(call) && c.item.id == id
           && after[id] == RowWritten(before, call.profileId, Batch(call), c, call.at.fills)
    else
      && (id in after <==> id in before)
      && (id in before ==> after[id] == before[id])
  }

  function IdList(changes: seq<Change>): (r: seq<string>)
    ensures forall id :: id in r <==> id in IdsOf(changes)
  {
    if changes == [] then [] else [changes[0].item.id] + IdList(changes[1..])
  }

  function ReferencedIds(call: Call): (r: seq<string>)
    ensures forall id :: id in r <==> id in Named(call)
  {
    UniqueIds(IdList(Batch(call)) + UniqueIds(call.deleted))
  }

  function AfterChanges(rows: Rows, call: Call): Rows {
    Upserted(rows, call.profileId, Batch(call), call.at.fills, |Batch(call)|)
  }

  /** The rows after one call, however far it got. */
  function Step(rows: Rows, call: Call): Rows {
    if Deletes(rows, call) then
      SoftDeleted(AfterChanges(rows, call), call.profileId, UniqueIds(call.deleted), call.at.now)
    else if Changes(rows, call) then AfterChanges(rows, call)
    else rows
  }

  /** What the call answers about one profile; payloads are normalised on the way out. */
  function ResponseOf(rows: Rows, profileId: string, normalize: string -> string): Response {
    var live := LiveItems(rows, profileId);
    Response(map id | id in live :: live[id].(payload := normalize(live[id].payload)), DeletedIds(rows, profileId))
  }

  lemma {:induction false} UntouchedByUpsert(
    rows: Rows, profileId: string, batch: seq<Change>, fills: bool, n: nat, id: string)
    requires n <= |batch| && forall i :: 0 <= i < n ==> batch[i].item.id != id
    ensures var after := Upserted(rows, profileId, batch, fills, n);
      (id in after <==> id in rows) && (id in after ==> after[id] == rows[id])
  {
    hide RowWritten;
    if n > 0 { UntouchedByUpsert(rows, profileId, batch, fills, n - 1, id); }
  }

  /** A batch without repeated ids writes each of its records as if it were alone. */
  lemma {:induction false} WrittenByUpsert(
    rows: Rows, profileId: string, batch: seq<Change>, fills: bool, n: nat, i: nat)
    requires i < n <= |batch| && DistinctIds(batch)
    ensures var after, id := Upserted(rows, profileId, batch, fills, n), batch[i].item.id;
      id in after && after[id] == RowWritten(rows, profileId, batch, batch[i], fills)
  {
    hide MarkWritten;
    if i < n - 1 {
      WrittenByUpsert(rows, profileId, batch, fills, n - 1, i);
    } else {
      UntouchedByUpsert(rows, profileId, batch, fills, n - 1, batch[i].item.id);
    }
  }

  lemma {:induction false} UpsertedRow(rows: Rows, profileId: string, batch: seq<Change>, fills: bool, id: string)
    requires DistinctIds(batch)
    ensures var after := Upserted(rows, profileId, batch, fills, |batch|);
      if id in IdsOf(batch) then
        && id in after
        && exists c :: c in batch && c.item.id == id && after[id] == RowWritten(rows, profileId, batch, c, fills)
      else (id in after <==> id in rows) && (id in after ==> after[id] == rows[id])
  {
    hide RowWritten, Upserted;
    if id in IdsOf(batch) {
      var c :| c in batch && c.item.id == id;
      var i :| 0 <= i < |batch| && batch[i] == c;
      WrittenByUpsert(rows, profileId, batch, fills, |batch|, i);
    } else {
      assert forall i :: 0 <= i < |batch| ==> batch[i].item.id in IdsOf(batch);
      UntouchedByUpsert(rows, profileId, batch, fills, |batch|, id);
    }
  }

  lemma {:induction false} EmptyWritesChangeNothing(rows: Rows, profileId: string, fills: bool, now: int)
    ensures Upserted(rows, profileId, [], fills, 0) == rows && SoftDeleted(rows, profileId, [], now) == rows
  {
  }

  /** Every id fares as described, whatever the call and however far it gets. */
  lemma {:induction false} EveryRowSynced(rows: Rows, call: Call)
    ensures forall id :: RowSynced(rows, Step(rows, call), call, id)
  {
    hide Upserted, UniqueIds, Kept, RowWritten, Conflicts;
    if Changes(rows, call) {
      forall id ensures RowSynced(rows, Step(rows, call), call, id) {
        if Batch(call) == [] {
          EmptyWritesChangeNothing(rows, call.profileId, call.at.fills, call.at.now);
        } else {
          UpsertedRow(rows, call.profileId, Batch(call), call.at.fills, id);
        }
        assert id in IdsOf(Batch(call)) <==> id in IdsOf(call.changed) && id !in call.deleted;
        if id in call.deleted && id in rows { PassingOwns(rows, call, id); }
      }
    }
  }

  /** A call that passes the check owns the rows it names. */
  lemma {:induction false} PassingOwns(rows: Rows, call: Call, id: string)
    requires Passes(rows, call) && id in Named(call) && id in rows
    ensures rows[id].profileId == call.profileId
  {
    assert !ForeignOwned(rows, call.profileId, id);
  }

  /** The listing of all referenced ids shows a foreign row exactly when the call names one. */
  lemma {:induction false} ForeignRowIsListed(rows: Rows, call: Call, existing: Rows)
    requires forall id :: id in existing <==> id in rows && id in Named(call)
    requires forall id :: id in existing ==> existing[id] == rows[id]
    ensures Conflicts(rows, call) <==> exists id :: id in existing && existing[id].profileId != call.profileId
  {
    if Conflicts(rows, call) {
      var id :| id in Named(call) && ForeignOwned(rows, call.profileId, id);
      assert id in existing;
    }
    if id :| id in existing && existing[id].profileId != call.profileId {
      assert ForeignOwned(rows, call.profileId, id);
    }
  }

  method SyncVault(
    table: VaultItemTable, call: Call, normalize: string -> string)
    returns (r: Result<Response, SyncError>)
    modifies table
    ensures table.rows == Step(old(table.rows), call)
    ensures forall id :: RowSynced(old(table.rows), table.rows, call, id)
    ensures r == Err(ItemConflict) <==> Conflicts(old(table.rows), call) && !call.at.lookupFails
    ensures r == Err(ItemConflict) ==> table.rows == old(table.rows)
    ensures r.Ok? <==> Accepted(old(table.rows), call)
    ensures r.Ok? ==> r.value == ResponseOf(table.rows, call.profileId, normalize)
  {
    hide Upserted, UniqueIds, Kept, SoftDeleted, Conflicts, RowSynced, IdList, DistinctIds, IdsOf, RowWritten;
    ghost var before := table.rows;
    EveryRowSynced(before, call);
    var deletedItemIds := UniqueIds(call.deleted);
    var changedItems := Kept(call.changed, call.deleted);
    var referencedIds := UniqueIds(IdList(changedItems) + deletedItemIds);
    assert referencedIds == ReferencedIds(call);
    NamedOrNot(call, referencedIds);
    NothingToConflict(before, call);
    if |referencedIds| > 0 {
      var found, existing := table.ListByIds(referencedIds, call.at.lookupFails);
      if !found {
        return Err(SyncFailed);
      }
      ForeignRowIsListed(before, call, existing);
      if exists id :: id in existing && existing[id].profileId != call.profileId {
        return Err(ItemConflict);
      }
    }
    EmptyWritesChangeNothing(before, call.profileId, call.at.fills, call.at.now);
    if |changedItems| > 0 {
      var changed := table.Upsert(call.profileId, changedItems, call.at.fills, call.at.upsertFails);
      if !changed {
        return Err(SyncFailed);
      }
    }
    EmptyWritesChangeNothing(table.rows, call.profileId, call.at.fills, call.at.now);
    if |deletedItemIds| > 0 {
      var deleted := table.SoftDelete(call.profileId, deletedItemIds, call.at.now, call.at.softDeleteFails);
      if !deleted {
        return Err(SyncFailed);
      }
    }
    if call.at.listingFails {
      return Err(SyncFailed);
    }
    return Ok(ResponseOf(table.rows, call.profileId, normalize));
  }

  lemma {:induction false} NamedOrNot(call: Call, referencedIds: seq<string>)
    requires referencedIds == ReferencedIds(call)
    ensures referencedIds == [] <==> Named(call) == {}
    ensures UniqueIds(call.deleted) == [] <==> call.deleted == []
  {
    if referencedIds != [] { assert referencedIds[0] in Named(call); }
    if Named(call) != {} {
      var id :| id in Named(call);
      assert id in referencedIds;
    }
    if call.deleted != [] { assert call.deleted[0] in UniqueIds(call.deleted); }
  }

  lemma {:induction false} NothingToConflict(rows: Rows, call: Call)
    ensures Named(call) == {} ==> !Conflicts(rows, call) && Batch(call) == [] && call.deleted == []
  {
    assert Batch(call) != [] ==> Batch(call)[0].item.id in Named(call);
    assert call.deleted != [] ==> call.deleted[0] in Named(call);
    assert Conflicts(rows, call) ==> exists id :: id in Named(call);
  }

  // ---------------------------------------------------------------------------------------------
  // Runs of calls.
  // ---------------------------------------------------------------------------------------------

  function Run(rows: Rows, calls: seq<Call>, n: nat): Rows
    requires n <= |calls|
  {
    if n == 0 then rows else Step(Run(rows, calls, n - 1), calls[n - 1])
  }

  /** The call writes null into this id's deletion mark. */
  ghost predicate Clears(rows: Rows, call: Call, id: string) {
    Changes(rows, call)
    && exists c :: c in Batch(call) && c.item.id == id && MarkWritten(Batch(call), c, call.at.fills) == Some(None)
  }

  /** The call writes a time into this id's deletion mark, by a deletion or by a change that names one. */
  ghost predicate Marks(rows: Rows, call: Call, id: string) {
    || (Deletes(rows, call) && id in call.deleted)
    || (Changes(rows, call)
        && exists c :: c in Batch(call) && c.item.id == id
             && MarkWritten(Batch(call), c, call.at.fills).Some?
             && MarkWritten(Batch(call), c, call.at.fills).value.Some?)
  }

  /** What one call can do to an id that has a row, and to one that has none. */
  lemma {:induction false} StepKeeps(rows: Rows, call: Call, id: string)
    ensures var after := Step(rows, call);
      && (id in rows ==> id in after && after[id].profileId == rows[id].profileId)
      && (ForeignOwned(rows, call.profileId, id) ==> after[id] == rows[id])
      && (id !in rows && id in after ==> after[id].profileId == call.profileId)
      && (id in rows ==>
            (after[id].deletedAt.Some? <==>
              Marks(rows, call, id) || (rows[id].deletedAt.Some? && !Clears(rows, call, id))))
  {
    hide Step, MarkWritten, Kept, Conflicts;
    EveryRowSynced(rows, call);
    var after := Step(rows, call);
    assert RowSynced(rows, after, call, id);
    if Changes(rows, call) && id in Named(call) && id in rows { PassingOwns(rows, call, id); }
    if Changes(rows, call) && id in IdsOf(call.changed) && id !in call.deleted {
      var c :| c in Batch(call) && c.item.id == id
        && after[id] == RowWritten(rows, call.profileId, Batch(call), c, call.at.fills);
      forall d | d in Batch(call) && d.item.id == id ensures d == c { SameChange(Batch(call), c, d); }
    }
  }

  lemma {:induction false} SameChange(batch: seq<Change>, c: Change, d: Change)
    requires DistinctIds(batch) && c in batch && d in batch && c.item.id == d.item.id
    ensures c == d
  {
    var i :| 0 <= i < |batch| && batch[i] == c;
    var j :| 0 <= j < |batch| && batch[j] == d;
    assert !(i < j) && !(j < i);
  }

  /** A row never leaves its profile. */
  lemma {:induction false} OwnersNeverChange(rows: Rows, calls: seq<Call>, n: nat, id: string)
    requires n <= |calls| && id in rows
    ensures id in Run(rows, calls, n) && Run(rows, calls, n)[id].profileId == rows[id].profileId
  {
    hide Step;
    if n > 0 {
      OwnersNeverChange(rows, calls, n - 1, id);
      StepKeeps(Run(rows, calls, n - 1), calls[n - 1], id);
    }
  }

  /** Call `j` of the run clears this id's mark, and no later one sets it again. */
  ghost predicate ClearedForGood(rows: Rows, calls: seq<Call>, n: nat, id: string, j: nat)
    requires n <= |calls|
  {
    && j < n && Clears(Run(rows, calls, j), calls[j], id)
    && forall k :: j < k < n ==> !Marks(Run(rows, calls, k), calls[k], id)
  }

  /**
   A deleted row stays deleted exactly as long as no call writes null into its mark for good: a change that names the
   mark as null, or leaves it out of a batch that fills it, without a deletion after it.
   */
  lemma {:induction false} DeletedStaysDeletedExactlyUntilCleared(rows: Rows, calls: seq<Call>, n: nat, id: string)
    requires n <= |calls| && id in rows && rows[id].deletedAt.Some?
    ensures id in Run(rows, calls, n)
    ensures Run(rows, calls, n)[id].deletedAt.Some? <==> !exists j: nat :: ClearedForGood(rows, calls, n, id, j)
  {
    hide Step, Clears, Marks;
    OwnersNeverChange(rows, calls, n, id);
    if n > 0 {
      var m: nat := n - 1;
      var before := Run(rows, calls, m);
      OwnersNeverChange(rows, calls, m, id);
      DeletedStaysDeletedExactlyUntilCleared(rows, calls, m, id);
      StepKeeps(before, calls[m], id);
      MarksOrClears(before, calls[m], id);
      if Clears(before, calls[m], id) {
        assert ClearedForGood(rows, calls, n, id, m);
      } else {
        forall j: nat
          ensures ClearedForGood(rows, calls, n, id, j)
            <==> ClearedForGood(rows, calls, m, id, j) && !Marks(before, calls[m], id)
        {
        }
      }
    }
  }

  lemma {:induction false} MarksOrClears(rows: Rows, call: Call, id: string)
    ensures !(Marks(rows, call, id) && Clears(rows, call, id))
  {
    hide MarkWritten, Kept, Conflicts;
    if Clears(rows, call, id) {
      var c :| c in Batch(call) && c.item.id == id && MarkWritten(Batch(call), c, call.at.fills) == Some(None);
      forall d | d in Batch(call) && d.item.id == id ensures d == c { SameChange(Batch(call), c, d); }
    }
  }

  /** A call as its type has it: no change names the deletion mark. */
  predicate Typed(call: Call) {
    forall c :: c in call.changed ==> c.mark.None?
  }

  lemma {:induction false} TypedCallsClearNothing(rows: Rows, call: Call, id: string)
    requires Typed(call)
    ensures !Clears(rows, call, id)
  {
  }

  /** So over calls that keep to their type a deleted row stays deleted: it is live again for nobody. */
  lemma {:induction false} DeletedStaysDeletedForTypedCalls(rows: Rows, calls: seq<Call>, n: nat, id: string)
    requires n <= |calls| && id in rows && rows[id].deletedAt.Some?
    requires forall k :: 0 <= k < n ==> Typed(calls[k])
    ensures forall profileId :: id !in LiveItems(Run(rows, calls, n), profileId)
    ensures id in DeletedIds(Run(rows, calls, n), rows[id].profileId)
  {
    hide Clears, Marks, Step, Run;
    DeletedStaysDeletedExactlyUntilCleared(rows, calls, n, id);
    OwnersNeverChange(rows, calls, n, id);
    forall j: nat | j < n ensures !Clears(Run(rows, calls, j), calls[j], id) {
      TypedCallsClearNothing(Run(rows, calls, j), calls[j], id);
    }
  }

  const UNTROUBLED: Conditions := Conditions(0, false, false, false, false, false)

  /** The owner of a deleted row makes it live again by a change that names the mark as null. */
  lemma {:induction false} AChangeMayRevive(rows: Rows, item: Item)
    requires item.id in rows && rows[item.id].deletedAt.Some?
    ensures var owner := rows[item.id].profileId;
      var call := Call(owner, [Change(item, Some(None))], [], UNTROUBLED);
      && Accepted(rows, call)
      && item.id in LiveItems(Step(rows, call), owner) && LiveItems(Step(rows, call), owner)[item.id] == item
  {
    hide Step;
    var owner := rows[item.id].profileId;
    var c := Change(item, Some(None));
    var call := Call(owner, [c], [], UNTROUBLED);
    OneChange(rows, call, c);
    StepKeeps(rows, call, item.id);
  }

  /** A call with a single change of a new or own id, and nothing else, writes it. */
  lemma {:induction false} OneChange(rows: Rows, call: Call, c: Change)
    requires call.changed == [c] && call.deleted == [] && call.at == UNTROUBLED
    requires !ForeignOwned(rows, call.profileId, c.item.id)
    ensures Accepted(rows, call) && Batch(call) == [c]
    ensures var after := Step(rows, call);
      c.item.id in after && after[c.item.id] == RowWritten(rows, call.profileId, [c], c, false)
  {
    hide Step, RowWritten;
    assert Kept(call.changed[1..], call.deleted) == [];
    assert Batch(call) == [c];
    assert Named(call) == {c.item.id};
    EveryRowSynced(rows, call);
    assert c in Batch(call) && c.item.id in IdsOf(call.changed);
    assert RowSynced(rows, Step(rows, call), call, c.item.id);
  }

  /** Whatever calls follow, by whomever, as long as they keep to their type: the id is not among the live items. */
  ghost predicate NeverLiveAgain(rows: Rows, profileId: string, id: string) {
    forall later: seq<Call> :: (forall k :: 0 <= k < |later| ==> Typed(later[k])) ==>
      id !in LiveItems(Run(rows, later, |later|), profileId)
  }

  /**
   Over such calls, deleting an id keeps it from ever being live again in the profile exactly when the id had a row: an
   id without a row gets no deletion mark, and a later change creates it.
   */
  lemma {:induction false} DeletingIsForGoodExactlyForStoredRows(rows: Rows, call: Call, id: string)
    requires Deletes(rows, call) && id in call.deleted
    ensures id in rows <==> NeverLiveAgain(Step(rows, call), call.profileId, id)
  {
    hide Step, Kept, LiveItems, Conflicts;
    var after := Step(rows, call);
    EveryRowSynced(rows, call);
    assert RowSynced(rows, after, call, id);
    if id in rows {
      forall later: seq<Call> | forall k :: 0 <= k < |later| ==> Typed(later[k])
        ensures id !in LiveItems(Run(after, later, |later|), call.profileId)
      {
        DeletedStaysDeletedForTypedCalls(after, later, |later|, id);
      }
    } else {
      var c := Change(Item(id, "", ""), None);
      var creation := Call(call.profileId, [c], [], UNTROUBLED);
      OneChange(after, creation, c);
      var later := [creation];
      assert Run(after, later, 1) == Step(Run(after, later, 0), later[0]) == Step(after, creation);
      assert id in LiveItems(Run(after, later, |later|), call.profileId) by { NewRowIsLive(after, creation, c); }
    }
  }

  lemma {:induction false} NewRowIsLive(rows: Rows, call: Call, c: Change)
    requires c.item.id !in rows && c.mark.None? && c.item.id in Step(rows, call)
    requires Step(rows, call)[c.item.id] == RowWritten(rows, call.profileId, [c], c, false)
    ensures c.item.id in LiveItems(Step(rows, call), call.profileId)
  {
    hide Step;
  }

  function RowsOf(rows: Rows, profileId: string): Rows {
    map id | id in rows && rows[id].profileId == profileId :: rows[id]
  }

  /** Calls made for other profiles leave a profile's rows exactly as they were. */
  lemma {:induction false} OtherProfilesAreUntouched(rows: Rows, calls: seq<Call>, n: nat, profileId: string)
    requires n <= |calls| && forall k :: 0 <= k < n ==> calls[k].profileId != profileId
    ensures RowsOf(Run(rows, calls, n), profileId) == RowsOf(rows, profileId)
  {
    hide Step, Clears, Marks;
    if n > 0 {
      OtherProfilesAreUntouched(rows, calls, n - 1, profileId);
      var before, after := Run(rows, calls, n - 1), Run(rows, calls, n);
      forall id ensures id in RowsOf(after, profileId) <==> id in RowsOf(before, profileId)
        ensures id in RowsOf(before, profileId) ==> id in after && after[id] == before[id]
      {
        StepKeeps(before, calls[n - 1], id);
      }
      assert RowsOf(after, profileId) == RowsOf(before, profileId);
    }
  }

  /** The deletion mark a change leaves on its row. */
  function MarkAfter(rows: Rows, call: Call, c: Change): Option<int> {
    RowWritten(rows, call.profileId, Batch(call), c, call.at.fills).deletedAt
  }

  /**
   The answer of an accepted call. Live and deleted ids are disjoint and together are the profile's rows. A deleted id
   is not live, even if the same call also changed it; a changed one shows the change, unless its row is left marked.
   */
  lemma {:induction false} AnswerReflectsTheCall(rows: Rows, call: Call, normalize: string -> string)
    requires Accepted(rows, call)
    ensures var after, answer := Step(rows, call), ResponseOf(Step(rows, call), call.profileId, normalize);
      && answer.updatedItems.Keys !! answer.deletedItemIds
      && answer.updatedItems.Keys + answer.deletedItemIds == RowsOf(after, call.profileId).Keys
      && (forall id :: id in call.deleted ==>
            id !in answer.updatedItems && (id in answer.deletedItemIds <==> id in rows))
      && (forall c :: c in call.changed && c.item.id !in call.deleted ==>
          if MarkAfter(rows, call, c).Some? then c.item.id in answer.deletedItemIds
          else
            && c.item.id in answer.updatedItems
            && answer.updatedItems[c.item.id] == c.item.(payload := normalize(c.item.payload)))
  {
    hide Step, Kept, Conflicts, IdsOf, RowWritten;
    var after, answer := Step(rows, call), ResponseOf(Step(rows, call), call.profileId, normalize);
    EveryRowSynced(rows, call);
    forall id | id in call.deleted
      ensures id !in answer.updatedItems && (id in answer.deletedItemIds <==> id in rows)
    {
      assert RowSynced(rows, after, call, id);
      if id in rows { PassingOwns(rows, call, id); }
    }
    forall c | c in call.changed && c.item.id !in call.deleted
      ensures if MarkAfter(rows, call, c).Some? then c.item.id in answer.deletedItemIds
        else
          && c.item.id in answer.updatedItems
          && answer.updatedItems[c.item.id] == c.item.(payload := normalize(c.item.payload))
    {
      ChangeIsStored(rows, call, c);
      WrittenRow(rows, call, c);
    }
  }

  lemma {:induction false} WrittenRow(rows: Rows, call: Call, c: Change)
    ensures var row := RowWritten(rows, call.profileId, Batch(call), c, call.at.fills);
      row.profileId == call.profileId && row.item == c.item
  {
  }

  lemma {:induction false} ChangeIsStored(rows: Rows, call: Call, c: Change)
    requires Changes(rows, call) && c in call.changed && c.item.id !in call.deleted
    ensures c.item.id in Step(rows, call)
    ensures Step(rows, call)[c.item.id] == RowWritten(rows, call.profileId, Batch(call), c, call.at.fills)
  {
    hide Step, Conflicts, RowWritten;
    EveryRowSynced(rows, call);
    var id, after := c.item.id, Step(rows, call);
    assert id in IdsOf(call.changed);
    assert RowSynced(rows, after, call, id);
    var d :| d in Batch(call) && d.item.id == id
      && after[id] == RowWritten(rows, call.profileId, Batch(call), d, call.at.fills);
    SameChange(Batch(call), c, d);
  }

  /** Equal but for the times of deletion. */
  ghost predicate SameButTimes(a: Rows, b: Rows) {
    a.Keys == b.Keys
    && forall id :: id in a ==>
        && a[id].profileId == b[id].profileId && a[id].item == b[id].item
        && a[id].deletedAt.Some? == b[id].deletedAt.Some?
  }

  /** A call that was accepted is accepted again, and then moves nothing but the times of the rows it deletes. */
  lemma {:induction false} RepeatingACallOnlyMovesTimes(rows: Rows, call: Call, later: int, normalize: string -> string)
    requires Accepted(rows, call)
    ensures var again, once := call.(at := call.at.(now := later)), Step(rows, call);
      && Accepted(once, again)
      && SameButTimes(once, Step(once, again))
      && (forall id :: id in once && id !in call.deleted ==> Step(once, again)[id] == once[id])
      && ResponseOf(Step(once, again), call.profileId, normalize) == ResponseOf(once, call.profileId, normalize)
  {
    hide Step, Kept, RowWritten, Conflicts;
    var again, once := call.(at := call.at.(now := later)), Step(rows, call);
    RepeatIsAccepted(rows, call, later);
    forall id ensures id in once <==> id in Step(once, again)
      ensures id in once ==> RowRepeated(once[id], Step(once, again)[id], id in call.deleted)
    {
      RepeatedRow(rows, call, later, id);
    }
    var twice := Step(once, again);
    assert SameButTimes(once, twice);
    SameAnswer(once, twice, call.profileId, normalize);
  }

  lemma {:induction false} RepeatIsAccepted(rows: Rows, call: Call, later: int)
    requires Accepted(rows, call)
    ensures Accepted(Step(rows, call), call.(at := call.at.(now := later)))
  {
    hide Step, Kept;
    var again, once := call.(at := call.at.(now := later)), Step(rows, call);
    forall id | id in Named(again) ensures !ForeignOwned(once, again.profileId, id) {
      StepKeeps(rows, call, id);
      if id in rows { PassingOwns(rows, call, id); }
    }
  }

  predicate RowRepeated(a: Row, b: Row, deleted: bool) {
    if deleted then a.(deletedAt := None) == b.(deletedAt := None) && a.deletedAt.Some? && b.deletedAt.Some? else a == b
  }

  lemma {:induction false} RepeatedRow(rows: Rows, call: Call, later: int, id: string)
    requires Accepted(rows, call) && Accepted(Step(rows, call), call.(at := call.at.(now := later)))
    ensures var once := Step(rows, call);
      var twice := Step(once, call.(at := call.at.(now := later)));
      && (id in once <==> id in twice)
      && (id in once ==> RowRepeated(once[id], twice[id], id in call.deleted))
  {
    hide Step, Kept, Conflicts;
    var again, once := call.(at := call.at.(now := later)), Step(rows, call);
    EveryRowSynced(rows, call);
    EveryRowSynced(once, again);
    assert RowSynced(rows, once, call, id);
    assert RowSynced(once, Step(once, again), again, id);
    if id in IdsOf(call.changed) && id !in call.deleted {
      var c :| c in call.changed && c.item.id == id;
      ChangeIsStored(rows, call, c);
      ChangeIsStored(once, again, c);
    }
  }

  lemma {:induction false} SameAnswer(a: Rows, b: Rows, profileId: string, normalize: string -> string)
    requires SameButTimes(a, b)
    ensures ResponseOf(a, profileId, normalize) == ResponseOf(b, profileId, normalize)
  {
    assert LiveItems(a, profileId) == LiveItems(b, profileId);
    assert DeletedIds(a, profileId) == DeletedIds(b, profileId);
  }

  // ---------------------------------------------------------------------------------------------
  // Calls that overlap: their checks and writes reach the table in any order.
  // ---------------------------------------------------------------------------------------------

  /** One step of a call at the table: its ownership check, its upsert, its soft delete. */
  datatype TableStep = Check(call: nat) | WriteChanges(call: nat) | WriteDeletions(call: nat)

  predicate InRange(calls: seq<Call>, trace: seq<TableStep>) {
    forall k :: 0 <= k < |trace| ==> trace[k].call < |calls|
  }

  function Stepped(rows: Rows, calls: seq<Call>, step: TableStep): Rows
    requires step.call < |calls|
  {
    match step
    case Check(_) => rows
    case WriteChanges(c) => AfterChanges(rows, calls[c])
    case WriteDeletions(c) => SoftDeleted(rows, calls[c].profileId, UniqueIds(calls[c].deleted), calls[c].at.now)
  }

  function Then(rows: Rows, calls: seq<Call>, trace: seq<TableStep>, n: nat): Rows
    requires InRange(calls, trace) && n <= |trace|
  {
    if n == 0 then rows else Stepped(Then(rows, calls, trace, n - 1), calls, trace[n - 1])
  }

  /** Call `c` made its check at step `i`, before step `k`, and passed. */
  predicate PassedAt(rows: Rows, calls: seq<Call>, trace: seq<TableStep>, i: nat, k: nat, c: nat)
    requires InRange(calls, trace) && k <= |trace| && c < |calls|
  {
    i < k && trace[i] == Check(c) && Passes(Then(rows, calls, trace, i), calls[c])
  }

  /** Calls write only after their own check has passed; an upsert that is refused or fails is no step. */
  ghost predicate IsOverlap(rows: Rows, calls: seq<Call>, trace: seq<TableStep>) {
    InRange(calls, trace)
    && forall k :: 0 <= k < |trace| && !trace[k].Check? ==>
        && (exists i: nat :: PassedAt(rows, calls, trace, i, k, trace[k].call))
        && (trace[k].WriteChanges? ==> DistinctIds(Batch(calls[trace[k].call])))
  }

  /** The step upserts this id for its call's profile. */
  predicate Takes(calls: seq<Call>, step: TableStep, id: string)
    requires step.call < |calls|
  {
    step.WriteChanges? && id in IdsOf(Batch(calls[step.call]))
  }

  ghost predicate StepClears(calls: seq<Call>, step: TableStep, id: string)
    requires step.call < |calls|
  {
    && step.WriteChanges?
    && var call := calls[step.call];
       exists c :: c in Batch(call) && c.item.id == id && MarkWritten(Batch(call), c, call.at.fills) == Some(None)
  }

  ghost predicate StepMarks(rows: Rows, calls: seq<Call>, step: TableStep, id: string)
    requires step.call < |calls|
  {
    var call := calls[step.call];
    match step
    case Check(_) => false
    case WriteChanges(_) =>
      exists c :: c in Batch(call) && c.item.id == id
        && MarkWritten(Batch(call), c, call.at.fills).Some? && MarkWritten(Batch(call), c, call.at.fills).value.Some?
    case WriteDeletions(_) => id in call.deleted && !ForeignOwned(rows, call.profileId, id)
  }

  /** What one step can do to a row. */
  lemma {:induction false} TableStepKeeps(rows: Rows, calls: seq<Call>, step: TableStep, id: string)
    requires step.call < |calls| && (step.WriteChanges? ==> DistinctIds(Batch(calls[step.call])))
    ensures var after := Stepped(rows, calls, step);
      && (id in after <==> id in rows || Takes(calls, step, id))
      && (id in after ==>
            after[id].profileId == if Takes(calls, step, id) then calls[step.call].profileId else rows[id].profileId)
      && (id in rows ==>
            (after[id].deletedAt.Some? <==>
              StepMarks(rows, calls, step, id) || (rows[id].deletedAt.Some? && !StepClears(calls, step, id))))
      && !(StepMarks(rows, calls, step, id) && StepClears(calls, step, id))
  {
    hide MarkWritten, Kept, Upserted;
    match step
    case Check(_) =>
    case WriteDeletions(_) =>
    case WriteChanges(c) =>
      var call := calls[c];
      UpsertedRow(rows, call.profileId, Batch(call), call.at.fills, id);
      if id in IdsOf(Batch(call)) {
        var d :| d in Batch(call) && d.item.id == id
          && AfterChanges(rows, call)[id] == RowWritten(rows, call.profileId, Batch(call), d, call.at.fills);
        forall e | e in Batch(call) && e.item.id == id ensures e == d { SameChange(Batch(call), d, e); }
      }
  }

  /** Step `j` of the trace clears this id's mark, and no later one sets it again. */
  ghost predicate StepClearedForGood(rows: Rows, calls: seq<Call>, trace: seq<TableStep>, n: nat, id: string, j: nat)
    requires InRange(calls, trace) && n <= |trace|
  {
    && j < n && StepClears(calls, trace[j], id)
    && forall k :: j < k < n ==> !StepMarks(Then(rows, calls, trace, k), calls, trace[k], id)
  }

  /** The permanence of deletions, and its one exception, do not depend on calls coming one after another. */
  lemma {:induction false} DeletedStaysDeletedUnderOverlap(
    rows: Rows, calls: seq<Call>, trace: seq<TableStep>, n: nat, id: string)
    requires IsOverlap(rows, calls, trace) && n <= |trace| && id in rows && rows[id].deletedAt.Some?
    ensures id in Then(rows, calls, trace, n)
    ensures Then(rows, calls, trace, n)[id].deletedAt.Some?
      <==> !exists j: nat :: StepClearedForGood(rows, calls, trace, n, id, j)
  {
    hide Stepped, StepClears, StepMarks, Takes, Kept, PassedAt, StepClearedForGood;
    if n > 0 {
      var m: nat := n - 1;
      DeletedStaysDeletedUnderOverlap(rows, calls, trace, m, id);
      TableStepKeeps(Then(rows, calls, trace, m), calls, trace[m], id);
      ClearedByLastStep(rows, calls, trace, m, n, id);
    } else {
      NothingClearedYet(rows, calls, trace, id);
    }
  }

  lemma {:induction false} NothingClearedYet(rows: Rows, calls: seq<Call>, trace: seq<TableStep>, id: string)
    requires InRange(calls, trace)
    ensures !exists j: nat :: StepClearedForGood(rows, calls, trace, 0, id, j)
  {
  }

  lemma {:induction false} ClearedByLastStep(
    rows: Rows, calls: seq<Call>, trace: seq<TableStep>, m: nat, n: nat, id: string)
    requires InRange(calls, trace) && m < |trace| && n == m + 1
    ensures (exists j: nat :: StepClearedForGood(rows, calls, trace, n, id, j)) <==>
      || StepClears(calls, trace[m], id)
      || ((exists j: nat :: StepClearedForGood(rows, calls, trace, m, id, j))
          && !StepMarks(Then(rows, calls, trace, m), calls, trace[m], id))
  {
    hide Then, StepClears, StepMarks;
    if StepClears(calls, trace[m], id) {
      assert StepClearedForGood(rows, calls, trace, n, id, m);
    }
    forall j: nat | j != m
      ensures StepClearedForGood(rows, calls, trace, n, id, j) <==>
        && StepClearedForGood(rows, calls, trace, m, id, j)
        && !StepMarks(Then(rows, calls, trace, m), calls, trace[m], id)
    {
    }
  }

  /** Another profile's call upserts this id at step `m`. */
  predicate TakenByOther(calls: seq<Call>, trace: seq<TableStep>, m: nat, profileId: string, id: string)
    requires InRange(calls, trace) && m < |trace|
  {
    Takes(calls, trace[m], id) && calls[trace[m].call].profileId != profileId
  }

  /** Without such an upsert between two moments, an id free or owned by the profile stays so. */
  lemma {:induction false} OnlyUpsertsTake(
    rows: Rows, calls: seq<Call>, trace: seq<TableStep>, i: nat, k: nat, profileId: string, id: string)
    requires IsOverlap(rows, calls, trace) && i <= k <= |trace|
    requires !ForeignOwned(Then(rows, calls, trace, i), profileId, id)
    requires forall m :: i <= m < k ==> !TakenByOther(calls, trace, m, profileId, id)
    ensures !ForeignOwned(Then(rows, calls, trace, k), profileId, id)
    decreases k - i
  {
    hide Stepped, Takes, StepClears, StepMarks, Kept, PassedAt, DistinctIds;
    if i < k {
      OnlyUpsertsTake(rows, calls, trace, i, k - 1, profileId, id);
      TableStepKeeps(Then(rows, calls, trace, k - 1), calls, trace[k - 1], id);
      assert !TakenByOther(calls, trace, k - 1, profileId, id);
    }
  }

  /**
   When calls overlap, a row moves to another profile exactly when that profile's call upserts its id; and then another
   profile's call upserted the id after the mover's own check, which had found the id free or its own.
   */
  lemma {:induction false} RowsMoveOnlyBetweenCheckAndUpsert(
    rows: Rows, calls: seq<Call>, trace: seq<TableStep>, k: nat, id: string)
    requires IsOverlap(rows, calls, trace) && k < |trace| && id in Then(rows, calls, trace, k)
    ensures var before, after := Then(rows, calls, trace, k), Then(rows, calls, trace, k + 1);
      && id in after
      && (after[id].profileId != before[id].profileId
          <==> Takes(calls, trace[k], id) && calls[trace[k].call].profileId != before[id].profileId)
      && (after[id].profileId != before[id].profileId ==>
            forall i: nat :: PassedAt(rows, calls, trace, i, k, trace[k].call) ==>
              && !ForeignOwned(Then(rows, calls, trace, i), after[id].profileId, id)
              && exists m: nat :: i < m < k && TakenByOther(calls, trace, m, after[id].profileId, id))
  {
    hide Stepped, StepClears, StepMarks, Kept, Then;
    var before := Then(rows, calls, trace, k);
    ThenStepped(rows, calls, trace, k);
    TableStepKeeps(before, calls, trace[k], id);
    var mover := calls[trace[k].call];
    if Takes(calls, trace[k], id) && mover.profileId != before[id].profileId {
      forall i: nat | PassedAt(rows, calls, trace, i, k, trace[k].call)
        ensures !ForeignOwned(Then(rows, calls, trace, i), mover.profileId, id)
        ensures exists m: nat :: i < m < k && TakenByOther(calls, trace, m, mover.profileId, id)
      {
        PassedOwnsOrFree(Then(rows, calls, trace, i), mover, id);
        if forall m: nat :: i <= m < k ==> !TakenByOther(calls, trace, m, mover.profileId, id) {
          OnlyUpsertsTake(rows, calls, trace, i, k, mover.profileId, id);
        }
      }
    }
  }

  lemma {:induction false} ThenStepped(rows: Rows, calls: seq<Call>, trace: seq<TableStep>, k: nat)
    requires InRange(calls, trace) && k < |trace|
    ensures Then(rows, calls, trace, k + 1) == Stepped(Then(rows, calls, trace, k), calls, trace[k])
  {
  }

  lemma {:induction false} PassedOwnsOrFree(rows: Rows, call: Call, id: string)
    requires Passes(rows, call) && id in IdsOf(Batch(call))
    ensures !ForeignOwned(rows, call.profileId, id)
  {
    assert id in Named(call);
    if id in rows { PassingOwns(rows, call, id); }
  }

  /** It does happen: two profiles create one id, both checks come first, and the second upsert takes the row. */
  lemma {:induction false} OverlappingCreationsMoveARow(rows: Rows, c: Change, first: string, second: string)
    requires c.item.id !in rows
    ensures var calls := [Call(first, [c], [], UNTROUBLED), Call(second, [c], [], UNTROUBLED)];
      var trace := [Check(0), Check(1), WriteChanges(0), WriteChanges(1)];
      && IsOverlap(rows, calls, trace)
      && c.item.id in Then(rows, calls, trace, 3) && Then(rows, calls, trace, 3)[c.item.id].profileId == first
      && c.item.id in Then(rows, calls, trace, 4) && Then(rows, calls, trace, 4)[c.item.id].profileId == second
  {
    hide Kept, Upserted, Conflicts;
    var calls := [Call(first, [c], [], UNTROUBLED), Call(second, [c], [], UNTROUBLED)];
    var trace := [Check(0), Check(1), WriteChanges(0), WriteChanges(1)];
    OneChange(rows, calls[0], c);
    OneChange(rows, calls[1], c);
    assert Then(rows, calls, trace, 2) == Then(rows, calls, trace, 1) == Then(rows, calls, trace, 0) == rows;
    assert PassedAt(rows, calls, trace, 0, 2, 0) && PassedAt(rows, calls, trace, 1, 3, 1);
    TableStepKeeps(rows, calls, trace[2], c.item.id);
    TableStepKeeps(Then(rows, calls, trace, 3), calls, trace[3], c.item.id);
  }
}
