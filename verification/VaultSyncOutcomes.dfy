/**
 How one call of vault synchronisation ends, said of the request and the rows it meets: when it succeeds, what it leaves
 under every id, and what it answers.
 */
module VaultSyncOutcomes {
  import opened Basics
  import opened VaultSync

  /** Change `i` is written if the call gets that far: its id is not deleted by the same call. */
  predicate IsKept(call: Call, i: nat) {
    i < |call.changed| && call.changed[i].item.id !in call.deleted
  }

  ghost predicate SomeKept(call: Call) {
    exists i: nat :: IsKept(call, i)
  }

  /** A call that names any id looks its rows up, and every row it names must be its own. */
  ghost predicate Owns(rows: Rows, call: Call) {
    call.changed != [] || call.deleted != [] ==>
      && !call.at.lookupFails
      && (forall c :: c in call.changed && c.item.id in rows ==> rows[c.item.id].profileId == call.profileId)
      && (forall id :: id in call.deleted && id in rows ==> rows[id].profileId == call.profileId)
  }

  /** The database takes the changes that are kept: no two have the same id. */
  ghost predicate Writes(rows: Rows, call: Call) {
    Owns(rows, call)
    && (SomeKept(call) ==>
          && !call.at.upsertFails
          && forall i: nat, j: nat :: i < j && IsKept(call, i) && IsKept(call, j) ==>
               call.changed[i].item.id != call.changed[j].item.id)
  }

  ghost predicate Removes(rows: Rows, call: Call) {
    Writes(rows, call) && (call.deleted != [] ==> !call.at.softDeleteFails)
  }

  lemma {:induction false} KeptStep(changed: seq<Change>, deleted: seq<string>)
    requires changed != []
    ensures var kept, rest := Kept(changed, deleted), Kept(changed[1..], deleted);
      kept == if changed[0].item.id in deleted then rest else [changed[0]] + rest
  {
  }

  /** The positions of the kept changes, from `n` on. */
  function KeptFrom(call: Call, n: nat): (index: seq<nat>)
    requires n <= |call.changed|
    ensures forall k :: 0 <= k < |index| ==> n <= index[k] < |call.changed|
    decreases |call.changed| - n
  {
    if n == |call.changed| then []
    else if IsKept(call, n) then [n] + KeptFrom(call, n + 1) else KeptFrom(call, n + 1)
  }

  lemma {:induction false} KeptFromStep(call: Call, n: nat)
    requires n < |call.changed|
    ensures IsKept(call, n) ==> KeptFrom(call, n) == [n] + KeptFrom(call, n + 1)
    ensures !IsKept(call, n) ==> KeptFrom(call, n) == KeptFrom(call, n + 1)
  {
  }

  lemma {:induction false} NoneKept(call: Call)
    ensures KeptFrom(call, |call.changed|) == []
  {
  }

  /** A position is selected exactly if it is at or past the start and meets the condition. */
  lemma {:induction false} KeptFromExactly(call: Call, n: nat, k: nat)
    requires n <= |call.changed|
    ensures k in KeptFrom(call, n) <==> n <= k && IsKept(call, k)
    decreases |call.changed| - n
  {
    hide IsKept, KeptFrom;
    NotPastTheEnd(call, k);
    if n < |call.changed| {
      KeptFromStep(call, n);
      KeptFromExactly(call, n + 1, k);
    } else {
      NoneKept(call);
    }
  }

  lemma {:induction false} KeptFromInOrder(call: Call, n: nat, m: nat, m': nat)
    requires n <= |call.changed| && m < m' < |KeptFrom(call, n)|
    ensures KeptFrom(call, n)[m] < KeptFrom(call, n)[m']
    decreases |call.changed| - n
  {
    hide IsKept, KeptFrom;
    if n < |call.changed| {
      KeptFromStep(call, n);
      var index, rest := KeptFrom(call, n), KeptFrom(call, n + 1);
      if IsKept(call, n) {
        assert index[m'] == rest[m' - 1];
        if m > 0 {
          assert index[m] == rest[m - 1];
          KeptFromInOrder(call, n + 1, m - 1, m' - 1);
        } else {
          assert index[m] == n;
        }
      } else {
        KeptFromInOrder(call, n + 1, m, m');
      }
    }
  }

  lemma {:induction false} KeptFromSelects(call: Call, n: nat)
    requires n <= |call.changed|
    ensures var index := KeptFrom(call, n);
      && (forall k :: 0 <= k < |index| ==> IsKept(call, index[k]))
      && (forall k, m :: 0 <= k < m < |index| ==> index[k] < index[m])
      && (forall i: nat :: n <= i && IsKept(call, i) ==> i in index)
  {
    hide IsKept, KeptFrom;
    var index := KeptFrom(call, n);
    forall m | 0 <= m < |index| ensures IsKept(call, index[m]) {
      assert index[m] in index;
      KeptFromExactly(call, n, index[m]);
    }
    forall m, m' | 0 <= m < m' < |index| ensures index[m] < index[m'] { KeptFromInOrder(call, n, m, m'); }
    forall k: nat | n <= k && IsKept(call, k) ensures k in index { KeptFromExactly(call, n, k); }
  }

  lemma {:induction false} NotPastTheEnd(call: Call, i: nat)
    ensures IsKept(call, i) ==> i < |call.changed|
  {
  }

  /** The batch has each kept change once, in the order in which they come. */
  lemma {:induction false} BatchIsWhatIsKept(call: Call, n: nat)
    requires n <= |call.changed|
    ensures var batch, index := Kept(call.changed[n..], call.deleted), KeptFrom(call, n);
      |batch| == |index| && forall k :: 0 <= k < |index| ==> batch[k] == call.changed[index[k]]
    decreases |call.changed| - n
  {
    hide Kept, IsKept, KeptFrom;
    if n < |call.changed| {
      BatchStep(call, n);
      BatchIsWhatIsKept(call, n + 1);
    } else {
      NothingLeft(call);
    }
  }

  lemma {:induction false} NothingLeft(call: Call)
    ensures KeptFrom(call, |call.changed|) == [] && Kept(call.changed[|call.changed|..], call.deleted) == []
  {
  }

  /** Change `n` comes first in the batch, at its own position, or not at all. */
  lemma {:induction false} BatchStep(call: Call, n: nat)
    requires n < |call.changed|
    ensures KeptFrom(call, n) == (if IsKept(call, n) then [n] else []) + KeptFrom(call, n + 1)
    ensures Kept(call.changed[n..], call.deleted)
      == (if IsKept(call, n) then [call.changed[n]] else []) + Kept(call.changed[n + 1..], call.deleted)
  {
    hide Kept;
    KeptStep(call.changed[n..], call.deleted);
    assert call.changed[n..][0] == call.changed[n] && call.changed[n..][1..] == call.changed[n + 1..];
  }

  /** The whole batch, and the positions of its records among the changes. */
  lemma {:induction false} WholeBatch(call: Call) returns (index: seq<nat>)
    ensures |Batch(call)| == |index|
    ensures forall k :: 0 <= k < |index| ==>
      index[k] < |call.changed| && IsKept(call, index[k]) && Batch(call)[k] == call.changed[index[k]]
    ensures forall k, m :: 0 <= k < m < |index| ==> index[k] < index[m]
    ensures forall i: nat :: IsKept(call, i) ==> i in index
  {
    hide Kept, KeptFrom, IsKept;
    index := KeptFrom(call, 0);
    KeptFromSelects(call, 0);
    BatchIsWhatIsKept(call, 0);
    assert call.changed[0..] == call.changed;
  }

  lemma {:induction false} DistinctExactly(call: Call)
    ensures DistinctIds(Batch(call)) <==>
      forall i: nat, j: nat :: i < j && IsKept(call, i) && IsKept(call, j) ==>
        call.changed[i].item.id != call.changed[j].item.id
    ensures Batch(call) != [] <==> SomeKept(call)
  {
    hide Kept, IsKept;
    var batch := Batch(call);
    var index := WholeBatch(call);
    if SomeKept(call) { var i: nat :| IsKept(call, i); assert i in index; }
    if batch != [] { assert IsKept(call, index[0]); }
    if DistinctIds(batch) {
      forall i: nat, j: nat | i < j && IsKept(call, i) && IsKept(call, j)
        ensures i < |call.changed| && j < |call.changed| && call.changed[i].item.id != call.changed[j].item.id
      {
        assert i in index && j in index;
        var k :| 0 <= k < |index| && index[k] == i;
        var m :| 0 <= m < |index| && index[m] == j;
        assert k < m;
      }
    }
  }

  lemma {:induction false} NamedExactly(call: Call, id: string)
    ensures id in Named(call) <==> id in call.deleted || exists c :: c in call.changed && c.item.id == id
    ensures Named(call) == {} <==> call.changed == [] && call.deleted == []
  {
    if call.changed != [] { assert call.changed[0].item.id in Named(call); }
    if call.deleted != [] { assert call.deleted[0] in Named(call); }
  }

  lemma {:induction false} PassesExactly(rows: Rows, call: Call)
    ensures Passes(rows, call) <==> Owns(rows, call)
  {
    hide Named;
    NamedExactly(call, "");
    if !Conflicts(rows, call) {
      forall c | c in call.changed && c.item.id in rows ensures rows[c.item.id].profileId == call.profileId {
        NamedExactly(call, c.item.id);
        assert !ForeignOwned(rows, call.profileId, c.item.id);
      }
      forall id | id in call.deleted && id in rows ensures rows[id].profileId == call.profileId {
        NamedExactly(call, id);
        assert !ForeignOwned(rows, call.profileId, id);
      }
    } else {
      var id :| id in Named(call) && ForeignOwned(rows, call.profileId, id);
      NamedExactly(call, id);
    }
  }

  /** A call succeeds exactly if it owns what it names, its kept ids differ, and nothing it needs fails. */
  lemma {:induction false} SucceedsExactly(rows: Rows, call: Call)
    ensures Changes(rows, call) <==> Writes(rows, call)
    ensures Deletes(rows, call) <==> Removes(rows, call)
    ensures Accepted(rows, call) <==> Removes(rows, call) && !call.at.listingFails
  {
    hide Passes, Owns, SomeKept, DistinctIds, Kept;
    PassesExactly(rows, call);
    DistinctExactly(call);
  }

  /** Some record that is kept names the deletion mark. */
  ghost predicate SomeNamesTheMark(call: Call) {
    exists i: nat :: IsKept(call, i) && call.changed[i].mark.Some?
  }

  /** The mark that change `i` leaves, when the row's was `kept`. */
  ghost function MarkAfter(call: Call, i: nat, kept: Option<int>): Option<int>
    requires i < |call.changed|
  {
    match call.changed[i].mark
    case Some(mark) => mark
    case None => if call.at.fills && SomeNamesTheMark(call) then None else kept
  }

  ghost predicate Written(rows: Rows, after: Rows, call: Call, i: nat) {
    && IsKept(call, i)
    && var item := call.changed[i].item;
      && item.id in after
      && after[item.id] == Row(
           call.profileId, item, MarkAfter(call, i, if item.id in rows then rows[item.id].deletedAt else None))
  }

  lemma {:induction false} MarksExactly(call: Call)
    ensures NamesMark(Batch(call)) <==> SomeNamesTheMark(call)
  {
    hide Kept, IsKept;
    var batch := Batch(call);
    var index := WholeBatch(call);
    if c :| c in batch && c.mark.Some? {
      var k :| 0 <= k < |batch| && batch[k] == c;
      assert IsKept(call, index[k]) && call.changed[index[k]].mark.Some?;
    }
    if SomeNamesTheMark(call) {
      var i: nat :| IsKept(call, i) && i in index && call.changed[i].mark.Some?;
      var k :| 0 <= k < |index| && index[k] == i;
      assert batch[k] in batch;
    }
  }

  /**
   What a call leaves under every id. A call that may remove marks the rows it deletes and makes none; one that may
   write replaces every kept item, with the caller as owner; and all other ids are as they were.
   */
  lemma {:induction false} LeavesExactly(rows: Rows, call: Call, id: string)
    ensures var after := Step(rows, call);
      if Removes(rows, call) && id in call.deleted then
        && (id in after <==> id in rows)
        && (id in rows ==> after[id] == Row(rows[id].profileId, rows[id].item, Some(call.at.now)))
      else if Writes(rows, call) && exists i: nat :: IsKept(call, i) && call.changed[i].item.id == id then
        exists i: nat :: Written(rows, after, call, i) && call.changed[i].item.id == id
      else (id in after <==> id in rows) && (id in rows ==> after[id] == rows[id])
  {
    hide Step, Kept, KeptFrom, Passes, Owns, DistinctIds, SomeNamesTheMark, Writes, Removes, Changes, Deletes;
    EveryRowSynced(rows, call);
    SucceedsExactly(rows, call);
    MarksExactly(call);
    var after := Step(rows, call);
    assert RowSynced(rows, after, call, id);
    assert (id in IdsOf(call.changed) && id !in call.deleted)
      <==> exists i: nat :: IsKept(call, i) && call.changed[i].item.id == id by { KeptIds(call, id); }
    if Changes(rows, call) && id in IdsOf(call.changed) && id !in call.deleted {
      var c :| c in Batch(call) && c.item.id == id
        && after[id] == RowWritten(rows, call.profileId, Batch(call), c, call.at.fills);
      var i: nat :| i < |call.changed| && call.changed[i] == c;
      assert Written(rows, after, call, i);
    }
  }

  lemma {:induction false} KeptIds(call: Call, id: string)
    ensures (id in IdsOf(call.changed) && id !in call.deleted)
      <==> exists i: nat :: IsKept(call, i) && call.changed[i].item.id == id
  {
    if id in IdsOf(call.changed) && id !in call.deleted {
      var c :| c in call.changed && c.item.id == id;
      var i: nat :| i < |call.changed| && call.changed[i] == c;
      assert IsKept(call, i);
    }
  }

  /** The answer lists every live item of the profile, with its payload normalised, and every deleted id of it. */
  lemma {:induction false} AnswersExactly(rows: Rows, profileId: string, normalize: string -> string, id: string)
    ensures var r := ResponseOf(rows, profileId, normalize);
      var own := id in rows && rows[id].profileId == profileId;
      && (id in r.updatedItems <==> own && rows[id].deletedAt == None)
      && (id in r.updatedItems ==>
            r.updatedItems[id] == Item(rows[id].item.id, normalize(rows[id].item.payload), rows[id].item.details))
      && (id in r.deletedItemIds <==> own && rows[id].deletedAt != None)
  {
  }

  /** A call whose own steps no other call interrupts is the call as a whole, as far as it gets. */
  lemma {:induction false} UninterruptedStepsAreTheCall(rows: Rows, calls: seq<Call>, c: nat)
    requires c < |calls|
    ensures var call, trace := calls[c], [Check(c), WriteChanges(c), WriteDeletions(c)];
      && (Deletes(rows, call) ==>
            IsOverlap(rows, calls, trace) && Then(rows, calls, trace, 3) == Step(rows, call))
      && (Changes(rows, call) && !Deletes(rows, call) ==> Then(rows, calls, trace, 2) == Step(rows, call))
      && (!Changes(rows, call) ==> Then(rows, calls, trace, 1) == Step(rows, call))
  {
    hide Upserted, SoftDeleted, Kept, Conflicts, DistinctIds, Named;
    var call, trace := calls[c], [Check(c), WriteChanges(c), WriteDeletions(c)];
    ThenStepped(rows, calls, trace, 0);
    ThenStepped(rows, calls, trace, 1);
    ThenStepped(rows, calls, trace, 2);
    if Deletes(rows, call) {
      assert PassedAt(rows, calls, trace, 0, 1, c) && PassedAt(rows, calls, trace, 0, 2, c);
      NoBatchIsDistinct(call);
    }
  }

  lemma {:induction false} NoBatchIsDistinct(call: Call)
    ensures Batch(call) == [] ==> DistinctIds(Batch(call))
  {
  }
}
