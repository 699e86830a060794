/**
 The release protocol said of its events alone: which request is unanswered and which approval unclaimed at any moment
 of a run, and so what each operation answers.
 */
module BridgeHistory {
  import opened Basics
  import opened VaultSession
  import opened Bridge

  /** Any new request that asks, a denial, a clearing, a vault found locked, and any approving of this id. */
  predicate EndsAsking(e: Event, id: string) {
    || AsksApproval(e) || e.action.Clear?
    || e.result == Some(Denied) || e.result == Some(LockedOut)
    || (e.action.Approve? && e.action.id == id)
  }

  /** Event `j` asked for the approval `a`, and nothing before event `k` has answered or ended it. */
  predicate Unanswered(run: seq<Event>, j: nat, k: nat, a: ApprovalRequest) {
    && j < k <= |run|
    && AsksApproval(run[j]) && run[j].result == Some(ApprovalRequired(a))
    && forall m :: j < m < k ==> !EndsAsking(run[m], a.id)
  }

  /** A new request that asks, a clearing, a vault found locked, and a claim that releases. */
  predicate EndsApproved(e: Event) {
    AsksApproval(e) || e.action.Clear? || e.result == Some(LockedOut) || ReleasesByClaim(e)
  }

  /** Event `i` approved, and nothing before event `k` has claimed or ended it. */
  predicate Unclaimed(run: seq<Event>, i: nat, k: nat) {
    && i < k <= |run| && GivesApproval(run[i])
    && forall m :: i < m < k ==> !EndsApproved(run[m])
  }

  /** Pending and approved material as every run leaves it. */
  predicate Exclusive(m: Material) {
    && (m.currentPendingApproval.Some? <==> m.pendingCredential.Some?)
    && !(m.pendingCredential.Some? && m.approvedCredential.Some?)
  }

  /** What one event does to what waits and to what is approved. */
  lemma {:induction false} EventStep(e: Event, n: Normalizer)
    requires IsStep(e, n) && Exclusive(e.before.material)
    ensures forall a :: e.after.material.currentPendingApproval == Some(a) <==>
      || (AsksApproval(e) && e.result == Some(ApprovalRequired(a)))
      || (e.before.material.currentPendingApproval == Some(a) && !EndsAsking(e, a.id))
    ensures e.after.material.approvedCredential.Some? <==>
      GivesApproval(e) || (e.before.material.approvedCredential.Some? && !EndsApproved(e))
  {
    match e.action
    case OnSession(_) =>
    case Metadata(_, _, _) =>
    case Request(_, _, _, _, _) =>
    case Approve(_, _) =>
    case Claim(_, _, _, _, _) =>
    case Deny(_) =>
    case Clear =>
  }

  /** At every moment of every run something waits exactly while some request is unanswered, with its approval. */
  lemma {:induction false} WaitsExactlyWhileUnanswered(run: seq<Event>, k: nat, a: ApprovalRequest, n: Normalizer)
    requires IsRun(run, n) && k <= |run|
    ensures MaterialAt(run, k).currentPendingApproval == Some(a) <==> exists j: nat :: Unanswered(run, j, k, a)
  {
    hide IsStep, AsksApproval, EndsAsking;
    if k > 0 {
      var m: nat := k - 1;
      WaitsExactlyWhileUnanswered(run, m, a, n);
      MaterialIsExclusive(run, m, n);
      assert run[m].before.material == MaterialAt(run, m);
      EventStep(run[m], n);
      if AsksApproval(run[m]) && run[m].result == Some(ApprovalRequired(a)) {
        assert Unanswered(run, m, k, a);
      } else {
        forall j: nat | j != m
          ensures Unanswered(run, j, k, a) <==> Unanswered(run, j, m, a) && !EndsAsking(run[m], a.id)
        {
        }
      }
    }
  }

  /** And something is approved exactly while some approval is unclaimed. */
  lemma {:induction false} ApprovedExactlyWhileUnclaimed(run: seq<Event>, k: nat, n: Normalizer)
    requires IsRun(run, n) && k <= |run|
    ensures MaterialAt(run, k).approvedCredential.Some? <==> exists i: nat :: Unclaimed(run, i, k)
  {
    hide IsStep, GivesApproval, EndsApproved;
    if k > 0 {
      var m: nat := k - 1;
      ApprovedExactlyWhileUnclaimed(run, m, n);
      MaterialIsExclusive(run, m, n);
      assert run[m].before.material == MaterialAt(run, m);
      EventStep(run[m], n);
      if GivesApproval(run[m]) {
        assert Unclaimed(run, m, k);
      } else {
        forall i: nat | i != m ensures Unclaimed(run, i, k) <==> Unclaimed(run, i, m) && !EndsApproved(run[m]) {
        }
      }
    }
  }

  /** A denial, a clearing and a vault found locked leave nothing to approve and nothing to claim. */
  lemma {:induction false} EndingLeavesNothing(e: Event, n: Normalizer)
    requires IsStep(e, n)
    requires e.action.Clear? || e.result == Some(Denied) || e.result == Some(LockedOut)
    ensures e.after.material == NO_MATERIAL
  {
    match e.action
    case OnSession(_) =>
    case Metadata(_, _, _) =>
    case Request(_, _, _, _, _) =>
    case Approve(_, _) =>
    case Claim(_, _, _, _, _) =>
    case Deny(_) =>
    case Clear =>
  }

  /**
   Between the request behind a releasing claim and the claim itself nothing was denied, nothing was cleared, and the
   vault was never found locked.
   */
  lemma {:induction false} NothingEndedBehindAClaim(run: seq<Event>, k: nat, n: Normalizer)
    returns (c: Credential, j: nat, i: nat)
    requires IsRun(run, n) && k < |run| && ReleasesByClaim(run[k])
    ensures ApprovedAt(run, j, i, k, c) && run[k].result == Some(Released(c.username, c.password))
    ensures forall m :: j < m < k ==>
      !run[m].action.Clear? && run[m].result != Some(Denied) && run[m].result != Some(LockedOut)
  {
    hide IsStep;
    c, j, i := ClaimsAreAuthorized(run, k, n);
    forall m | j < m < k
      ensures !run[m].action.Clear? && run[m].result != Some(Denied) && run[m].result != Some(LockedOut)
    {
      assert run[m].after.material != NO_MATERIAL;
      if run[m].action.Clear? || run[m].result == Some(Denied) || run[m].result == Some(LockedOut) {
        EndingLeavesNothing(run[m], n);
      }
    }
  }

  /** Some request with this id is unanswered. */
  ghost predicate Asks(run: seq<Event>, k: nat, id: string) {
    exists j: nat, a :: Unanswered(run, j, k, a) && a.id == id
  }

  lemma {:induction false} AskingWaits(run: seq<Event>, k: nat, id: string, n: Normalizer)
    requires IsRun(run, n) && k <= |run|
    ensures var waiting := MaterialAt(run, k).currentPendingApproval;
      Asks(run, k, id) <==> waiting.Some? && waiting.value.id == id
  {
    hide IsRun, Unanswered;
    if j: nat, a :| Unanswered(run, j, k, a) && a.id == id {
      WaitsExactlyWhileUnanswered(run, k, a, n);
    }
    var waiting := MaterialAt(run, k).currentPendingApproval;
    if waiting.Some? && waiting.value.id == id {
      WaitsExactlyWhileUnanswered(run, k, waiting.value, n);
    }
  }

  /** A denial denies exactly the request that is unanswered, and says so; any other is told that there is none. */
  lemma {:induction false} DenialAnswersExactly(run: seq<Event>, k: nat, n: Normalizer)
    requires IsRun(run, n) && k < |run| && run[k].action.Deny?
    ensures run[k].result == Some(Denied) || run[k].result == Some(NotFound)
    ensures run[k].result == Some(Denied) <==> Asks(run, k, run[k].action.id)
  {
    hide IsRun, Asks;
    StepAt(run, k, n);
    AskingWaits(run, k, run[k].action.id, n);
  }

  lemma {:induction false} StepAt(run: seq<Event>, k: nat, n: Normalizer)
    requires IsRun(run, n) && k < |run|
    ensures IsStep(run[k], n) && run[k].before.material == MaterialAt(run, k)
  {
    hide IsStep;
  }

  /**
   An approval answers exactly: that there is no such request; that the vault is locked; that the credential is no
   longer there as it was when asked for; or that credential.
   */
  lemma {:induction false} ApprovalAnswersExactly(run: seq<Event>, k: nat, n: Normalizer)
    requires IsRun(run, n) && k < |run| && run[k].action.Approve?
    ensures run[k].result.Some?
    ensures var e, id, t := run[k], run[k].action.id, run[k].action.t;
      if !Asks(run, k, id) then e.result == Some(NotFound)
      else if !e.before.session.IsUnlocked(t.first) then e.result == Some(LockedOut)
      else
        exists j: nat, a, c :: Unanswered(run, j, k, a) && a == ApprovalFor(c) && a.id == id
          && e.result == if Meanwhile(e.before, t, n).Lookup(a.id, a.origin, a.profileId, t.second, n) == Some(c)
                         then Some(Released(c.username, c.password)) else Some(NotFound)
  {
    hide IsRun, Unanswered, Asks;
    StepAt(run, k, n);
    MaterialIsExclusive(run, k, n);
    AskingWaits(run, k, run[k].action.id, n);
    var m := MaterialAt(run, k);
    if m.currentPendingApproval.Some? && m.currentPendingApproval.value.id == run[k].action.id {
      var a, c := m.currentPendingApproval.value, m.pendingCredential.value;
      WaitsExactlyWhileUnanswered(run, k, a, n);
      var j: nat :| Unanswered(run, j, k, a);
      assert a == ApprovalFor(c);
    }
  }

  /** A claim answers exactly: that the vault is locked, the approved credential if it is still there, or nothing. */
  lemma {:induction false} ClaimAnswersExactly(run: seq<Event>, k: nat, n: Normalizer)
    requires IsRun(run, n) && k < |run| && run[k].action.Claim?
    ensures run[k].result.Some?
    ensures var e, x := run[k], run[k].action;
      if !e.before.session.IsUnlocked(x.t.first) then e.result == Some(LockedOut)
      else if !exists i: nat :: Unclaimed(run, i, k) then e.result == Some(NotFound)
      else
        exists c, j: nat, i: nat :: ApprovedAt(run, j, i, k, c)
          && e.result == if c.id == x.id
                            && Meanwhile(e.before, x.t, n).Lookup(x.id, x.origin, x.profileId, x.t.second, n) == Some(c)
                         then Some(Released(c.username, c.password)) else Some(NotFound)
  {
    hide IsRun, Unclaimed, ApprovedAt, AskedAt;
    StepAt(run, k, n);
    ApprovedExactlyWhileUnclaimed(run, k, n);
    AlwaysAccounted(run, k, n);
    var m := MaterialAt(run, k);
    if m.approvedCredential.Some? {
      var c, j, i :| m == Approved(c) && ApprovedAt(run, j, i, k, c);
    }
  }

  /** A request answers exactly: a wrong reason, a locked vault, the credential found for approval, or nothing. */
  lemma {:induction false} RequestAnswersExactly(e: Event, n: Normalizer)
    requires IsStep(e, n) && e.action.Request?
    ensures var x := e.action;
      if x.reason != "fill-active-page" then e.result == Some(InvalidRequest)
      else if !e.before.session.IsUnlocked(x.t.first) then e.result == Some(LockedOut)
      else
        match Meanwhile(e.before, x.t, n).Lookup(x.id, x.origin, x.profileId, x.t.second, n)
        case None => e.result == Some(NotFound)
        case Some(c) => e.result == Some(ApprovalRequired(ApprovalRequest(
          c.id, c.websiteOrigin, c.profileId, c.displayLabel, c.username)))
  {
  }

  /**
   Operations do nothing to the session but read it: it is as it was, as its first reading leaves it, or as others and
   the second reading leave it.
   */
  lemma {:induction false} OperationsOnlyReadTheSession(e: Event, n: Normalizer)
    requires IsStep(e, n) && (e.action.Metadata? || e.action.Request? || e.action.Approve? || e.action.Claim?)
    ensures e.after.session == e.before.session
      || e.after.session == e.before.session.Settled(e.action.t.first)
      || e.after.session == Meanwhile(e.before, e.action.t, n).Settled(e.action.t.second)
  {
    hide Session.Settled, AllMatches, FirstMatch;
    match e.action
    case Metadata(_, _, _) =>
    case Request(_, _, _, _, _) =>
    case Approve(_, _) =>
    case Claim(_, _, _, _, _) =>
  }
}
