/**
 The release protocol of the Mac companion (CompanionBridgeService.swift): a credential is requested, approved by
 the user and then claimed once. The bridge and the vault session have a lock each, so other holders of the session
 may act between the two session calls of one bridge operation; `between` says what they did.
 */
module Bridge {
  import opened Basics
  import opened VaultSession

  datatype ApprovalRequest = ApprovalRequest(
    id: string, origin: string, profileId: string, displayLabel: string, username: string)

  datatype ReleaseResult =
    | LockedOut
    | InvalidRequest
    | NotFound
    | ApprovalRequired(approval: ApprovalRequest)
    | Released(username: string, password: string)
    | Denied

  /** The bridge's three fields: what waits for approval, and what is approved and waits to be claimed. */
  datatype Material = Material(
    currentPendingApproval: Option<ApprovalRequest>,
    pendingCredential: Option<Credential>,
    approvedCredential: Option<Credential>)

  const NO_MATERIAL: Material := Material(None, None, None)

  datatype World = World(session: Session, material: Material)

  function ApprovalFor(c: Credential): ApprovalRequest {
    ApprovalRequest(c.id, c.websiteOrigin, c.profileId, c.displayLabel, c.username)
  }

  function Waiting(c: Credential): Material { Material(Some(ApprovalFor(c)), Some(c), None) }

  function Approved(c: Credential): Material { Material(None, None, Some(c)) }

  /** The two clock readings of an operation and what others did to the session in between. */
  datatype Timing = Timing(first: int, between: seq<SessionStep>, second: int)

  // ---------------------------------------------------------------------------------------------
  // The operations on values.
  // ---------------------------------------------------------------------------------------------

  /** Reading the session first; a session that is not unlocked clears the material. */
  function AfterGuard(w: World, now: int): World {
    World(w.session.Settled(now), if w.session.IsUnlocked(now) then w.material else NO_MATERIAL)
  }

  /** The session as the second call of an operation finds it. */
  function Meanwhile(w: World, t: Timing, n: Normalizer): Session {
    ApplySteps(w.session.Settled(t.first), t.between, n)
  }

  function RequestOf(w: World, id: string, origin: string, profileId: string, reason: string, t: Timing, n: Normalizer)
    : (World, ReleaseResult)
  {
    if reason != "fill-active-page" then (w, InvalidRequest)
    else if !w.session.IsUnlocked(t.first) then (AfterGuard(w, t.first), LockedOut)
    else
      var s := Meanwhile(w, t, n);
      match s.Lookup(id, origin, profileId, t.second, n)
      case None => (World(s.Settled(t.second), w.material), NotFound)
      case Some(c) => (World(s.Settled(t.second), Waiting(c)), ApprovalRequired(ApprovalFor(c)))
  }

  function ApproveOf(w: World, id: string, t: Timing, n: Normalizer): (World, ReleaseResult) {
    var m := w.material;
    if m.currentPendingApproval.None? || m.currentPendingApproval.value.id != id
       || m.pendingCredential.None? then (w, NotFound)
    else if !w.session.IsUnlocked(t.first) then (AfterGuard(w, t.first), LockedOut)
    else
      var s := Meanwhile(w, t, n);
      var a := m.currentPendingApproval.value;
      if s.Lookup(a.id, a.origin, a.profileId, t.second, n) != m.pendingCredential then
        (World(s.Settled(t.second), NO_MATERIAL), NotFound)
      else
        var c := m.pendingCredential.value;
        (World(s.Settled(t.second), Approved(c)), Released(c.username, c.password))
  }

  function ClaimOf(
    w: World, id: string, origin: string, profileId: string, t: Timing, n: Normalizer)
    : (World, ReleaseResult)
  {
    var m := w.material;
    if !w.session.IsUnlocked(t.first) then (AfterGuard(w, t.first), LockedOut)
    else if m.approvedCredential.None? || m.approvedCredential.value.id != id then
      (World(w.session.Settled(t.first), m), NotFound)
    else
      var s := Meanwhile(w, t, n);
      var c := m.approvedCredential.value;
      if s.Lookup(id, origin, profileId, t.second, n) != Some(c) then (World(s.Settled(t.second), m), NotFound)
      else (World(s.Settled(t.second), m.(approvedCredential := None)), Released(c.username, c.password))
  }

  function DenyOf(w: World, id: string): (World, ReleaseResult) {
    if w.material.currentPendingApproval.None? || w.material.currentPendingApproval.value.id != id then (w, NotFound)
    else (w.(material := NO_MATERIAL), Denied)
  }

  /** Listing what matches; an empty list from a session that is no longer unlocked also clears the material. */
  function MetadataOf(
    w: World, origin: string, profileId: string, t: Timing, n: Normalizer)
    : (World, Option<seq<Credential>>)
  {
    var found :=
      if w.session.IsUnlocked(t.first) && n(origin).Some?
      then AllMatches(w.session.credentials, n(origin).value, profileId) else [];
    if found != [] then (World(w.session.Settled(t.first), w.material), Some(found))
    else
      var s := Meanwhile(w, t, n);
      (AfterGuard(World(s, w.material), t.second), if s.IsUnlocked(t.second) then Some([]) else None)
  }

  // ---------------------------------------------------------------------------------------------
  // The class.
  // ---------------------------------------------------------------------------------------------

  class CompanionBridgeService {
    const session: CompanionVaultSession
    var currentPendingApproval: Option<ApprovalRequest>
    var pendingCredential: Option<Credential>
    var approvedCredential: Option<Credential>

    ghost function Now(): World
      reads this, session
    {
      World(session.State(), Material(currentPendingApproval, pendingCredential, approvedCredential))
    }

    constructor (session: CompanionVaultSession)
      ensures this.session == session && Now() == World(session.State(), NO_MATERIAL)
    {
      this.session := session;
      currentPendingApproval, pendingCredential, approvedCredential := None, None, None;
    }

    method ClearReleaseMaterialLocked()
      modifies this
      ensures Now() == old(Now()).(material := NO_MATERIAL)
    {
      currentPendingApproval := None;
      pendingCredential := None;
      approvedCredential := None;
    }

    method IsSessionUnlocked(now: int) returns (unlocked: bool)
      modifies this, session
      ensures Now() == AfterGuard(old(Now()), now) && unlocked == old(session.State().IsUnlocked(now))
    {
      var state := session.CurrentLockState(now);
      if !state.Unlocked? {
        ClearReleaseMaterialLocked();
        return false;
      }
      return true;
    }

    method Metadata(origin: string, profileId: string, t: Timing) returns (r: Option<seq<Credential>>)
      modifies this, session
      ensures (Now(), r) == MetadataOf(old(Now()), origin, profileId, t, session.normalize)
      ensures var o, normal := old(Now()), session.normalize(origin);
        var held := o.session.IsUnlocked(t.first) && normal.Some?
          && exists c :: c in o.session.credentials && c.websiteOrigin == normal.value && c.profileId == profileId;
        if held then
          r == Some(AllMatches(o.session.credentials, normal.value, profileId)) && Now().material == o.material
        else if Meanwhile(o, t, session.normalize).IsUnlocked(t.second) then
          r == Some([]) && Now().material == o.material
        else r == None && Now().material == NO_MATERIAL
    {
      var credentials := session.Metadata(origin, profileId, t.first);
      assert credentials != [] ==> credentials[0] in credentials;
      if |credentials| == 0 {
        session.Interfere(t.between);
        var unlocked := IsSessionUnlocked(t.second);
        if !unlocked {
          return None;
        }
      }
      return Some(credentials);
    }

    method RequestRelease(
      id: string, origin: string, profileId: string, reason: string, t: Timing)
      returns (r: ReleaseResult)
      modifies this, session
      ensures (Now(), r) == RequestOf(old(Now()), id, origin, profileId, reason, t, session.normalize)
      ensures r == InvalidRequest <==> reason != "fill-active-page"
      ensures reason == "fill-active-page" ==> (r == LockedOut <==> !old(session.State().IsUnlocked(t.first)))
      ensures r.ApprovalRequired? ==>
        currentPendingApproval == Some(r.approval) && pendingCredential.Some? && approvedCredential == None
      ensures r == LockedOut ==>
        currentPendingApproval == None && pendingCredential == None && approvedCredential == None
      ensures r == NotFound || r == InvalidRequest ==>
        currentPendingApproval == old(currentPendingApproval) && pendingCredential == old(pendingCredential)
        && approvedCredential == old(approvedCredential)
    {
      if reason != "fill-active-page" {
        return InvalidRequest;
      }
      var unlocked := IsSessionUnlocked(t.first);
      if !unlocked {
        return LockedOut;
      }
      session.Interfere(t.between);
      var found := session.FindCredential(id, origin, profileId, t.second);
      if found.None? {
        return NotFound;
      }
      var credential := found.value;
      var approval := ApprovalRequest(
        credential.id, credential.websiteOrigin, credential.profileId, credential.displayLabel, credential.username);
      currentPendingApproval := Some(approval);
      pendingCredential := Some(credential);
      approvedCredential := None;
      return ApprovalRequired(approval);
    }

    method ApprovePendingRelease(id: string, t: Timing) returns (r: ReleaseResult)
      modifies this, session
      ensures (Now(), r) == ApproveOf(old(Now()), id, t, session.normalize)
      ensures r.Released? ==>
        && old(pendingCredential).Some?
        && old(currentPendingApproval).Some? && old(currentPendingApproval).value.id == id
        && r == Released(old(pendingCredential).value.username, old(pendingCredential).value.password)
        && currentPendingApproval == None && pendingCredential == None && approvedCredential == old(pendingCredential)
    {
      if currentPendingApproval.None? || currentPendingApproval.value.id != id || pendingCredential.None? {
        return NotFound;
      }
      var approval, credential := currentPendingApproval.value, pendingCredential.value;
      var unlocked := IsSessionUnlocked(t.first);
      if !unlocked {
        return LockedOut;
      }
      session.Interfere(t.between);
      var found := session.FindCredential(approval.id, approval.origin, approval.profileId, t.second);
      if found != Some(credential) {
        ClearReleaseMaterialLocked();
        return NotFound;
      }
      currentPendingApproval := None;
      pendingCredential := None;
      approvedCredential := Some(credential);
      return Released(credential.username, credential.password);
    }

    method ConsumeApprovedRelease(id: string, origin: string, profileId: string, t: Timing) returns (r: ReleaseResult)
      modifies this, session
      ensures (Now(), r) == ClaimOf(old(Now()), id, origin, profileId, t, session.normalize)
      ensures r.Released? ==>
        && old(approvedCredential).Some? && old(approvedCredential).value.id == id
        && r == Released(old(approvedCredential).value.username, old(approvedCredential).value.password)
        && approvedCredential == None
    {
      var unlocked := IsSessionUnlocked(t.first);
      if !unlocked {
        return LockedOut;
      }
      if approvedCredential.None? || approvedCredential.value.id != id {
        return NotFound;
      }
      var credential := approvedCredential.value;
      session.Interfere(t.between);
      var found := session.FindCredential(id, origin, profileId, t.second);
      if found != Some(credential) {
        return NotFound;
      }
      approvedCredential := None;
      return Released(credential.username, credential.password);
    }

    method DenyPendingRelease(id: string) returns (r: ReleaseResult)
      modifies this
      ensures (Now(), r) == DenyOf(old(Now()), id)
      ensures r == Denied <==> old(currentPendingApproval).Some? && old(currentPendingApproval).value.id == id
      ensures r == Denied ==> currentPendingApproval == None && pendingCredential == None && approvedCredential == None
      ensures r != Denied ==> r == NotFound && Now() == old(Now())
    {
      if currentPendingApproval.None? || currentPendingApproval.value.id != id {
        return NotFound;
      }
      ClearReleaseMaterialLocked();
      return Denied;
    }

    method ClearPendingApproval()
      modifies this
      ensures Now() == old(Now()).(material := NO_MATERIAL)
      ensures currentPendingApproval == None && pendingCredential == None && approvedCredential == None
    {
      ClearReleaseMaterialLocked();
    }
  }

  // ---------------------------------------------------------------------------------------------
  // Runs: any interleaving of operations, session steps and clock readings.
  // ---------------------------------------------------------------------------------------------

  datatype Action =
    | OnSession(step: SessionStep)
    | Metadata(origin: string, profileId: string, t: Timing)
    | Request(id: string, origin: string, profileId: string, reason: string, t: Timing)
    | Approve(id: string, t: Timing)
    | Claim(client: nat, id: string, origin: string, profileId: string, t: Timing)
    | Deny(id: string)
    | Clear

  /** The world after an action, and its release result if it has one; a listing has one when the vault is locked. */
  function Act(w: World, a: Action, n: Normalizer): (World, Option<ReleaseResult>) {
    match a
    case OnSession(step) => (w.(session := ApplyStep(w.session, step, n)), None)
    case Metadata(origin, profileId, t) =>
      var (w', listed) := MetadataOf(w, origin, profileId, t, n); (w', if listed.None? then Some(LockedOut) else None)
    case Request(id, origin, profileId, reason, t) =>
      var (w', r) := RequestOf(w, id, origin, profileId, reason, t, n); (w', Some(r))
    case Approve(id, t) => var (w', r) := ApproveOf(w, id, t, n); (w', Some(r))
    case Claim(_, id, origin, profileId, t) => var (w', r) := ClaimOf(w, id, origin, profileId, t, n); (w', Some(r))
    case Deny(id) => var (w', r) := DenyOf(w, id); (w', Some(r))
    case Clear => (w.(material := NO_MATERIAL), None)
  }

  datatype Event = Event(before: World, action: Action, after: World, result: Option<ReleaseResult>)

  predicate IsStep(e: Event, n: Normalizer) {
    (e.after, e.result) == Act(e.before, e.action, n)
  }

  /** A run from a bridge without material, over whatever session. */
  predicate IsRun(run: seq<Event>, n: Normalizer) {
    && (forall k :: 0 <= k < |run| ==> IsStep(run[k], n))
    && (forall k :: 0 < k < |run| ==> run[k].before == run[k - 1].after)
    && (run != [] ==> run[0].before.material == NO_MATERIAL)
  }

  function MaterialAt(run: seq<Event>, k: nat): Material
    requires k <= |run|
  {
    if k == 0 then NO_MATERIAL else run[k - 1].after.material
  }

  predicate AsksApproval(e: Event) {
    e.action.Request? && e.result.Some? && e.result.value.ApprovalRequired?
  }

  predicate GivesApproval(e: Event) {
    e.action.Approve? && e.result.Some? && e.result.value.Released?
  }

  predicate ReleasesByClaim(e: Event) {
    e.action.Claim? && e.result.Some? && e.result.value.Released?
  }

  // ---------------------------------------------------------------------------------------------
  // Safety over all runs.
  // ---------------------------------------------------------------------------------------------

  /** Event `j` asked for the approval of `c`, nothing asked since, and the request still stands before event `k`. */
  predicate AskedAt(run: seq<Event>, j: nat, k: nat, c: Credential) {
    && j < k <= |run|
    && AsksApproval(run[j])
    && (forall m :: j <= m < k ==> run[m].after.material == Waiting(c))
    && (forall m :: j < m < k ==> !AsksApproval(run[m]))
  }

  /**
   Event `i` approved what event `j` asked for, and before event `k` it is neither claimed, nor cleared, nor replaced.
   */
  predicate ApprovedAt(run: seq<Event>, j: nat, i: nat, k: nat, c: Credential) {
    && i < k <= |run|
    && AskedAt(run, j, i, c)
    && GivesApproval(run[i])
    && run[i].result == Some(Released(c.username, c.password))
    && (forall m :: i <= m < k ==> run[m].after.material == Approved(c))
    && (forall m :: i < m < k ==> !AsksApproval(run[m]) && !ReleasesByClaim(run[m]))
  }

  /** Where the material held before event `k` comes from; pending and approved material never coexist. */
  ghost predicate Accounted(run: seq<Event>, k: nat)
    requires k <= |run|
  {
    var m := MaterialAt(run, k);
    || m == NO_MATERIAL
    || (exists c, j :: m == Waiting(c) && AskedAt(run, j, k, c))
    || (exists c, j, i :: m == Approved(c) && ApprovedAt(run, j, i, k, c))
  }

  /** What one action does to the material, whatever the session is and whatever others do to it. */
  lemma {:induction false} MaterialStep(e: Event, n: Normalizer)
    requires IsStep(e, n)
    ensures var m := e.before.material;
      var m' := e.after.material;
      if AsksApproval(e) then exists c :: m' == Waiting(c)
      else if GivesApproval(e) then
        && m.currentPendingApproval.Some? && m.pendingCredential.Some?
        && m' == Approved(m.pendingCredential.value)
        && e.result == Some(Released(m.pendingCredential.value.username, m.pendingCredential.value.password))
      else if ReleasesByClaim(e) then m.approvedCredential.Some? && m' == m.(approvedCredential := None)
      else m' == m || m' == NO_MATERIAL
  {
    match e.action
    case OnSession(_) =>
    case Metadata(_, _, _) =>
    case Request(id, origin, profileId, reason, t) =>
      if AsksApproval(e) {
        var c := Meanwhile(e.before, t, n).Lookup(id, origin, profileId, t.second, n).value;
        assert e.after.material == Waiting(c);
      }
    case Approve(_, _) =>
    case Claim(_, _, _, _, _) =>
    case Deny(_) =>
    case Clear =>
  }

  lemma {:induction false} AccountedStep(run: seq<Event>, k: nat, n: Normalizer)
    requires IsRun(run, n) && k < |run| && Accounted(run, k)
    ensures Accounted(run, k + 1)
  {
    var e := run[k];
    var m := MaterialAt(run, k);
    assert e.before.material == m && IsStep(e, n);
    MaterialStep(e, n);
    hide IsRun, IsStep, AskedAt, ApprovedAt, AsksApproval, GivesApproval, ReleasesByClaim;
    if AsksApproval(e) {
      var c :| e.after.material == Waiting(c);
      AskedNow(run, k, c);
    } else if GivesApproval(e) {
      var c, j :| m == Waiting(c) && AskedAt(run, j, k, c);
      ApprovedNow(run, j, k, c);
    } else if e.after.material == m && m != NO_MATERIAL {
      StillAccounted(run, k, e.after.material);
    }
  }

  lemma {:induction false} AskedNow(run: seq<Event>, k: nat, c: Credential)
    requires k < |run| && AsksApproval(run[k]) && run[k].after.material == Waiting(c)
    ensures AskedAt(run, k, k + 1, c)
  {
  }

  lemma {:induction false} ApprovedNow(run: seq<Event>, j: nat, k: nat, c: Credential)
    requires k < |run| && AskedAt(run, j, k, c) && GivesApproval(run[k])
    requires run[k].result == Some(Released(c.username, c.password)) && run[k].after.material == Approved(c)
    ensures ApprovedAt(run, j, k, k + 1, c)
  {
    hide AskedAt;
  }

  /** Material that an event leaves as it is keeps its origin. */
  lemma {:induction false} StillAccounted(run: seq<Event>, k: nat, m: Material)
    requires k < |run| && Accounted(run, k) && m == MaterialAt(run, k) == run[k].after.material != NO_MATERIAL
    requires !AsksApproval(run[k]) && !GivesApproval(run[k])
    requires m.approvedCredential.Some? ==> !ReleasesByClaim(run[k])
    ensures Accounted(run, k + 1)
  {
    hide AsksApproval, GivesApproval, ReleasesByClaim;
    if c, j :| m == Waiting(c) && AskedAt(run, j, k, c) {
      assert AskedAt(run, j, k + 1, c);
    } else {
      var c, j, i :| m == Approved(c) && ApprovedAt(run, j, i, k, c);
      assert ApprovedAt(run, j, i, k + 1, c);
    }
  }

  lemma {:induction false} AlwaysAccounted(run: seq<Event>, k: nat, n: Normalizer)
    requires IsRun(run, n) && k <= |run|
    ensures Accounted(run, k)
  {
    if k > 0 {
      AlwaysAccounted(run, k - 1, n);
      AccountedStep(run, k - 1, n);
    }
  }

  /** Pending and approved material never coexist, and a pending approval always describes the pending credential. */
  lemma {:induction false} MaterialIsExclusive(run: seq<Event>, k: nat, n: Normalizer)
    requires IsRun(run, n) && k <= |run|
    ensures var m := MaterialAt(run, k);
      && (m.currentPendingApproval.Some? <==> m.pendingCredential.Some?)
      && (m.pendingCredential.Some? ==> m.currentPendingApproval == Some(ApprovalFor(m.pendingCredential.value)))
      && !(m.pendingCredential.Some? && m.approvedCredential.Some?)
  {
    AlwaysAccounted(run, k, n);
  }

  /** The session still holds `c` for this origin and profile, and is unlocked. */
  predicate StillHolds(
    s: Session, c: Credential, id: string, origin: string, profileId: string, now: int, n: Normalizer)
  {
    && s.IsUnlocked(now)
    && c in s.credentials
    && n(origin).Some? && Matches(c, id, n(origin).value, profileId)
  }

  /**
   A claim releases a credential only if it is the one from the latest request that asked for approval, it was
   approved after that and not claimed, cleared or replaced since, and the session still holds an equal credential
   for that id, origin and profile.
   */
  lemma {:induction false} ClaimsAreAuthorized(
    run: seq<Event>, k: nat, n: Normalizer)
    returns (c: Credential, j: nat, i: nat)
    requires IsRun(run, n) && k < |run| && ReleasesByClaim(run[k])
    ensures ApprovedAt(run, j, i, k, c)
    ensures run[k].result == Some(Released(c.username, c.password))
    ensures var a := run[k].action;
      StillHolds(Meanwhile(run[k].before, a.t, n), c, a.id, a.origin, a.profileId, a.t.second, n)
  {
    AlwaysAccounted(run, k, n);
    var e := run[k];
    assert e.before.material == MaterialAt(run, k);
    assert e.before.material.approvedCredential.Some?;
    c, j, i :| MaterialAt(run, k) == Approved(c) && ApprovedAt(run, j, i, k, c);
  }

  /** Two claims never live off one approval. */
  lemma {:induction false} OneClaimPerApproval(
    run: seq<Event>, j1: nat, i1: nat, k1: nat, c1: Credential, j2: nat, i2: nat, k2: nat, c2: Credential)
    requires k1 < k2 < |run| && ReleasesByClaim(run[k1])
    requires ApprovedAt(run, j1, i1, k1, c1) && ApprovedAt(run, j2, i2, k2, c2)
    ensures i1 != i2
  {
    assert i1 < k1 && !(i2 < k1 < k2);
  }

  function CountApprovals(run: seq<Event>, k: nat): nat
    requires k <= |run|
  {
    if k == 0 then 0 else CountApprovals(run, k - 1) + if GivesApproval(run[k - 1]) then 1 else 0
  }

  function CountClaims(run: seq<Event>, k: nat): nat
    requires k <= |run|
  {
    if k == 0 then 0 else CountClaims(run, k - 1) + if ReleasesByClaim(run[k - 1]) then 1 else 0
  }

  /** At every moment, releases by claim do not exceed approvals; an unclaimed approval leaves one to spare. */
  lemma {:induction false} ClaimsNeverExceedApprovals(run: seq<Event>, k: nat, n: Normalizer)
    requires IsRun(run, n) && k <= |run|
    ensures CountClaims(run, k) + (if MaterialAt(run, k).approvedCredential.Some? then 1 else 0)
      <= CountApprovals(run, k)
  {
    if k > 0 {
      ClaimsNeverExceedApprovals(run, k - 1, n);
      var e := run[k - 1];
      assert e.before.material == MaterialAt(run, k - 1);
      MaterialStep(e, n);
      MaterialIsExclusive(run, k - 1, n);
    }
  }

  // ---------------------------------------------------------------------------------------------
  // Progress, and the one case in which a request can never be approved.
  // ---------------------------------------------------------------------------------------------

  /** Nobody interferes, and the session stays unlocked throughout. */
  predicate Undisturbed(s: Session, t: Timing) {
    t.between == [] && s.IsUnlocked(t.first) && s.IsUnlocked(t.second)
  }

  lemma {:induction false} FirstMatchAgain(credentials: seq<Credential>, id: string, origin: string, profileId: string)
    requires FirstMatch(credentials, id, origin, profileId).Some?
    ensures var c := FirstMatch(credentials, id, origin, profileId).value;
      FirstMatch(credentials, c.id, c.websiteOrigin, c.profileId) == Some(c)
  {
  }

  /**
   Approving looks the credential up again by its stored origin, which is already normal. So an undisturbed request
   can be approved exactly when normalizing that origin once more leaves it alone.
   */
  lemma {:induction false} ApprovalSucceedsExactlyWhenOriginIsStable(
    w: World, id: string, origin: string, profileId: string, t1: Timing, t2: Timing, n: Normalizer)
    requires Undisturbed(w.session, t1) && Undisturbed(w.session, t2)
    requires RequestOf(w, id, origin, profileId, "fill-active-page", t1, n).1.ApprovalRequired?
    ensures var (w1, asked) := RequestOf(w, id, origin, profileId, "fill-active-page", t1, n);
      var stored := asked.approval.origin;
      && stored == n(origin).value
      && (ApproveOf(w1, id, t2, n).1.Released? <==> n(stored) == Some(stored))
  {
    var c := w.session.Lookup(id, origin, profileId, t1.second, n).value;
    FirstMatchAgain(w.session.credentials, id, n(origin).value, profileId);
    assert c.websiteOrigin == n(origin).value;
  }

  /** A normalizer that writes an IPv6 host without its brackets, so that its result does not parse again. */
  function Unbracketed(origin: string): Option<string> {
    if origin == "http://[::1]" then Some("http://::1") else None
  }

  /** Under it a vault unlocked with this credential answers the request, and never the approval. */
  lemma {:induction false} SomeOriginsAreNeverApproved(d: Credential, now: int)
    requires d.websiteOrigin == "http://[::1]"
    ensures var session := ApplyStep(Session([], None, None), UnlockFor([d], now, 1), Unbracketed);
      var t := Timing(now, [], now);
      var (w, asked) := RequestOf(
        World(session, NO_MATERIAL), d.id, d.websiteOrigin, d.profileId, "fill-active-page", t, Unbracketed);
      && asked == ApprovalRequired(ApprovalFor(d.(websiteOrigin := "http://::1")))
      && ApproveOf(w, d.id, t, Unbracketed) == (World(session, NO_MATERIAL), NotFound)
  {
    var c := d.(websiteOrigin := "http://::1");
    assert [d][1..] == [] && WithNormalOrigins([d], Unbracketed) == [c];
    assert |"http://::1"| != |"http://[::1]"|;
  }

  /**
   With a stable origin, request, approval and claim go through, and the claim hands over the requested credential.
   */
  lemma {:induction false} UndisturbedReleaseGoesThrough(
    w: World, id: string, origin: string, profileId: string, t1: Timing, t2: Timing, t3: Timing, n: Normalizer)
    requires Undisturbed(w.session, t1) && Undisturbed(w.session, t2) && Undisturbed(w.session, t3)
    requires n(origin).Some? && n(n(origin).value) == n(origin)
    requires FirstMatch(w.session.credentials, id, n(origin).value, profileId).Some?
    ensures var c := FirstMatch(w.session.credentials, id, n(origin).value, profileId).value;
      var w1 := RequestOf(w, id, origin, profileId, "fill-active-page", t1, n).0;
      var w2 := ApproveOf(w1, id, t2, n).0;
      var (w3, r) := ClaimOf(w2, id, origin, profileId, t3, n);
      r == Released(c.username, c.password) && w3.material == NO_MATERIAL
  {
    ApprovalSucceedsExactlyWhenOriginIsStable(w, id, origin, profileId, t1, t2, n);
  }
}
