/**
 The unlocked vault of the Mac companion (CompanionVaultSession.swift): credentials behind a deadline, where any
 read past the deadline latches the session into needing attention. Each method takes the clock reading it makes.
 */
module VaultSession {
  import opened Basics

  datatype Credential = Credential(
    id: string, displayLabel: string, username: string, password: string, profileId: string, websiteOrigin: string)

  datatype AttentionReason = LostDevice | Revoked | UnlockExpired

  datatype LockState = Locked | Unlocked(expiresAt: int) | AttentionNeeded(reason: AttentionReason)

  /** How an origin is written in normal form, or nothing when it is not a web origin. */
  type Normalizer = string -> Option<string>

  datatype Session = Session(
    credentials: seq<Credential>, expiresAt: Option<int>, attentionReason: Option<AttentionReason>)
  {
    /** The session after its lock state is read at time `now`. */
    function Settled(now: int): Session {
      if attentionReason.None? && expiresAt.Some? && now >= expiresAt.value
      then Session([], None, Some(UnlockExpired))
      else this
    }

    function StateAt(now: int): LockState {
      match Settled(now).attentionReason
      case Some(reason) => AttentionNeeded(reason)
      case None => if expiresAt.Some? then Unlocked(expiresAt.value) else Locked
    }

    predicate IsUnlocked(now: int) {
      attentionReason.None? && expiresAt.Some? && now < expiresAt.value
    }

    function Lookup(
      id: string, origin: string, profileId: string, now: int, normalize: Normalizer)
      : Option<Credential>
    {
      if IsUnlocked(now) && normalize(origin).Some?
      then FirstMatch(credentials, id, normalize(origin).value, profileId)
      else None
    }
  }

  predicate Matches(c: Credential, id: string, origin: string, profileId: string) {
    c.id == id && c.websiteOrigin == origin && c.profileId == profileId
  }

  function FirstMatch(
    credentials: seq<Credential>, id: string, origin: string, profileId: string)
    : (r: Option<Credential>)
    ensures r.Some? ==> r.value in credentials && Matches(r.value, id, origin, profileId)
  {
    if credentials == [] then None
    else if Matches(credentials[0], id, origin, profileId) then Some(credentials[0])
    else FirstMatch(credentials[1..], id, origin, profileId)
  }

  /** Credentials with their origins normalized; those without a web origin are dropped. */
  function WithNormalOrigins(credentials: seq<Credential>, normalize: Normalizer): (r: seq<Credential>)
    ensures forall c :: c in r ==>
      exists d :: d in credentials && normalize(d.websiteOrigin).Some?
        && c == d.(websiteOrigin := normalize(d.websiteOrigin).value)
  {
    if credentials == [] then []
    else
      var rest := WithNormalOrigins(credentials[1..], normalize);
      match normalize(credentials[0].websiteOrigin)
      case None => rest
      case Some(origin) => [credentials[0].(websiteOrigin := origin)] + rest
  }

  /** What anyone holding the session may do to it. */
  datatype SessionStep =
    | UnlockFor(credentials: seq<Credential>, now: int, ttl: int)
    | LockNow
    | ReportLost
    | ReportRevoked
    | ReadState(now: int)

  function ApplyStep(s: Session, step: SessionStep, normalize: Normalizer): Session {
    match step
    case UnlockFor(credentials, now, ttl) => Session(WithNormalOrigins(credentials, normalize), Some(now + ttl), None)
    case LockNow => Session([], None, None)
    case ReportLost => Session([], None, Some(LostDevice))
    case ReportRevoked => Session([], None, Some(Revoked))
    case ReadState(now) => s.Settled(now)
  }

  function ApplySteps(s: Session, steps: seq<SessionStep>, normalize: Normalizer): Session
    decreases |steps|
  {
    if steps == [] then s else ApplySteps(ApplyStep(s, steps[0], normalize), steps[1..], normalize)
  }

  class CompanionVaultSession {
    const normalize: Normalizer
    var credentials: seq<Credential>
    var expiresAt: Option<int>
    var attentionReason: Option<AttentionReason>

    ghost function State(): Session
      reads this
    {
      Session(credentials, expiresAt, attentionReason)
    }

    constructor (normalize: Normalizer)
      ensures this.normalize == normalize && State() == Session([], None, None)
    {
      this.normalize := normalize;
      credentials, expiresAt, attentionReason := [], None, None;
    }

    method CurrentLockState(now: int) returns (state: LockState)
      modifies this
      ensures State() == old(State()).Settled(now) && state == old(State()).StateAt(now)
      ensures state.Unlocked? <==> old(attentionReason).None? && old(expiresAt).Some? && now < old(expiresAt).value
      ensures state.Unlocked? ==> state.expiresAt == old(expiresAt).value && State() == old(State())
      ensures state.Locked? <==> old(attentionReason).None? && old(expiresAt).None?
    {
      if attentionReason.Some? {
        return AttentionNeeded(attentionReason.value);
      }
      if expiresAt.None? {
        return Locked;
      }
      if now >= expiresAt.value {
        credentials := [];
        expiresAt := None;
        attentionReason := Some(UnlockExpired);
        return AttentionNeeded(UnlockExpired);
      }
      return Unlocked(expiresAt.value);
    }

    method Unlock(nextCredentials: seq<Credential>, now: int, ttl: int)
      modifies this
      ensures State() == ApplyStep(old(State()), UnlockFor(nextCredentials, now, ttl), normalize)
      ensures credentials == WithNormalOrigins(nextCredentials, normalize)
      ensures expiresAt == Some(now + ttl) && attentionReason == None
    {
      credentials := WithNormalOrigins(nextCredentials, normalize);
      expiresAt := Some(now + ttl);
      attentionReason := None;
    }

    method Lock()
      modifies this
      ensures State() == ApplyStep(old(State()), LockNow, normalize)
      ensures credentials == [] && expiresAt == None && attentionReason == None
    {
      credentials, expiresAt, attentionReason := [], None, None;
    }

    method MarkLostDevice()
      modifies this
      ensures State() == ApplyStep(old(State()), ReportLost, normalize)
      ensures credentials == [] && expiresAt == None && attentionReason == Some(LostDevice)
    {
      credentials, expiresAt, attentionReason := [], None, Some(LostDevice);
    }

    method MarkRevoked()
      modifies this
      ensures State() == ApplyStep(old(State()), ReportRevoked, normalize)
      ensures credentials == [] && expiresAt == None && attentionReason == Some(Revoked)
    {
      credentials, expiresAt, attentionReason := [], None, Some(Revoked);
    }

    method Metadata(origin: string, profileId: string, now: int) returns (matches: seq<Credential>)
      modifies this
      ensures State() == old(State()).Settled(now)
      ensures matches == if old(State()).IsUnlocked(now) && normalize(origin).Some?
                         then AllMatches(old(credentials), normalize(origin).value, profileId) else []
    {
      var state := CurrentLockState(now);
      if !state.Unlocked? || normalize(origin).None? {
        return [];
      }
      return AllMatches(credentials, normalize(origin).value, profileId);
    }

    method FindCredential(id: string, origin: string, profileId: string, now: int) returns (found: Option<Credential>)
      modifies this
      ensures State() == old(State()).Settled(now)
      ensures found == old(State()).Lookup(id, origin, profileId, now, normalize)
    {
      var state := CurrentLockState(now);
      if !state.Unlocked? || normalize(origin).None? {
        return None;
      }
      return FirstMatch(credentials, id, normalize(origin).value, profileId);
    }

    method CredentialsForPairing(now: int) returns (all: Option<seq<Credential>>)
      modifies this
      ensures State() == old(State()).Settled(now)
      ensures all == if old(State()).IsUnlocked(now) then Some(old(credentials)) else None
    {
      var state := CurrentLockState(now);
      return if state.Unlocked? then Some(credentials) else None;
    }

    /** Steps taken by others between two calls of one client. */
    method Interfere(steps: seq<SessionStep>)
      modifies this
      ensures State() == ApplySteps(old(State()), steps, normalize)
    {
      ghost var first := State();
      for k := 0 to |steps|
        invariant ApplySteps(State(), steps[k..], normalize) == ApplySteps(first, steps, normalize)
      {
        assert steps[k..][1..] == steps[k + 1..];
        match steps[k] {
          case UnlockFor(cs, now, ttl) => Unlock(cs, now, ttl);
          case LockNow => Lock();
          case ReportLost => MarkLostDevice();
          case ReportRevoked => MarkRevoked();
          case ReadState(now) => var _ := CurrentLockState(now);
        }
      }
    }
  }

  function AllMatches(credentials: seq<Credential>, origin: string, profileId: string): (r: seq<Credential>)
    ensures forall c :: c in r <==> c in credentials && c.websiteOrigin == origin && c.profileId == profileId
  {
    if credentials == [] then []
    else (if credentials[0].websiteOrigin == origin && credentials[0].profileId == profileId
          then [credentials[0]] else [])
         + AllMatches(credentials[1..], origin, profileId)
  }

  /** Once expired, a session stays without credentials until it is unlocked again, even if the clock steps back. */
  lemma {:induction false} ExpiryLatches(
    s: Session, seen: int, steps: seq<SessionStep>, now: int, normalize: Normalizer)
    requires s.expiresAt.Some? && s.attentionReason.None? && seen >= s.expiresAt.value
    requires forall k :: 0 <= k < |steps| ==> !steps[k].UnlockFor?
    ensures var after := ApplySteps(s.Settled(seen), steps, normalize);
      after.credentials == [] && !after.IsUnlocked(now)
  {
    NoUnlockNoCredentials(s.Settled(seen), steps, normalize);
  }

  lemma {:induction false} NoUnlockNoCredentials(s: Session, steps: seq<SessionStep>, normalize: Normalizer)
    requires s.credentials == [] && s.expiresAt.None?
    requires forall k :: 0 <= k < |steps| ==> !steps[k].UnlockFor?
    ensures ApplySteps(s, steps, normalize).credentials == [] && ApplySteps(s, steps, normalize).expiresAt.None?
    decreases |steps|
  {
    if steps != [] {
      NoUnlockNoCredentials(ApplyStep(s, steps[0], normalize), steps[1..], normalize);
    }
  }
}
