/**
 Developer secrets on the server: the store of one-time handoff codes and command-line sessions
 (lib/dev-secret-session-store.ts) and the service that binds both to an owner and a target
 (services/dev-secrets-service.ts). Random codes and tokens, and every reading of the clock, are parameters; nothing
 is assumed about them, so codes may repeat and the clock may step back.
 */
module DevSecrets {
  import opened Basics

  datatype Target = Target(appCode: string, targetEnv: string, secretKind: string)

  datatype Record = Record(ownerAccountId: string, target: Target, expiresAt: int)

  type Records = map<string, Record>

  const HANDOFF_TTL_MS := 60_000
  const CLI_SESSION_TTL_MS := 300_000

  // ---------------------------------------------------------------------------------------------
  // The session store.
  // ---------------------------------------------------------------------------------------------

  function Unexpired(records: Records, now: int): Records {
    map key | key in records && records[key].expiresAt > now :: records[key]
  }

  datatype Ttls = Ttls(handoff: int, session: int)

  class DevSecretSessionStore {
    const ttls: Ttls
    var handoffs: Records
    var cliSessions: Records

    constructor (ttls: Ttls := Ttls(HANDOFF_TTL_MS, CLI_SESSION_TTL_MS))
      ensures this.ttls == ttls && handoffs == map[] && cliSessions == map[]
    {
      this.ttls := ttls;
      handoffs, cliSessions := map[], map[];
    }

    method PurgeExpiredRecords(now: int)
      modifies this
      ensures handoffs == Unexpired(old(handoffs), now) && cliSessions == Unexpired(old(cliSessions), now)
    {
      var entries := handoffs.Keys;
      while entries != {}
        invariant entries <= old(handoffs).Keys
        invariant handoffs == map key | key in old(handoffs) && (key in entries || old(handoffs)[key].expiresAt > now)
          :: old(handoffs)[key]
        invariant cliSessions == old(cliSessions)
        decreases |entries|
      {
        var code :| code in entries;
        entries := entries - {code};
        if handoffs[code].expiresAt <= now {
          handoffs := handoffs - {code};
        }
      }
      entries := cliSessions.Keys;
      while entries != {}
        invariant entries <= old(cliSessions).Keys
        invariant cliSessions == map key | key in old(cliSessions)
          && (key in entries || old(cliSessions)[key].expiresAt > now)
          :: old(cliSessions)[key]
        invariant handoffs == Unexpired(old(handoffs), now)
        decreases |entries|
      {
        var token :| token in entries;
        entries := entries - {token};
        if cliSessions[token].expiresAt <= now {
          cliSessions := cliSessions - {token};
        }
      }
    }

    /** `code` is the generated code; `purgedAt` and `now` are the two readings of the clock. */
    method CreateHandoff(owner: string, target: Target, code: string, purgedAt: int, now: int)
      modifies this
      ensures handoffs == Unexpired(old(handoffs), purgedAt)[code := Record(owner, target, now + ttls.handoff)]
      ensures cliSessions == Unexpired(old(cliSessions), purgedAt)
    {
      PurgeExpiredRecords(purgedAt);
      handoffs := handoffs[code := Record(owner, target, now + ttls.handoff)];
    }

    /** The handoff is used up; the session it opens keeps its owner and target. */
    method ExchangeHandoff(code: string, token: string, purgedAt: int, now: int) returns (session: Option<Record>)
      modifies this
      ensures session.None? <==> code !in Unexpired(old(handoffs), purgedAt)
      ensures session.Some? ==>
        && handoffs == Unexpired(old(handoffs), purgedAt) - {code}
        && session.value == old(handoffs)[code].(expiresAt := now + ttls.session)
        && cliSessions == Unexpired(old(cliSessions), purgedAt)[token := session.value]
      ensures session.None? ==>
        && handoffs == Unexpired(old(handoffs), purgedAt)
        && cliSessions == Unexpired(old(cliSessions), purgedAt)
    {
      PurgeExpiredRecords(purgedAt);
      if code !in handoffs {
        return None;
      }
      var handoff := handoffs[code];
      handoffs := handoffs - {code};
      var record := Record(handoff.ownerAccountId, handoff.target, now + ttls.session);
      cliSessions := cliSessions[token := record];
      return Some(record);
    }

    method GetCliSession(token: string, purgedAt: int) returns (session: Option<Record>)
      modifies this
      ensures handoffs == Unexpired(old(handoffs), purgedAt) && cliSessions == Unexpired(old(cliSessions), purgedAt)
      ensures session == if token in cliSessions then Some(cliSessions[token]) else None
    {
      PurgeExpiredRecords(purgedAt);
      return if token in cliSessions then Some(cliSessions[token]) else None;
    }
  }

  // ---------------------------------------------------------------------------------------------
  // The service.
  // ---------------------------------------------------------------------------------------------

  /** dev-secrets-targets.ts */
  predicate IsSupportedTarget(t: Target) {
    t.appCode == "unuidentity" && t.targetEnv in ["local", "staging", "production"] && t.secretKind == "dotenv"
  }

  /** The characters that `trim` removes. */
  predicate IsTrimmed(c: char) {
    (c as int) in {0x9, 0xA, 0xB, 0xC, 0xD, 0x20, 0xA0, 0x1680, 0x2028, 0x2029, 0x202F, 0x205F, 0x3000, 0xFEFF}
    || 0x2000 <= c as int <= 0x200A
  }

  predicate IsBlank(s: string) {
    forall k :: 0 <= k < |s| ==> IsTrimmed(s[k])
  }

  datatype ServiceError = UnsupportedTarget | InvalidCiphertext | Unauthorized | InvalidHandoff | NotFound

  /** One request. An account lookup that failed is `None`; an empty account id counts as failed too. */
  datatype Request =
    | CreateBrowserHandoff(owner: Option<string>, target: Target, code: string, purgedAt: int, now: int)
    | ExchangeBrowserHandoff(code: string, token: string, purgedAt: int, now: int)
    | GetPrivateRecord(token: string, target: Target, purgedAt: int)
    | PutPrivateRecord(token: string, target: Target, ciphertext: string, purgedAt: int)

  datatype Reply = HandoffCode(code: string) | CliSession(token: string) | Secret(ciphertext: string) | Stored

  datatype State = State(handoffs: Records, cliSessions: Records, secrets: map<(string, Target), string>)

  function Purged(s: State, now: int): State {
    s.(handoffs := Unexpired(s.handoffs, now), cliSessions := Unexpired(s.cliSessions, now))
  }

  /** The session that a request for `target` may use, in a state that has been purged. */
  function Authorized(s: State, token: string, target: Target): Option<Record> {
    if token in s.cliSessions && s.cliSessions[token].target == target then Some(s.cliSessions[token]) else None
  }

  /** What one request does and answers. */
  function Serve(s: State, q: Request, ttls: Ttls): (State, Result<Reply, ServiceError>) {
    match q
    case CreateBrowserHandoff(owner, target, code, purgedAt, now) =>
      if !IsSupportedTarget(target) then (s, Err(UnsupportedTarget))
      else if owner == None || owner == Some("") then (s, Err(Unauthorized))
      else
        var p := Purged(s, purgedAt);
        (p.(handoffs := p.handoffs[code := Record(owner.value, target, now + ttls.handoff)]), Ok(HandoffCode(code)))
    case ExchangeBrowserHandoff(code, token, purgedAt, now) =>
      if IsBlank(code) then (s, Err(InvalidHandoff))
      else
        var p := Purged(s, purgedAt);
        if code !in p.handoffs then (p, Err(InvalidHandoff))
        else
          (p.(handoffs := p.handoffs - {code},
              cliSessions := p.cliSessions[token := p.handoffs[code].(expiresAt := now + ttls.session)]),
           Ok(CliSession(token)))
    case GetPrivateRecord(token, target, purgedAt) =>
      if !IsSupportedTarget(target) then (s, Err(UnsupportedTarget))
      else
        var p := Purged(s, purgedAt);
        (match Authorized(p, token, target)
         case None => (p, Err(Unauthorized))
         case Some(session) =>
           var key := (session.ownerAccountId, target);
           (p, if key in p.secrets then Ok(Secret(p.secrets[key])) else Err(NotFound)))
    case PutPrivateRecord(token, target, ciphertext, purgedAt) =>
      if !IsSupportedTarget(target) then (s, Err(UnsupportedTarget))
      else if IsBlank(ciphertext) then (s, Err(InvalidCiphertext))
      else
        var p := Purged(s, purgedAt);
        match Authorized(p, token, target)
        case None => (p, Err(Unauthorized))
        case Some(session) => (p.(secrets := p.secrets[(session.ownerAccountId, target) := ciphertext]), Ok(Stored))
  }

  class DevSecretsService {
    const sessionStore: DevSecretSessionStore
    var secrets: map<(string, Target), string>

    constructor (sessionStore: DevSecretSessionStore)
      ensures this.sessionStore == sessionStore && secrets == map[]
    {
      this.sessionStore := sessionStore;
      secrets := map[];
    }

    ghost function Current(): State
      reads this, sessionStore
    {
      State(sessionStore.handoffs, sessionStore.cliSessions, secrets)
    }

    method CreateBrowserHandoff(owner: Option<string>, target: Target, code: string, purgedAt: int, now: int)
      returns (r: Result<Reply, ServiceError>)
      modifies sessionStore
      ensures (Current(), r)
        == Serve(old(Current()), Request.CreateBrowserHandoff(owner, target, code, purgedAt, now), sessionStore.ttls)
    {
      if !IsSupportedTarget(target) {
        return Err(UnsupportedTarget);
      }
      if owner == None || owner == Some("") {
        return Err(Unauthorized);
      }
      sessionStore.CreateHandoff(owner.value, target, code, purgedAt, now);
      return Ok(HandoffCode(code));
    }

    method ExchangeBrowserHandoff(code: string, token: string, purgedAt: int, now: int)
      returns (r: Result<Reply, ServiceError>)
      modifies sessionStore
      ensures (Current(), r)
        == Serve(old(Current()), Request.ExchangeBrowserHandoff(code, token, purgedAt, now), sessionStore.ttls)
    {
      if IsBlank(code) {
        return Err(InvalidHandoff);
      }
      var handoff := sessionStore.ExchangeHandoff(code, token, purgedAt, now);
      if handoff.None? {
        return Err(InvalidHandoff);
      }
      return Ok(CliSession(token));
    }

    method GetPrivateRecord(token: string, target: Target, purgedAt: int) returns (r: Result<Reply, ServiceError>)
      modifies sessionStore
      ensures (Current(), r)
        == Serve(old(Current()), Request.GetPrivateRecord(token, target, purgedAt), sessionStore.ttls)
    {
      if !IsSupportedTarget(target) {
        return Err(UnsupportedTarget);
      }
      var session := sessionStore.GetCliSession(token, purgedAt);
      if session.None? || session.value.target != target {
        return Err(Unauthorized);
      }
      var key := (session.value.ownerAccountId, target);
      if key !in secrets {
        return Err(NotFound);
      }
      return Ok(Secret(secrets[key]));
    }

    method PutPrivateRecord(token: string, target: Target, ciphertext: string, purgedAt: int)
      returns (r: Result<Reply, ServiceError>)
      modifies this`secrets, sessionStore
      ensures (Current(), r)
        == Serve(old(Current()), Request.PutPrivateRecord(token, target, ciphertext, purgedAt), sessionStore.ttls)
    {
      if !IsSupportedTarget(target) {
        return Err(UnsupportedTarget);
      }
      if IsBlank(ciphertext) {
        return Err(InvalidCiphertext);
      }
      var session := sessionStore.GetCliSession(token, purgedAt);
      if session.None? || session.value.target != target {
        return Err(Unauthorized);
      }
      secrets := secrets[(session.value.ownerAccountId, target) := ciphertext];
      return Ok(Stored);
    }
  }

  // ---------------------------------------------------------------------------------------------
  // Runs of requests, from an empty server.
  // ---------------------------------------------------------------------------------------------

  function StateAt(run: seq<Request>, n: nat, ttls: Ttls): State
    requires n <= |run|
  {
    if n == 0 then State(map[], map[], map[]) else Serve(StateAt(run, n - 1, ttls), run[n - 1], ttls).0
  }

  predicate Succeeds(run: seq<Request>, n: nat, ttls: Ttls)
    requires n < |run|
  {
    Serve(StateAt(run, n, ttls), run[n], ttls).1.Ok?
  }

  /**
   The clock reading with which a request purges the store; a request refused before it reaches the store has none.
   */
  function PurgeTime(q: Request): Option<int> {
    var reachesStore := match q
      case CreateBrowserHandoff(owner, target, _, _, _) =>
        IsSupportedTarget(target) && owner != None && owner != Some("")
      case ExchangeBrowserHandoff(code, _, _, _) => !IsBlank(code)
      case GetPrivateRecord(_, target, _) => IsSupportedTarget(target)
      case PutPrivateRecord(_, target, ciphertext, _) => IsSupportedTarget(target) && !IsBlank(ciphertext);
    if reachesStore then Some(q.purgedAt) else None
  }

  predicate Outlives(record: Record, q: Request) {
    match PurgeTime(q) case None => true case Some(t) => t < record.expiresAt
  }

  /** Request `n` created a handoff with this code. */
  predicate Creates(run: seq<Request>, n: nat, code: string, ttls: Ttls)
    requires n < |run|
  {
    run[n].CreateBrowserHandoff? && run[n].code == code && Succeeds(run, n, ttls)
  }

  /** Request `n` turned this code into a session. */
  predicate Exchanges(run: seq<Request>, n: nat, code: string, ttls: Ttls)
    requires n < |run|
  {
    run[n].ExchangeBrowserHandoff? && run[n].code == code && Succeeds(run, n, ttls)
  }

  /** Request `n` opened a session under this token. */
  predicate Opens(run: seq<Request>, n: nat, token: string, ttls: Ttls)
    requires n < |run|
  {
    run[n].ExchangeBrowserHandoff? && run[n].token == token && Succeeds(run, n, ttls)
  }

  /**
   `record` is the handoff that request `j` created, still good before request `n`: since then every clock reading was
   before its deadline, it was not exchanged, and its code was not created anew.
   */
  predicate HandoffFrom(run: seq<Request>, j: nat, n: nat, code: string, record: Record, ttls: Ttls)
    requires n <= |run|
  {
    && j < n && Creates(run, j, code, ttls)
    && run[j].owner.Some? && record == Record(run[j].owner.value, run[j].target, run[j].now + ttls.handoff)
    && forall k :: j < k < n ==>
         Outlives(record, run[k]) && !Exchanges(run, k, code, ttls) && !Creates(run, k, code, ttls)
  }

  /** What one request does to one handoff code. */
  lemma {:induction false} OneHandoff(run: seq<Request>, n: nat, code: string, ttls: Ttls)
    requires n < |run|
    ensures var before, after := StateAt(run, n, ttls).handoffs, StateAt(run, n + 1, ttls).handoffs;
      if Creates(run, n, code, ttls) then
        run[n].owner.Some? && code in after
        && after[code] == Record(run[n].owner.value, run[n].target, run[n].now + ttls.handoff)
      else
        && (code in after <==> code in before && Outlives(before[code], run[n]) && !Exchanges(run, n, code, ttls))
        && (code in after ==> after[code] == before[code])
  {
    hide IsBlank, IsSupportedTarget;
  }

  /** A code is held exactly while some creation of it is good. */
  lemma {:induction false} HandoffsHaveAnOrigin(run: seq<Request>, n: nat, code: string, record: Record, ttls: Ttls)
    requires n <= |run|
    ensures code in StateAt(run, n, ttls).handoffs && StateAt(run, n, ttls).handoffs[code] == record
      <==> exists j: nat :: HandoffFrom(run, j, n, code, record, ttls)
  {
    hide Serve, Outlives, Creates, Exchanges;
    if n > 0 {
      var m: nat := n - 1;
      OneHandoff(run, m, code, ttls);
      HandoffsHaveAnOrigin(run, m, code, record, ttls);
      if Creates(run, m, code, ttls) {
        assert HandoffFrom(run, m, n, code, StateAt(run, n, ttls).handoffs[code], ttls);
      } else {
        forall j: nat | j != m
          ensures HandoffFrom(run, j, n, code, record, ttls)
            <==> HandoffFrom(run, j, m, code, record, ttls)
                 && Outlives(record, run[m]) && !Exchanges(run, m, code, ttls)
        {
        }
      }
    }
  }

  /** A blank code aside, an exchange succeeds exactly when a creation of the code is still good at that moment. */
  lemma {:induction false} ExchangeSucceedsExactlyOnAGoodHandoff(run: seq<Request>, n: nat, ttls: Ttls)
    requires n < |run| && run[n].ExchangeBrowserHandoff?
    ensures Succeeds(run, n, ttls) <==>
      && !IsBlank(run[n].code)
      && exists j: nat, record ::
           HandoffFrom(run, j, n, run[n].code, record, ttls) && run[n].purgedAt < record.expiresAt
  {
    hide IsBlank, HandoffFrom;
    var code, handoffs := run[n].code, StateAt(run, n, ttls).handoffs;
    if code in handoffs {
      HandoffsHaveAnOrigin(run, n, code, handoffs[code], ttls);
    }
    if j: nat, record :| HandoffFrom(run, j, n, code, record, ttls) && run[n].purgedAt < record.expiresAt {
      HandoffsHaveAnOrigin(run, n, code, record, ttls);
    }
  }

  function Creations(run: seq<Request>, n: nat, code: string, ttls: Ttls): nat
    requires n <= |run|
  {
    if n == 0 then 0
    else Creations(run, n - 1, code, ttls) + if Creates(run, n - 1, code, ttls) then 1 else 0
  }

  function SessionsOpened(run: seq<Request>, n: nat, code: string, ttls: Ttls): nat
    requires n <= |run|
  {
    if n == 0 then 0
    else SessionsOpened(run, n - 1, code, ttls) + if Exchanges(run, n - 1, code, ttls) then 1 else 0
  }

  /** A code opens at most one session for each time it was created, however often it is presented. */
  lemma {:induction false} OneSessionPerHandoff(run: seq<Request>, n: nat, code: string, ttls: Ttls)
    requires n <= |run|
    ensures SessionsOpened(run, n, code, ttls) + (if code in StateAt(run, n, ttls).handoffs then 1 else 0)
      <= Creations(run, n, code, ttls)
  {
    hide Serve;
    if n > 0 {
      OneSessionPerHandoff(run, n - 1, code, ttls);
      OneHandoff(run, n - 1, code, ttls);
      ExchangedWasHeld(run, n - 1, code, ttls);
    }
  }

  lemma {:induction false} ExchangedWasHeld(run: seq<Request>, n: nat, code: string, ttls: Ttls)
    requires n < |run|
    ensures Exchanges(run, n, code, ttls) ==>
      && code in StateAt(run, n, ttls).handoffs && !Creates(run, n, code, ttls)
      && Outlives(StateAt(run, n, ttls).handoffs[code], run[n])
  {
    hide IsBlank, StateAt;
  }

  /**
   `record` is the session that request `m` opened under this token, still good before request `n`: it carries the
   owner and target of a handoff that was good when it was exchanged; since then every clock reading was before the
   session's deadline, and no other session took its token.
   */
  predicate SessionFrom(run: seq<Request>, m: nat, n: nat, token: string, record: Record, ttls: Ttls)
    requires n <= |run|
  {
    && m < n && Opens(run, m, token, ttls)
    && run[m].code in StateAt(run, m, ttls).handoffs
    && record == StateAt(run, m, ttls).handoffs[run[m].code].(expiresAt := run[m].now + ttls.session)
    && forall k :: m < k < n ==> Outlives(record, run[k]) && !Opens(run, k, token, ttls)
  }

  lemma {:induction false} OneSession(run: seq<Request>, n: nat, token: string, ttls: Ttls)
    requires n < |run|
    ensures var state, before, after := StateAt(run, n, ttls), StateAt(run, n, ttls).cliSessions,
      StateAt(run, n + 1, ttls).cliSessions;
      if Opens(run, n, token, ttls) then
        run[n].code in state.handoffs && token in after
        && after[token] == state.handoffs[run[n].code].(expiresAt := run[n].now + ttls.session)
      else
        && (token in after <==> token in before && Outlives(before[token], run[n]))
        && (token in after ==> after[token] == before[token])
  {
    hide IsBlank, IsSupportedTarget;
  }

  /** A token is held exactly while the session last opened under it is good. */
  lemma {:induction false} SessionsHaveAnOrigin(run: seq<Request>, n: nat, token: string, record: Record, ttls: Ttls)
    requires n <= |run|
    ensures token in StateAt(run, n, ttls).cliSessions && StateAt(run, n, ttls).cliSessions[token] == record
      <==> exists m: nat :: SessionFrom(run, m, n, token, record, ttls)
  {
    hide Serve, Outlives, Opens;
    if n > 0 {
      var last: nat := n - 1;
      OneSession(run, last, token, ttls);
      SessionsHaveAnOrigin(run, last, token, record, ttls);
      if Opens(run, last, token, ttls) {
        assert SessionFrom(run, last, n, token, StateAt(run, n, ttls).cliSessions[token], ttls);
      } else {
        forall m: nat | m != last
          ensures SessionFrom(run, m, n, token, record, ttls)
            <==> SessionFrom(run, m, last, token, record, ttls) && Outlives(record, run[last])
        {
        }
      }
    }
  }

  /**
   Request `n` may use the secret of `owner` for its target: a handoff that this owner created for that very target
   was good when it was exchanged for the token presented, and the session was good at every clock reading since,
   the one of request `n` included.
   */
  ghost predicate Entitled(run: seq<Request>, n: nat, owner: string, ttls: Ttls)
    requires n < |run| && (run[n].GetPrivateRecord? || run[n].PutPrivateRecord?)
  {
    exists j: nat, m: nat, handoff: Record, session: Record ::
      && SessionFrom(run, m, n, run[n].token, session, ttls) && run[n].purgedAt < session.expiresAt
      && run[m].ExchangeBrowserHandoff?
      && HandoffFrom(run, j, m, run[m].code, handoff, ttls) && Outlives(handoff, run[m])
      && run[j].owner == Some(owner) && run[j].target == run[n].target
  }

  /** Whoever is served a session's rights is the owner some handoff names, for the target it names. */
  lemma {:induction false} AuthorizedIsEntitled(run: seq<Request>, n: nat, ttls: Ttls)
    requires n < |run| && (run[n].GetPrivateRecord? || run[n].PutPrivateRecord?)
    requires IsSupportedTarget(run[n].target)
    requires Authorized(Purged(StateAt(run, n, ttls), run[n].purgedAt), run[n].token, run[n].target).Some?
    ensures Entitled(run, n, StateAt(run, n, ttls).cliSessions[run[n].token].ownerAccountId, ttls)
  {
    hide Serve, StateAt, IsSupportedTarget;
    var token := run[n].token;
    var session := StateAt(run, n, ttls).cliSessions[token];
    SessionsHaveAnOrigin(run, n, token, session, ttls);
    var m: nat :| SessionFrom(run, m, n, token, session, ttls);
    var code := run[m].code;
    var handoff := StateAt(run, m, ttls).handoffs[code];
    HandoffsHaveAnOrigin(run, m, code, handoff, ttls);
    ExchangedWasHeld(run, m, code, ttls);
    var j: nat :| HandoffFrom(run, j, m, code, handoff, ttls);
  }

  /** A secret that is read is the one kept for an entitled owner and the target asked for. */
  lemma {:induction false} SecretsAreReadByTheEntitled(run: seq<Request>, n: nat, ttls: Ttls)
    requires n < |run| && run[n].GetPrivateRecord? && Succeeds(run, n, ttls)
    ensures exists owner ::
      && Entitled(run, n, owner, ttls)
      && (owner, run[n].target) in StateAt(run, n, ttls).secrets
      && Serve(StateAt(run, n, ttls), run[n], ttls).1
         == Ok(Secret(StateAt(run, n, ttls).secrets[(owner, run[n].target)]))
  {
    hide StateAt, Entitled, IsSupportedTarget;
    AuthorizedIsEntitled(run, n, ttls);
  }

  /** A request changes at most one secret: the one kept for an entitled owner and the target named. */
  lemma {:induction false} SecretsAreWrittenByTheEntitled(run: seq<Request>, n: nat, ttls: Ttls)
    requires n < |run|
    ensures var before, after := StateAt(run, n, ttls).secrets, StateAt(run, n + 1, ttls).secrets;
      if run[n].PutPrivateRecord? && Succeeds(run, n, ttls) then
        exists owner :: Entitled(run, n, owner, ttls) && after == before[(owner, run[n].target) := run[n].ciphertext]
      else after == before
  {
    hide Entitled, IsSupportedTarget, IsBlank;
    if run[n].PutPrivateRecord? && Succeeds(run, n, ttls) {
      AuthorizedIsEntitled(run, n, ttls);
    }
  }
}
