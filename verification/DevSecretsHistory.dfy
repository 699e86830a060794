/**
 What the developer-secrets service answers, said of the requests before: which handoffs were created and exchanged for
 the session presented, and which secrets were stored for its owner.
 */
module DevSecretsHistory {
  import opened Basics
  import opened DevSecrets

  /** The targets whose secrets the server keeps. */
  const TARGETS := {
    Target("unuidentity", "local", "dotenv"), Target("unuidentity", "staging", "dotenv"),
    Target("unuidentity", "production", "dotenv")
  }

  function ReplyAt(run: seq<Request>, n: nat, ttls: Ttls): Result<Reply, ServiceError>
    requires n < |run|
  {
    Serve(StateAt(run, n, ttls), run[n], ttls).1
  }

  lemma {:induction false} SupportedAreTheThree(t: Target)
    ensures IsSupportedTarget(t) <==> t in TARGETS
  {
    assert t.targetEnv == "local" || t.targetEnv == "staging" || t.targetEnv == "production"
      || t.targetEnv !in ["local", "staging", "production"];
  }

  /** Whatever the server holds, a handoff is created exactly for a supported target and an account that is known. */
  lemma {:induction false} CreationAnswersExactly(run: seq<Request>, n: nat, ttls: Ttls)
    requires n < |run| && run[n].CreateBrowserHandoff?
    ensures ReplyAt(run, n, ttls)
      == if run[n].target !in TARGETS then Err(UnsupportedTarget)
         else if run[n].owner.None? || run[n].owner.value == "" then Err(Unauthorized)
         else Ok(HandoffCode(run[n].code))
  {
    hide StateAt, IsSupportedTarget;
    SupportedAreTheThree(run[n].target);
  }

  /** An exchange answers with its session exactly when a creation of the code is still good; the only error is one. */
  lemma {:induction false} ExchangeAnswersExactly(run: seq<Request>, n: nat, ttls: Ttls)
    requires n < |run| && run[n].ExchangeBrowserHandoff?
    ensures ReplyAt(run, n, ttls)
      == if !IsBlank(run[n].code)
            && exists j: nat, record ::
                 HandoffFrom(run, j, n, run[n].code, record, ttls) && run[n].purgedAt < record.expiresAt
         then Ok(CliSession(run[n].token)) else Err(InvalidHandoff)
  {
    hide StateAt, IsBlank, HandoffFrom;
    ExchangeSucceedsExactlyOnAGoodHandoff(run, n, ttls);
  }

  /** Whoever is entitled is authorized, and as nobody else: the converse of `AuthorizedIsEntitled`. */
  lemma {:induction false} EntitledIsAuthorized(run: seq<Request>, n: nat, owner: string, ttls: Ttls)
    requires n < |run| && (run[n].GetPrivateRecord? || run[n].PutPrivateRecord?) && Entitled(run, n, owner, ttls)
    ensures var authorized := Authorized(Purged(StateAt(run, n, ttls), run[n].purgedAt), run[n].token, run[n].target);
      authorized.Some? && authorized.value.ownerAccountId == owner
  {
    hide Serve, StateAt, Opens, Exchanges;
    var token := run[n].token;
    var j: nat, m: nat, handoff: Record, session: Record :|
      && SessionFrom(run, m, n, token, session, ttls) && run[n].purgedAt < session.expiresAt
      && run[m].ExchangeBrowserHandoff?
      && HandoffFrom(run, j, m, run[m].code, handoff, ttls) && Outlives(handoff, run[m])
      && run[j].owner == Some(owner) && run[j].target == run[n].target;
    SessionsHaveAnOrigin(run, n, token, session, ttls);
    HandoffsHaveAnOrigin(run, m, run[m].code, handoff, ttls);
  }

  ghost predicate SomeoneIsEntitled(run: seq<Request>, n: nat, ttls: Ttls)
    requires n < |run| && (run[n].GetPrivateRecord? || run[n].PutPrivateRecord?)
  {
    exists owner :: Entitled(run, n, owner, ttls)
  }

  /** The session a request may use: there is one exactly if someone is entitled, and it is theirs. */
  lemma {:induction false} AuthorizedExactlyIfEntitled(run: seq<Request>, n: nat, ttls: Ttls)
    requires n < |run| && (run[n].GetPrivateRecord? || run[n].PutPrivateRecord?) && IsSupportedTarget(run[n].target)
    ensures var authorized := Authorized(Purged(StateAt(run, n, ttls), run[n].purgedAt), run[n].token, run[n].target);
      && (authorized.Some? <==> SomeoneIsEntitled(run, n, ttls))
      && (forall owner ::
            Entitled(run, n, owner, ttls) <==> authorized.Some? && authorized.value.ownerAccountId == owner)
  {
    hide Serve, StateAt, Entitled, IsSupportedTarget;
    var authorized := Authorized(Purged(StateAt(run, n, ttls), run[n].purgedAt), run[n].token, run[n].target);
    if authorized.Some? {
      AuthorizedIsEntitled(run, n, ttls);
    }
    forall owner | Entitled(run, n, owner, ttls)
      ensures authorized.Some? && authorized.value.ownerAccountId == owner
    {
      EntitledIsAuthorized(run, n, owner, ttls);
    }
  }

  /** Storing succeeds exactly for a supported target, a ciphertext that is not blank, and someone entitled. */
  lemma {:induction false} PutAnswersExactly(run: seq<Request>, n: nat, ttls: Ttls)
    requires n < |run| && run[n].PutPrivateRecord?
    ensures ReplyAt(run, n, ttls)
      == if run[n].target !in TARGETS then Err(UnsupportedTarget)
         else if IsBlank(run[n].ciphertext) then Err(InvalidCiphertext)
         else if SomeoneIsEntitled(run, n, ttls) then Ok(Stored) else Err(Unauthorized)
  {
    hide StateAt, Entitled, SomeoneIsEntitled, IsSupportedTarget, IsBlank;
    SupportedAreTheThree(run[n].target);
    if IsSupportedTarget(run[n].target) { AuthorizedExactlyIfEntitled(run, n, ttls); }
  }

  /** Request `k` stored a secret of this owner for this target. */
  ghost predicate StoresFor(run: seq<Request>, k: nat, owner: string, target: Target, ttls: Ttls)
    requires k < |run|
  {
    && run[k].PutPrivateRecord? && run[k].target == target && target in TARGETS && !IsBlank(run[k].ciphertext)
    && Entitled(run, k, owner, ttls)
  }

  ghost predicate StoredBefore(run: seq<Request>, n: nat, owner: string, target: Target, ttls: Ttls)
    requires n <= |run|
  {
    exists k: nat :: k < n && StoresFor(run, k, owner, target, ttls)
  }

  ghost predicate LatestStore(run: seq<Request>, k: nat, n: nat, owner: string, target: Target, ttls: Ttls)
    requires n <= |run|
  {
    k < n && StoresFor(run, k, owner, target, ttls)
    && forall i :: k < i < n ==> !StoresFor(run, i, owner, target, ttls)
  }

  /** What one request does to one secret. */
  lemma {:induction false} OneSecret(run: seq<Request>, n: nat, owner: string, target: Target, ttls: Ttls)
    requires n < |run|
    ensures var key, before, after :=
      (owner, target), StateAt(run, n, ttls).secrets, StateAt(run, n + 1, ttls).secrets;
      if StoresFor(run, n, owner, target, ttls) then key in after && after[key] == run[n].ciphertext
      else (key in after <==> key in before) && (key in after ==> after[key] == before[key])
  {
    hide Entitled, SomeoneIsEntitled, IsSupportedTarget, IsBlank;
    if run[n].PutPrivateRecord? {
      SupportedAreTheThree(run[n].target);
      if IsSupportedTarget(run[n].target) { AuthorizedExactlyIfEntitled(run, n, ttls); }
    }
  }

  /** A secret is kept exactly once it was stored, and it is the one stored last. */
  lemma {:induction false} SecretsAreTheLatestStored(
    run: seq<Request>, n: nat, owner: string, target: Target, ttls: Ttls)
    returns (latest: nat)
    requires n <= |run|
    ensures (owner, target) in StateAt(run, n, ttls).secrets <==> StoredBefore(run, n, owner, target, ttls)
    ensures StoredBefore(run, n, owner, target, ttls) ==>
      && LatestStore(run, latest, n, owner, target, ttls) && run[latest].PutPrivateRecord?
      && StateAt(run, n, ttls).secrets[(owner, target)] == run[latest].ciphertext
  {
    hide Serve, Entitled;
    latest := 0;
    if n > 0 {
      var m: nat := n - 1;
      OneSecret(run, m, owner, target, ttls);
      latest := SecretsAreTheLatestStored(run, m, owner, target, ttls);
      if StoresFor(run, m, owner, target, ttls) {
        latest := m;
      } else {
        assert StoredBefore(run, n, owner, target, ttls) <==> StoredBefore(run, m, owner, target, ttls);
      }
    }
  }

  /** The reply hands out what this request stored. */
  predicate IsSecretOf(reply: Result<Reply, ServiceError>, q: Request) {
    q.PutPrivateRecord? && reply == Ok(Secret(q.ciphertext))
  }

  /**
   A read succeeds exactly when the target is supported, someone is entitled to it, and a secret of theirs was stored
   for it before; and what it answers is the one stored last.
   */
  lemma {:induction false} ReadAnswersExactly(run: seq<Request>, n: nat, ttls: Ttls)
    requires n < |run| && run[n].GetPrivateRecord?
    ensures var target, reply := run[n].target, ReplyAt(run, n, ttls);
      if target !in TARGETS then reply == Err(UnsupportedTarget)
      else if !SomeoneIsEntitled(run, n, ttls) then reply == Err(Unauthorized)
      else forall owner :: Entitled(run, n, owner, ttls) ==>
        && (!StoredBefore(run, n, owner, target, ttls) ==> reply == Err(ServiceError.NotFound))
        && (StoredBefore(run, n, owner, target, ttls) ==>
              exists k: nat :: LatestStore(run, k, n, owner, target, ttls) && IsSecretOf(reply, run[k]))
  {
    hide StateAt, Entitled, SomeoneIsEntitled, IsSupportedTarget, StoredBefore, StoresFor;
    SupportedAreTheThree(run[n].target);
    if IsSupportedTarget(run[n].target) {
      AuthorizedExactlyIfEntitled(run, n, ttls);
      forall owner | Entitled(run, n, owner, ttls)
        ensures !StoredBefore(run, n, owner, run[n].target, ttls) ==>
          ReplyAt(run, n, ttls) == Err(ServiceError.NotFound)
        ensures StoredBefore(run, n, owner, run[n].target, ttls) ==>
          exists k: nat ::
            LatestStore(run, k, n, owner, run[n].target, ttls) && IsSecretOf(ReplyAt(run, n, ttls), run[k])
      {
        var latest := SecretsAreTheLatestStored(run, n, owner, run[n].target, ttls);
      }
    }
  }
}
