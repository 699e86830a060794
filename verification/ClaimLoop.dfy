/**
 The browser extension's side of a release (apps/browser-extension/src/background/runtime.ts): it lists the matching
 credentials, asks for the only one, and polls for the user's approval. Between its calls anyone else may act on the
 bridge and the session; a `Turn` says who did what, and how far this call gets.
 */
module ClaimLoop {
  import opened Basics
  import opened VaultSession
  import opened Bridge

  const CLAIM_ATTEMPTS: nat := 80

  /** `Rejected` is a promise that the client does not catch. */
  datatype Reply = CredentialReply(username: string, password: string) | ErrorReply(code: string) | Rejected

  /** The bridge's answer as the HTTP codec writes it. */
  function ReplyOf(r: ReleaseResult): Reply {
    match r
    case LockedOut => ErrorReply("vault_locked")
    case InvalidRequest => ErrorReply("invalid_bridge_request")
    case NotFound => ErrorReply("credential_not_found")
    case ApprovalRequired(_) => ErrorReply("approval_required")
    case Released(username, password) => CredentialReply(username, password)
    case Denied => ErrorReply("denied")
  }

  datatype FillData =
    | Ready(username: string, password: string)
    | StillNeedsApproval
    | VaultLocked
    | NoMatch
    | MultipleMatches(count: nat)
    | CompanionUnavailable
    | Thrown

  /**
   How far a call gets: the reply is read; the bridge is never reached; the bridge acts but the fetch fails; or the
   bridge acts and the fetch succeeds, but the body cannot be read.
   */
  datatype Delivery = Answered | NotReached | ReplyLost | BodyLost

  datatype Turn = Turn(others: seq<Action>, delivery: Delivery, t: Timing)

  const UNAVAILABLE: Reply := ErrorReply("mac_companion_unavailable")

  /** What the client makes of an answer: it catches a failed fetch, but not a body that cannot be read. */
  function Received(answer: Reply, d: Delivery): Reply {
    match d
    case Answered => answer
    case NotReached => UNAVAILABLE
    case ReplyLost => UNAVAILABLE
    case BodyLost => Rejected
  }

  /** `events` is one piece of a run, from world `first` to world `last`. */
  predicate IsPiece(events: seq<Event>, first: World, last: World, n: Normalizer) {
    && (forall k :: 0 <= k < |events| ==> IsStep(events[k], n))
    && (forall k :: 0 < k < |events| ==> events[k].before == events[k - 1].after)
    && if events == [] then first == last else events[0].before == first && events[|events| - 1].after == last
  }

  lemma {:induction false} PiecesJoin(a: seq<Event>, b: seq<Event>, w0: World, w1: World, w2: World, n: Normalizer)
    requires IsPiece(a, w0, w1, n) && IsPiece(b, w1, w2, n)
    ensures IsPiece(a + b, w0, w2, n)
  {
    hide IsStep;
    var all := a + b;
    if a == [] {
      assert all == b;
    } else if b == [] {
      assert all == a;
    } else {
      forall k | 0 <= k < |all| ensures IsStep(all[k], n) && (k > 0 ==> all[k].before == all[k - 1].after) {
        if k < |a| {
          assert all[k] == a[k] && (k > 0 ==> all[k - 1] == a[k - 1]);
        } else if k == |a| {
          assert all[k] == b[0] && all[k - 1] == a[|a| - 1];
        } else {
          assert all[k] == b[k - |a|] && all[k - 1] == b[k - |a| - 1];
        }
      }
      assert all[0] == a[0] && all[|all| - 1] == b[|b| - 1];
    }
  }

  predicate ClaimsFor(e: Event, client: nat) {
    e.action.Claim? && e.action.client == client
  }

  function CountClaimsFor(events: seq<Event>, client: nat): (c: nat)
    ensures (forall k :: 0 <= k < |events| ==> !ClaimsFor(events[k], client)) ==> c == 0
  {
    if events == [] then 0
    else CountClaimsFor(events[..|events| - 1], client) + if ClaimsFor(events[|events| - 1], client) then 1 else 0
  }

  lemma {:induction false} CountClaimsForConcat(a: seq<Event>, b: seq<Event>, client: nat)
    ensures CountClaimsFor(a + b, client) == CountClaimsFor(a, client) + CountClaimsFor(b, client)
  {
    if b == [] {
      assert a + b == a;
    } else {
      CountClaimsForConcat(a, b[..|b| - 1], client);
      assert (a + b)[..|a + b| - 1] == a + b[..|b| - 1];
    }
  }

  /** Nobody else claims in this client's name. */
  predicate OthersOnly(actions: seq<Action>, client: nat) {
    forall k :: 0 <= k < |actions| && actions[k].Claim? ==> actions[k].client != client
  }

  /** One action on the bridge, and the event it makes. */
  method Perform(service: CompanionBridgeService, a: Action) returns (r: Option<ReleaseResult>, ghost e: Event)
    modifies service, service.session
    ensures (service.Now(), r) == Act(old(service.Now()), a, service.session.normalize)
    ensures e == Event(old(service.Now()), a, service.Now(), r)
  {
    ghost var first := service.Now();
    r := None;
    match a {
      case OnSession(step) =>
        service.session.Interfere([step]);
        assert ApplySteps(first.session, [step], service.session.normalize)
            == ApplyStep(first.session, step, service.session.normalize);
      case Metadata(origin, profileId, t) =>
        var listed := service.Metadata(origin, profileId, t);
        r := if listed.None? then Some(LockedOut) else None;
      case Request(id, origin, profileId, reason, t) =>
        var result := service.RequestRelease(id, origin, profileId, reason, t);
        r := Some(result);
      case Approve(id, t) =>
        var result := service.ApprovePendingRelease(id, t);
        r := Some(result);
      case Claim(_, id, origin, profileId, t) =>
        var result := service.ConsumeApprovedRelease(id, origin, profileId, t);
        r := Some(result);
      case Deny(id) =>
        var result := service.DenyPendingRelease(id);
        r := Some(result);
      case Clear => service.ClearPendingApproval();
    }
    e := Event(first, a, service.Now(), r);
  }

  method PerformAll(service: CompanionBridgeService, actions: seq<Action>) returns (ghost events: seq<Event>)
    modifies service, service.session
    ensures IsPiece(events, old(service.Now()), service.Now(), service.session.normalize)
    ensures |events| == |actions| && forall k :: 0 <= k < |events| ==> events[k].action == actions[k]
  {
    hide Act;
    events := [];
    for k := 0 to |actions|
      invariant IsPiece(events, old(service.Now()), service.Now(), service.session.normalize)
      invariant |events| == k && forall i :: 0 <= i < k ==> events[i].action == actions[i]
    {
      var _, e := Perform(service, actions[k]);
      events := events + [e];
    }
  }

  /** The last event is a claim of this client that released a credential. */
  predicate EndsInRelease(events: seq<Event>, client: nat) {
    events != [] && OwnRelease(events[|events| - 1], client)
  }

  predicate OwnRelease(e: Event, client: nat) {
    ReleasesByClaim(e) && ClaimsFor(e, client)
  }

  /**
   What a polling loop must satisfy: at most `budget` claims; a claim of its own that released is its last event and
   was made for this id, origin and profile; and the loop ends ready, with what that claim released, exactly when
   there was such a claim and its reply was `delivered`.
   */
  predicate LoopOutcome(
    events: seq<Event>, fill: FillData, delivered: bool, client: nat, id: string, origin: string, profileId: string,
    budget: nat)
  {
    && CountClaimsFor(events, client) <= budget
    && (forall k :: 0 <= k < |events| && OwnRelease(events[k], client) ==>
          && k == |events| - 1
          && events[k].action.id == id && events[k].action.origin == origin && events[k].action.profileId == profileId)
    && (fill.Ready? <==> EndsInRelease(events, client) && delivered)
    && (fill.Ready? ==> events[|events| - 1].result == Some(Released(fill.username, fill.password)))
  }

  /** A claim through the codec, which refuses empty fields before it reaches the bridge. */
  method ClaimOverHttp(
    service: CompanionBridgeService, client: nat, id: string, origin: string, profileId: string, turn: Turn)
    returns (reply: Reply, ghost events: seq<Event>)
    modifies service, service.session
    ensures IsPiece(events, old(service.Now()), service.Now(), service.session.normalize)
    ensures events == [] <==> turn.delivery.NotReached? || id == "" || origin == "" || profileId == ""
    ensures events != [] ==>
      && |events| == 1 && events[0].action == Claim(client, id, origin, profileId, turn.t)
      && events[0].result.Some? && reply == Received(ReplyOf(events[0].result.value), turn.delivery)
    ensures events == [] ==> reply == Received(ErrorReply("invalid_bridge_request"), turn.delivery)
  {
    hide Act;
    events := [];
    if turn.delivery.NotReached? {
      return UNAVAILABLE, [];
    }
    if id == "" || origin == "" || profileId == "" {
      return Received(ErrorReply("invalid_bridge_request"), turn.delivery), [];
    }
    var r, e := Perform(service, Claim(client, id, origin, profileId, turn.t));
    ClaimsAnswer(e, service.session.normalize);
    events := [e];
    reply := Received(ReplyOf(r.value), turn.delivery);
  }

  lemma {:induction false} ClaimsAnswer(e: Event, n: Normalizer)
    requires IsStep(e, n) && (e.action.Claim? || e.action.Request?)
    ensures e.result.Some? && (e.action.Request? ==> !e.result.value.Released?)
  {
  }

  // ---------------------------------------------------------------------------------------------
  // The poll, turn by turn.
  // ---------------------------------------------------------------------------------------------

  /** The call reaches the bridge: the server is there and no field is empty. */
  predicate Reaches(turn: Turn, id: string, origin: string, profileId: string) {
    !turn.delivery.NotReached? && id != "" && origin != "" && profileId != ""
  }

  /** The events of one turn, and the reply read: the others' actions, then the claim if it reaches the bridge. */
  predicate TurnPlayed(
    part: seq<Event>, reply: Reply, turn: Turn, client: nat, id: string, origin: string, profileId: string,
    n: Normalizer)
  {
    var m := |turn.others|;
    && m <= |part| && (forall k :: 0 <= k < m ==> part[k].action == turn.others[k])
    && (forall k :: 0 <= k < |part| ==> IsStep(part[k], n))
    && if Reaches(turn, id, origin, profileId) then
         && |part| == m + 1 && part[m].action == Claim(client, id, origin, profileId, turn.t)
         && part[m].result.Some? && reply == Received(ReplyOf(part[m].result.value), turn.delivery)
       else
         |part| == m && reply == Received(ErrorReply("invalid_bridge_request"), turn.delivery)
  }

  function Joined(parts: seq<seq<Event>>): seq<Event> {
    if parts == [] then [] else Joined(parts[..|parts| - 1]) + parts[|parts| - 1]
  }

  const NOT_FOUND: Reply := ErrorReply("credential_not_found")

  /**
   A poll that ended at turn `last`: every earlier reply was that there is nothing yet, and the last one decides. A
   credential is ready; a rejection is thrown; and approval is still needed exactly after another error, or when the
   attempts are used up.
   */
  predicate Polled(
    parts: seq<seq<Event>>, replies: seq<Reply>, fill: FillData, last: nat, client: nat, id: string, origin: string,
    profileId: string, turns: nat -> Turn, n: Normalizer)
  {
    && |parts| == |replies| == last + 1 <= CLAIM_ATTEMPTS
    && (forall k :: 0 <= k <= last ==>
          TurnPlayed(parts[k], replies[k], turns(k), client, id, origin, profileId, n))
    && (forall k :: 0 <= k < last ==> replies[k] == NOT_FOUND)
    && match replies[last]
       case CredentialReply(username, password) => fill == Ready(username, password)
       case Rejected => fill == Thrown
       case ErrorReply(_) => fill == StillNeedsApproval && (replies[last] != NOT_FOUND || last == CLAIM_ATTEMPTS - 1)
  }

  method ClaimApprovedRelease(
    service: CompanionBridgeService, client: nat, id: string, origin: string, profileId: string, turns: nat -> Turn)
    returns (fill: FillData, ghost last: nat, ghost parts: seq<seq<Event>>, ghost replies: seq<Reply>)
    requires forall k :: OthersOnly(turns(k).others, client)
    modifies service, service.session
    ensures Polled(parts, replies, fill, last, client, id, origin, profileId, turns, service.session.normalize)
    ensures IsPiece(Joined(parts), old(service.Now()), service.Now(), service.session.normalize)
    ensures LoopOutcome(
      Joined(parts), fill, turns(last).delivery.Answered?, client, id, origin, profileId, CLAIM_ATTEMPTS)
  {
    hide ReplyOf, OthersOnly, Act, IsStep, IsPiece, Received, CountClaimsFor, Joined, TurnPlayed;
    hide OwnRelease, ClaimsFor, EndsInRelease, LoopOutcome;
    ghost var n := service.session.normalize;
    ghost var start := service.Now();
    parts, replies, last := [], [], 0;
    NothingJoined(start, n, client);
    for attempt := 0 to CLAIM_ATTEMPTS
      invariant |parts| == |replies| == attempt
      invariant attempt > 0 ==> last == attempt - 1
      invariant forall k :: 0 <= k < attempt ==>
        TurnPlayed(parts[k], replies[k], turns(k), client, id, origin, profileId, n) && replies[k] == NOT_FOUND
      invariant attempt > 0 ==> LoopOutcome(
        Joined(parts), StillNeedsApproval, turns(last).delivery.Answered?, client, id, origin, profileId,
        CLAIM_ATTEMPTS)
      invariant IsPiece(Joined(parts), start, service.Now(), n)
      invariant CountClaimsFor(Joined(parts), client) <= attempt
      invariant forall k :: 0 <= k < |Joined(parts)| ==> !OwnRelease(Joined(parts)[k], client)
    {
      last := attempt;
      ghost var w0 := service.Now();
      ghost var others := PerformAll(service, turns(attempt).others);
      ghost var w1 := service.Now();
      OthersDoNotClaim(others, turns(attempt).others, client);
      ghost var claimed;
      var claim;
      claim, claimed := ClaimOverHttp(service, client, id, origin, profileId, turns(attempt));
      TurnJoins(
        parts, others, claimed, claim, turns(attempt), client, id, origin, profileId, start, w0, w1, service.Now(), n);
      ghost var used := CountClaimsFor(Joined(parts), client);
      parts, replies := parts + [others + claimed], replies + [claim];
      WithinBudget(
        Joined(parts), Told(claim), turns(last).delivery.Answered?, client, id, origin, profileId, used + 1,
        CLAIM_ATTEMPTS);
      if claim.Rejected? {
        return Thrown, last, parts, replies;
      }
      if claim.CredentialReply? {
        return Ready(claim.username, claim.password), last, parts, replies;
      }
      if claim.code != "credential_not_found" {
        break;
      }
    }
    fill := StillNeedsApproval;
  }

  /** What a poll that ends with this reply answers. */
  function Told(reply: Reply): FillData {
    match reply
    case CredentialReply(username, password) => Ready(username, password)
    case Rejected => Thrown
    case ErrorReply(_) => StillNeedsApproval
  }

  /** One turn added to the turns before it, which released nothing to this client. */
  lemma {:induction false} TurnJoins(
    parts: seq<seq<Event>>, others: seq<Event>, claimed: seq<Event>, reply: Reply, turn: Turn, client: nat, id: string,
    origin: string, profileId: string, start: World, w0: World, w1: World, w2: World, n: Normalizer)
    requires IsPiece(Joined(parts), start, w0, n) && IsPiece(others, w0, w1, n) && IsPiece(claimed, w1, w2, n)
    requires |others| == |turn.others| && forall k :: 0 <= k < |others| ==> others[k].action == turn.others[k]
    requires forall k :: 0 <= k < |Joined(parts)| ==> !OwnRelease(Joined(parts)[k], client)
    requires forall k :: 0 <= k < |others| ==> !ClaimsFor(others[k], client)
    requires claimed == [] <==> !Reaches(turn, id, origin, profileId)
    requires claimed != [] ==>
      && |claimed| == 1 && claimed[0].action == Claim(client, id, origin, profileId, turn.t)
      && claimed[0].result.Some? && reply == Received(ReplyOf(claimed[0].result.value), turn.delivery)
    requires claimed == [] ==> reply == Received(ErrorReply("invalid_bridge_request"), turn.delivery)
    ensures var all := Joined(parts + [others + claimed]);
      && TurnPlayed(others + claimed, reply, turn, client, id, origin, profileId, n)
      && IsPiece(all, start, w2, n)
      && CountClaimsFor(all, client) <= CountClaimsFor(Joined(parts), client) + 1
      && (reply == NOT_FOUND ==>
            turn.delivery.Answered? && forall k :: 0 <= k < |all| ==> !OwnRelease(all[k], client))
      && LoopOutcome(
           all, Told(reply), turn.delivery.Answered?, client, id, origin, profileId,
           CountClaimsFor(Joined(parts), client) + 1)
  {
    hide ReplyOf, IsStep, IsPiece, Received, CountClaimsFor, Joined, TurnPlayed, OwnRelease, ClaimsFor;
    PlayedTurn(others, claimed, reply, turn, client, id, origin, profileId, w0, w1, w2, n);
    PiecesJoin(others, claimed, w0, w1, w2, n);
    PiecesJoin(Joined(parts), others + claimed, start, w0, w2, n);
    OneMoreClaim(Joined(parts), others, claimed, client, turn, reply, id, origin, profileId);
    JoinedMore(parts, others + claimed);
  }

  lemma {:induction false} WithinBudget(
    events: seq<Event>, fill: FillData, delivered: bool, client: nat, id: string, origin: string, profileId: string,
    used: nat, budget: nat)
    requires LoopOutcome(events, fill, delivered, client, id, origin, profileId, used) && used <= budget
    ensures LoopOutcome(events, fill, delivered, client, id, origin, profileId, budget)
  {
    hide OwnRelease, EndsInRelease, CountClaimsFor;
  }

  lemma {:induction false} NothingJoined(w: World, n: Normalizer, client: nat)
    ensures Joined([]) == [] && IsPiece([], w, w, n) && CountClaimsFor([], client) == 0
  {
  }

  lemma {:induction false} JoinedMore(parts: seq<seq<Event>>, part: seq<Event>)
    ensures Joined(parts + [part]) == Joined(parts) + part
  {
    assert (parts + [part])[..|parts|] == parts;
  }

  lemma {:induction false} PlayedTurn(
    others: seq<Event>, claimed: seq<Event>, reply: Reply, turn: Turn, client: nat, id: string, origin: string,
    profileId: string, w0: World, w1: World, w2: World, n: Normalizer)
    requires IsPiece(others, w0, w1, n) && IsPiece(claimed, w1, w2, n)
    requires |others| == |turn.others| && forall k :: 0 <= k < |others| ==> others[k].action == turn.others[k]
    requires claimed == [] <==> !Reaches(turn, id, origin, profileId)
    requires claimed != [] ==>
      && |claimed| == 1 && claimed[0].action == Claim(client, id, origin, profileId, turn.t)
      && claimed[0].result.Some? && reply == Received(ReplyOf(claimed[0].result.value), turn.delivery)
    requires claimed == [] ==> reply == Received(ErrorReply("invalid_bridge_request"), turn.delivery)
    ensures TurnPlayed(others + claimed, reply, turn, client, id, origin, profileId, n)
  {
    hide IsStep, Received, ReplyOf;
  }

  /** The reply that keeps a poll going is the bridge's own: it was reached, found nothing to claim, and was read. */
  lemma {:induction false} NothingYetExactly(
    part: seq<Event>, reply: Reply, turn: Turn, client: nat, id: string, origin: string, profileId: string,
    n: Normalizer)
    requires TurnPlayed(part, reply, turn, client, id, origin, profileId, n)
    ensures reply == NOT_FOUND <==>
      && Reaches(turn, id, origin, profileId) && turn.delivery.Answered?
      && part[|turn.others|].result == Some(ReleaseResult.NotFound)
    ensures reply.Rejected? <==> turn.delivery.BodyLost?
    ensures reply == UNAVAILABLE <==> turn.delivery.NotReached? || turn.delivery.ReplyLost?
  {
  }

  /** One turn of the loop: what others did, then at most one claim and its reply. */
  lemma {:induction false} OneMoreClaim(
    before: seq<Event>, others: seq<Event>, claimed: seq<Event>, client: nat, turn: Turn, reply: Reply,
    id: string, origin: string, profileId: string)
    requires forall k :: 0 <= k < |before| ==> !OwnRelease(before[k], client)
    requires forall k :: 0 <= k < |others| ==> !ClaimsFor(others[k], client)
    requires claimed != [] ==>
      && |claimed| == 1 && claimed[0].action == Claim(client, id, origin, profileId, turn.t)
      && claimed[0].result.Some? && reply == Received(ReplyOf(claimed[0].result.value), turn.delivery)
      && !turn.delivery.NotReached?
    requires claimed == [] ==> reply == Received(ErrorReply("invalid_bridge_request"), turn.delivery)
    ensures var all := before + (others + claimed);
      && CountClaimsFor(all, client) <= CountClaimsFor(before, client) + 1
      && (forall k :: 0 <= k < |all| && OwnRelease(all[k], client) ==>
            && k == |all| - 1
            && all[k].action.id == id && all[k].action.origin == origin && all[k].action.profileId == profileId)
      && (reply.CredentialReply? <==> EndsInRelease(all, client) && turn.delivery.Answered?)
      && (reply.CredentialReply? ==> all[|all| - 1].result == Some(Released(reply.username, reply.password)))
      && (reply.Rejected? <==> turn.delivery.BodyLost?)
      && (reply == ErrorReply("credential_not_found") ==> turn.delivery.Answered? && !EndsInRelease(all, client))
  {
    hide CountClaimsFor, ReplyOf;
    CountClaimsForConcat(others, claimed, client);
    CountClaimsForConcat(before, others + claimed, client);
    AtMostOne(claimed, client);
    NoneCounted(others, client);
    var all := before + (others + claimed);
    if claimed != [] {
      AnswerTells(claimed[0].result.value);
      assert all[|all| - 1] == claimed[0];
    }
    forall k | 0 <= k < |all| - |claimed| ensures !OwnRelease(all[k], client) {
      assert all[k] == if k < |before| then before[k] else others[k - |before|];
    }
  }

  /** What the written answer tells of the result. */
  lemma {:induction false} AnswerTells(r: ReleaseResult)
    ensures !ReplyOf(r).Rejected?
    ensures ReplyOf(r).CredentialReply? <==> r.Released?
    ensures r.Released? ==> ReplyOf(r) == CredentialReply(r.username, r.password)
  {
  }

  lemma {:induction false} NoneCounted(events: seq<Event>, client: nat)
    requires forall k :: 0 <= k < |events| ==> !ClaimsFor(events[k], client)
    ensures CountClaimsFor(events, client) == 0
  {
  }

  lemma {:induction false} EmptyPiece(w: World, n: Normalizer)
    ensures IsPiece([], w, w, n)
  {
  }

  lemma {:induction false} AtMostOne(events: seq<Event>, client: nat)
    requires |events| <= 1
    ensures CountClaimsFor(events, client) <= 1
  {
    if |events| == 1 { assert events[..0] == []; }
  }

  lemma {:induction false} OthersDoNotClaim(events: seq<Event>, actions: seq<Action>, client: nat)
    requires OthersOnly(actions, client) && |events| == |actions|
    requires forall k :: 0 <= k < |events| ==> events[k].action == actions[k]
    ensures forall k :: 0 <= k < |events| ==> !ClaimsFor(events[k], client)
  {
  }

  /** The event asks for the approval of this credential, and is answered by asking the user. */
  predicate AsksFor(e: Event, id: string, origin: string, profileId: string) {
    && AsksApproval(e)
    && e.action.id == id && e.action.origin == origin && e.action.profileId == profileId
  }

  /** As `TurnPlayed`, for the request. */
  predicate RequestPlayed(
    part: seq<Event>, reply: Reply, turn: Turn, id: string, origin: string, profileId: string, n: Normalizer)
  {
    var m := |turn.others|;
    && m <= |part| && (forall k :: 0 <= k < m ==> part[k].action == turn.others[k])
    && (forall k :: 0 <= k < |part| ==> IsStep(part[k], n))
    && if Reaches(turn, id, origin, profileId) then
         && |part| == m + 1 && part[m].action == Request(id, origin, profileId, "fill-active-page", turn.t)
         && part[m].result.Some? && reply == Received(ReplyOf(part[m].result.value), turn.delivery)
       else
         |part| == m && reply == Received(ErrorReply("invalid_bridge_request"), turn.delivery)
  }

  /** A request through the codec, after what others did; it never hands out a credential. */
  method RequestOverHttp(
    service: CompanionBridgeService, client: nat, id: string, origin: string, profileId: string, turn: Turn)
    returns (reply: Reply, ghost events: seq<Event>)
    requires OthersOnly(turn.others, client)
    modifies service, service.session
    ensures IsPiece(events, old(service.Now()), service.Now(), service.session.normalize)
    ensures RequestPlayed(events, reply, turn, id, origin, profileId, service.session.normalize)
    ensures forall k :: 0 <= k < |events| ==> !ClaimsFor(events[k], client)
    ensures !reply.CredentialReply? && (reply.Rejected? <==> turn.delivery.BodyLost?)
    ensures reply == ErrorReply("approval_required") ==>
      events != [] && AsksFor(events[|events| - 1], id, origin, profileId)
  {
    hide Act, ReplyOf;
    ghost var start := service.Now();
    events := PerformAll(service, turn.others);
    OthersDoNotClaim(events, turn.others, client);
    if turn.delivery.NotReached? {
      return UNAVAILABLE, events;
    }
    if id == "" || origin == "" || profileId == "" {
      return Received(ErrorReply("invalid_bridge_request"), turn.delivery), events;
    }
    ghost var w := service.Now();
    var r, e := Perform(service, Request(id, origin, profileId, "fill-active-page", turn.t));
    ClaimsAnswer(e, service.session.normalize);
    OnePiece(e, service.session.normalize);
    PiecesJoin(events, [e], start, w, service.Now(), service.session.normalize);
    events := events + [e];
    AnswerTells(r.value);
    OnlyAskingIsAnsweredSo(r.value);
    reply := Received(ReplyOf(r.value), turn.delivery);
  }

  lemma {:induction false} OnlyAskingIsAnsweredSo(r: ReleaseResult)
    ensures ReplyOf(r) == ErrorReply("approval_required") <==> r.ApprovalRequired?
  {
  }

  lemma {:induction false} OnePiece(e: Event, n: Normalizer)
    requires IsStep(e, n)
    ensures IsPiece([e], e.before, e.after, n)
  {
    hide IsStep;
  }

  lemma {:induction false} MetadataIsStep(e: Event, n: Normalizer)
    requires e.action.Metadata?
    requires var (w, listed) := MetadataOf(e.before, e.action.origin, e.action.profileId, e.action.t, n);
      e.after == w && e.result == if listed.None? then Some(LockedOut) else None
    ensures IsPiece([e], e.before, e.after, n)
  {
    assert IsStep(e, n);
  }

  /** What the client makes of the listing; it catches every failure, an unread body included. */
  datatype MetadataReply = MetadataUnavailable | MetadataLocked | MetadataReady(credentials: seq<Credential>)

  /**
   As `TurnPlayed`, for the listing. The vault is locked when the bridge says so, read or not; what it lists must be
   read; and everything else counts as unavailable.
   */
  predicate ListingPlayed(
    part: seq<Event>, reply: MetadataReply, turn: Turn, origin: string, profileId: string, n: Normalizer)
  {
    var m := |turn.others|;
    && m <= |part| && (forall k :: 0 <= k < m ==> part[k].action == turn.others[k])
    && (forall k :: 0 <= k < |part| ==> IsStep(part[k], n))
    && if turn.delivery.NotReached? || origin == "" || profileId == "" then
         |part| == m && reply == MetadataUnavailable
       else
         && |part| == m + 1 && part[m].action == Action.Metadata(origin, profileId, turn.t)
         && var listed := MetadataOf(part[m].before, origin, profileId, turn.t, n).1;
           && (reply.MetadataLocked? <==> listed.None? && !turn.delivery.ReplyLost?)
           && (reply.MetadataReady? <==> listed.Some? && turn.delivery.Answered?)
           && (reply.MetadataReady? ==> reply.credentials == listed.value)
  }

  /** A listing through the codec, after what others did. */
  method MetadataOverHttp(
    service: CompanionBridgeService, client: nat, origin: string, profileId: string, turn: Turn)
    returns (reply: MetadataReply, ghost events: seq<Event>)
    requires OthersOnly(turn.others, client)
    modifies service, service.session
    ensures IsPiece(events, old(service.Now()), service.Now(), service.session.normalize)
    ensures ListingPlayed(events, reply, turn, origin, profileId, service.session.normalize)
    ensures forall k :: 0 <= k < |events| ==> !ClaimsFor(events[k], client)
  {
    hide Act, IsStep, MetadataOf;
    ghost var n := service.session.normalize;
    ghost var start := service.Now();
    events := PerformAll(service, turn.others);
    OthersDoNotClaim(events, turn.others, client);
    if turn.delivery.NotReached? || origin == "" || profileId == "" {
      return MetadataUnavailable, events;
    }
    ghost var w := service.Now();
    var metadata := service.Metadata(origin, profileId, turn.t);
    ghost var listed := Event(
      w, Action.Metadata(origin, profileId, turn.t), service.Now(), if metadata.None? then Some(LockedOut) else None);
    MetadataIsStep(listed, n);
    PiecesJoin(events, [listed], start, w, service.Now(), n);
    events := events + [listed];
    reply := match turn.delivery
      case Answered => (if metadata.None? then MetadataLocked else MetadataReady(metadata.value))
      case BodyLost => (if metadata.None? then MetadataLocked else MetadataUnavailable)
      case _ => MetadataUnavailable;
  }

  /** A fill step by step: the listing and its reply, the request and its reply if it was made, and the poll. */
  datatype Trace = Trace(
    listed: seq<Event>, listing: MetadataReply, requested: seq<Event>, answer: Option<Reply>,
    polls: seq<seq<Event>>, replies: seq<Reply>, last: nat)

  function EventsOf(trace: Trace): seq<Event> {
    trace.listed + trace.requested + Joined(trace.polls)
  }

  /** The fill ends with the listing: nothing is asked for, and nothing is claimed. */
  predicate OnlyLists(trace: Trace) {
    trace.requested == [] && trace.answer == None && trace.polls == []
  }

  /** Which answer the page gets, from the listing, and for a sole match from the replies that follow. */
  predicate FillFollows(
    trace: Trace, fill: FillData, id: string, client: nat, origin: string, profileId: string,
    metadataTurn: Turn, requestTurn: Turn, turns: nat -> Turn, n: Normalizer)
  {
    && ListingPlayed(trace.listed, trace.listing, metadataTurn, origin, profileId, n)
    && match trace.listing
       case MetadataUnavailable => fill == CompanionUnavailable && OnlyLists(trace)
       case MetadataLocked => fill == VaultLocked && OnlyLists(trace)
       case MetadataReady(matches) =>
         if |matches| == 0 then fill == NoMatch && OnlyLists(trace)
         else if |matches| > 1 then fill == MultipleMatches(|matches|) && OnlyLists(trace)
         else
           && id == matches[0].id && trace.answer.Some?
           && RequestPlayed(trace.requested, trace.answer.value, requestTurn, id, origin, profileId, n)
           && if trace.answer.value == ErrorReply("approval_required") then
                Polled(trace.polls, trace.replies, fill, trace.last, client, id, origin, profileId, turns, n)
              else
                && trace.polls == []
                && match trace.answer.value
                   case Rejected => fill == Thrown
                   case CredentialReply(_, _) => false
                   case ErrorReply(code) =>
                     && (fill == CompanionUnavailable <==> code == "mac_companion_unavailable")
                     && (fill == NoMatch <==> code == "credential_not_found")
                     && fill in {CompanionUnavailable, NoMatch, StillNeedsApproval}
  }

  /**
   The whole fill: list, ask for the only match, poll. `asked` is the place of its own request among the events, and
   `delivered` says whether the reply to its last claim was read.
   */
  method BuildFillData(
    service: CompanionBridgeService, client: nat, origin: string, profileId: string,
    metadataTurn: Turn, requestTurn: Turn, turns: nat -> Turn)
    returns (
      fill: FillData, id: string, ghost asked: nat, ghost delivered: bool, ghost events: seq<Event>,
      ghost trace: Trace)
    requires OthersOnly(metadataTurn.others, client) && OthersOnly(requestTurn.others, client)
    requires forall k :: OthersOnly(turns(k).others, client)
    modifies service, service.session
    ensures FillFollows(
      trace, fill, id, client, origin, profileId, metadataTurn, requestTurn, turns, service.session.normalize)
    ensures events == EventsOf(trace)
    ensures IsPiece(events, old(service.Now()), service.Now(), service.session.normalize)
    ensures LoopOutcome(events, fill, delivered, client, id, origin, profileId, CLAIM_ATTEMPTS)
    ensures EndsInRelease(events, client) ==> asked < |events| - 1 && AsksFor(events[asked], id, origin, profileId)
  {
    hide ReplyOf, Act, IsStep, IsPiece, CountClaimsFor, Received, LoopOutcome, EndsInRelease, AsksApproval, ClaimsFor;
    hide OthersOnly, ListingPlayed, RequestPlayed, Polled;
    ghost var n := service.session.normalize;
    ghost var start := service.Now();
    id, asked, delivered := "", 0, true;
    var metadata;
    metadata, events := MetadataOverHttp(service, client, origin, profileId, metadataTurn);
    trace := Trace(events, metadata, [], None, [], [], 0);
    NothingPolled(trace);
    match metadata {
      case MetadataUnavailable =>
        NoClaimNoRelease(events, CompanionUnavailable, client, id, origin, profileId, CLAIM_ATTEMPTS);
        return CompanionUnavailable, id, asked, delivered, events, trace;
      case MetadataLocked =>
        NoClaimNoRelease(events, VaultLocked, client, id, origin, profileId, CLAIM_ATTEMPTS);
        return VaultLocked, id, asked, delivered, events, trace;
      case MetadataReady(_) =>
    }
    var matches := metadata.credentials;
    if |matches| == 0 {
      NoClaimNoRelease(events, NoMatch, client, id, origin, profileId, CLAIM_ATTEMPTS);
      return NoMatch, id, asked, delivered, events, trace;
    }
    if |matches| > 1 {
      NoClaimNoRelease(events, MultipleMatches(|matches|), client, id, origin, profileId, CLAIM_ATTEMPTS);
      return MultipleMatches(|matches|), id, asked, delivered, events, trace;
    }
    ghost var w := service.Now();
    id := matches[0].id;
    ghost var requested;
    var release;
    release, requested := RequestOverHttp(service, client, id, origin, profileId, requestTurn);
    PiecesJoin(events, requested, start, w, service.Now(), n);
    trace := trace.(requested := requested, answer := Some(release));
    NothingPolled(trace);
    events := events + requested;
    w := service.Now();
    if release.Rejected? {
      NoClaimNoRelease(events, Thrown, client, id, origin, profileId, CLAIM_ATTEMPTS);
      return Thrown, id, asked, delivered, events, trace;
    }
    if release.code == "mac_companion_unavailable" {
      NoClaimNoRelease(events, CompanionUnavailable, client, id, origin, profileId, CLAIM_ATTEMPTS);
      return CompanionUnavailable, id, asked, delivered, events, trace;
    }
    if release.code == "credential_not_found" {
      NoClaimNoRelease(events, NoMatch, client, id, origin, profileId, CLAIM_ATTEMPTS);
      return NoMatch, id, asked, delivered, events, trace;
    }
    if release.code != "approval_required" {
      NoClaimNoRelease(events, StillNeedsApproval, client, id, origin, profileId, CLAIM_ATTEMPTS);
      return StillNeedsApproval, id, asked, delivered, events, trace;
    }
    asked := |events| - 1;
    ghost var last, polls, replies;
    fill, last, polls, replies := ClaimApprovedRelease(service, client, id, origin, profileId, turns);
    delivered := turns(last).delivery.Answered?;
    PiecesJoin(events, Joined(polls), start, w, service.Now(), n);
    OutcomeJoins(events, Joined(polls), fill, delivered, client, id, origin, profileId, CLAIM_ATTEMPTS);
    trace := trace.(polls := polls, replies := replies, last := last);
    events := events + Joined(polls);
  }

  lemma {:induction false} NothingPolled(trace: Trace)
    requires trace.polls == []
    ensures EventsOf(trace) == trace.listed + trace.requested
  {
  }

  /** A fill that gives up before it claims has no release of its own. */
  lemma {:induction false} NoClaimNoRelease(
    events: seq<Event>, fill: FillData, client: nat, id: string, origin: string, profileId: string, budget: nat)
    requires forall k :: 0 <= k < |events| ==> !ClaimsFor(events[k], client)
    requires !fill.Ready?
    ensures LoopOutcome(events, fill, true, client, id, origin, profileId, budget) && !EndsInRelease(events, client)
  {
    NoneCounted(events, client);
  }

  lemma {:induction false} OutcomeJoins(
    before: seq<Event>, events: seq<Event>, fill: FillData, delivered: bool, client: nat, id: string, origin: string,
    profileId: string, budget: nat)
    requires forall k :: 0 <= k < |before| ==> !ClaimsFor(before[k], client)
    requires LoopOutcome(events, fill, delivered, client, id, origin, profileId, budget)
    ensures LoopOutcome(before + events, fill, delivered, client, id, origin, profileId, budget)
    ensures EndsInRelease(before + events, client) ==> events != []
  {
    hide ClaimsFor, ReleasesByClaim, CountClaimsFor;
    CountClaimsForConcat(before, events, client);
    NoneCounted(before, client);
    var all := before + events;
    assert forall k :: 0 <= k < |before| ==> all[k] == before[k];
    assert forall k :: |before| <= k < |all| ==> all[k] == events[k - |before|];
    if all != [] {
      assert events != [] ==> all[|all| - 1] == events[|events| - 1];
      assert events == [] ==> all[|all| - 1] == before[|before| - 1];
    }
  }

  // ---------------------------------------------------------------------------------------------
  // The extension and the bridge together.
  // ---------------------------------------------------------------------------------------------

  /**
   What a loop returns as ready was approved by the user for this page's origin and profile, in whatever run of the
   bridge the loop took part.
   */
  lemma {:induction false} ReadyWasApproved(
    before: seq<Event>, events: seq<Event>, fill: FillData, delivered: bool, client: nat, id: string, origin: string,
    profileId: string, budget: nat, n: Normalizer)
    returns (c: Credential, j: nat, i: nat)
    requires IsRun(before + events, n)
    requires LoopOutcome(events, fill, delivered, client, id, origin, profileId, budget) && fill.Ready?
    ensures var run := before + events;
      && ApprovedAt(run, j, i, |run| - 1, c)
      && fill == Ready(c.username, c.password)
      && n(origin) == Some(c.websiteOrigin) && c.id == id && c.profileId == profileId
  {
    var run := before + events;
    assert run[|run| - 1] == events[|events| - 1];
    c, j, i := ClaimsAreAuthorized(run, |run| - 1, n);
  }

  /** And the approval behind it came after the loop's own request: no earlier approval is ever used. */
  lemma {:induction false} ReadyWasApprovedAfterAsking(
    before: seq<Event>, events: seq<Event>, asked: nat, fill: FillData, delivered: bool, client: nat, id: string,
    origin: string, profileId: string, budget: nat, n: Normalizer)
    returns (c: Credential, j: nat, i: nat)
    requires IsRun(before + events, n)
    requires LoopOutcome(events, fill, delivered, client, id, origin, profileId, budget) && fill.Ready?
    requires asked < |events| - 1 && AsksFor(events[asked], id, origin, profileId)
    ensures var run := before + events;
      ApprovedAt(run, j, i, |run| - 1, c) && |before| + asked <= j < i && fill == Ready(c.username, c.password)
  {
    c, j, i := ReadyWasApproved(before, events, fill, delivered, client, id, origin, profileId, budget, n);
    assert (before + events)[|before| + asked] == events[asked];
  }

  /**
   A loop that does not end ready had at most one claim of its own that released, the last event of all; and there
   was one exactly when the bridge released and the reply was lost, so the approval is spent and nothing shows it.
   */
  lemma {:induction false} UnreadyLoopReleasedOnlyIntoALostReply(
    events: seq<Event>, fill: FillData, delivered: bool, client: nat, id: string, origin: string, profileId: string,
    budget: nat)
    requires LoopOutcome(events, fill, delivered, client, id, origin, profileId, budget) && !fill.Ready?
    ensures (exists k :: 0 <= k < |events| && OwnRelease(events[k], client)) <==>
      EndsInRelease(events, client) && !delivered
  {
    if EndsInRelease(events, client) {
      assert OwnRelease(events[|events| - 1], client);
    }
  }

  /** A loop as one piece of a run: the events from `first` up to `end`, others' among them. */
  datatype Loop = Loop(
    first: nat, end: nat, fill: FillData, delivered: bool, id: string, origin: string, profileId: string)

  /** Client `client` ran this loop within the run, and it ended ready. */
  predicate EndedReady(run: seq<Event>, client: nat, l: Loop) {
    && l.first <= l.end <= |run| && l.fill.Ready?
    && LoopOutcome(run[l.first..l.end], l.fill, l.delivered, client, l.id, l.origin, l.profileId, CLAIM_ATTEMPTS)
  }

  /** The clients that were handed a credential in the first `k` events. */
  function Served(run: seq<Event>, k: nat): (clients: set<nat>)
    requires k <= |run|
    ensures |clients| <= CountClaims(run, k)
    ensures forall i :: 0 <= i < k && ReleasesByClaim(run[i]) ==> run[i].action.client in clients
  {
    if k == 0 then {}
    else Served(run, k - 1) + if ReleasesByClaim(run[k - 1]) then {run[k - 1].action.client} else {}
  }

  /** However many loops run at once, one for each client, no more of them end ready than approvals were given. */
  lemma {:induction false} ReadyLoopsNeverExceedApprovals(run: seq<Event>, loops: map<nat, Loop>, n: Normalizer)
    requires IsRun(run, n)
    requires forall client :: client in loops ==> EndedReady(run, client, loops[client])
    ensures |loops| <= CountApprovals(run, |run|)
  {
    hide IsRun, LoopOutcome;
    forall client | client in loops ensures client in Served(run, |run|) {
      LastEventServes(run, client, loops[client]);
    }
    SubsetIsNoLarger(loops.Keys, Served(run, |run|));
    ClaimsNeverExceedApprovals(run, |run|, n);
  }

  lemma {:induction false} LastEventServes(run: seq<Event>, client: nat, l: Loop)
    requires EndedReady(run, client, l)
    ensures l.end > l.first && OwnRelease(run[l.end - 1], client)
  {
    assert run[l.first..l.end][l.end - l.first - 1] == run[l.end - 1];
  }

  lemma {:induction false} SubsetIsNoLarger(a: set<nat>, b: set<nat>)
    requires a <= b
    ensures |a| <= |b|
  {
    assert b == a + (b - a);
  }

  lemma {:induction false} LastEventReleases(run: seq<Event>, client: nat, l: Loop)
    requires EndedReady(run, client, l)
    ensures 0 < l.end <= |run| && ReleasesByClaim(run[l.end - 1]) && run[l.end - 1].action.client == client
    ensures l.fill.Ready? && run[l.end - 1].result == Some(Released(l.fill.username, l.fill.password))
  {
    LastEventServes(run, client, l);
    assert run[l.first..l.end][l.end - l.first - 1] == run[l.end - 1];
  }

  /** Two loops of different clients that end ready rest on two different approvals. */
  lemma {:induction false} ReadyLoopsRestOnDistinctApprovals(
    run: seq<Event>, client1: nat, l1: Loop, client2: nat, l2: Loop, n: Normalizer)
    returns (c1: Credential, j1: nat, i1: nat, c2: Credential, j2: nat, i2: nat)
    requires IsRun(run, n) && client1 != client2
    requires EndedReady(run, client1, l1) && EndedReady(run, client2, l2)
    ensures l1.end > 0 && ApprovedAt(run, j1, i1, l1.end - 1, c1) && l1.fill == Ready(c1.username, c1.password)
    ensures l2.end > 0 && ApprovedAt(run, j2, i2, l2.end - 1, c2) && l2.fill == Ready(c2.username, c2.password)
    ensures i1 != i2
  {
    hide IsRun, EndedReady, ApprovedAt, StillHolds;
    LastEventReleases(run, client1, l1);
    LastEventReleases(run, client2, l2);
    c1, j1, i1 := ClaimsAreAuthorized(run, l1.end - 1, n);
    c2, j2, i2 := ClaimsAreAuthorized(run, l2.end - 1, n);
    if l1.end < l2.end {
      OneClaimPerApproval(run, j1, i1, l1.end - 1, c1, j2, i2, l2.end - 1, c2);
    } else {
      OneClaimPerApproval(run, j2, i2, l2.end - 1, c2, j1, i1, l1.end - 1, c1);
    }
  }
}
