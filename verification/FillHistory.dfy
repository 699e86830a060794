/**
 What a page is answered, said of the vault it asks and of the replies on the way: which listing leads to which answer,
 when a poll goes on, and that a standing approval is picked up by the first claim whose reply is read.
 */
module FillHistory {
  import opened Basics
  import opened VaultSession
  import opened Bridge
  import opened ClaimLoop
  import opened SessionHistory

  /** A poll goes on to turn `k` as long as every reply before it says that there is nothing yet. */
  lemma {:induction false} PollGoesOn(
    parts: seq<seq<Event>>, replies: seq<Reply>, fill: FillData, last: nat, client: nat, id: string, origin: string,
    profileId: string, turns: nat -> Turn, n: Normalizer, k: nat)
    requires Polled(parts, replies, fill, last, client, id, origin, profileId, turns, n) && k < 80
    ensures k <= last <==> forall m :: 0 <= m < k && m <= last ==> replies[m] == NOT_FOUND
  {
    hide TurnPlayed;
    if k > last { assert replies[last] == NOT_FOUND ==> last == CLAIM_ATTEMPTS - 1; }
  }

  /** An approval of `c` stands when turn `turn` claims it, and the page's origin and profile still find it. */
  predicate ApprovalStands(
    part: seq<Event>, turn: Turn, c: Credential, origin: string, profileId: string, n: Normalizer)
    requires |turn.others| < |part|
  {
    var w, t := part[|turn.others|].before, turn.t;
    && w.material.approvedCredential == Some(c) && w.session.IsUnlocked(t.first)
    && Meanwhile(w, t, n).Lookup(c.id, origin, profileId, t.second, n) == Some(c)
  }

  /**
   Whichever attempt it is for, an approval that stands at turn `k` ends the poll ready there, with the credential
   approved, if the earlier replies said that there was nothing yet and this one is read.
   */
  lemma {:induction false} StandingApprovalEndsReady(
    parts: seq<seq<Event>>, replies: seq<Reply>, fill: FillData, last: nat, client: nat, id: string, origin: string,
    profileId: string, turns: nat -> Turn, n: Normalizer, k: nat, c: Credential)
    requires Polled(parts, replies, fill, last, client, id, origin, profileId, turns, n) && k < 80
    requires forall m :: 0 <= m < k && m <= last ==> replies[m] == NOT_FOUND
    requires Reaches(turns(k), id, origin, profileId) && turns(k).delivery.Answered? && c.id == id
    requires k <= last && |turns(k).others| < |parts[k]| ==>
      ApprovalStands(parts[k], turns(k), c, origin, profileId, n)
    ensures k == last && fill == Ready(c.username, c.password)
  {
    PollGoesOn(parts, replies, fill, last, client, id, origin, profileId, turns, n, k);
    assert TurnPlayed(parts[k], replies[k], turns(k), client, id, origin, profileId, n);
    var e := parts[k][|turns(k).others|];
    assert IsStep(e, n) && e.result == Some(Released(c.username, c.password));
    assert replies[k] == CredentialReply(c.username, c.password);
  }

  /** The positions of the credentials that the listing sees: those held for the page, while the vault is unlocked. */
  function Seen(w: World, origin: string, profileId: string, t: Timing, n: Normalizer): seq<nat> {
    if w.session.IsUnlocked(t.first) && n(origin).Some?
    then ListedFrom(w.session.credentials, 0, n(origin).value, profileId) else []
  }

  /**
   A fill whose listing is read. Of several matches the page is told how many; a sole match is asked for, by its own
   id; and without any, the vault is locked or there is no match, as the second reading of the session says.
   */
  lemma {:induction false} FillAnswersFollowTheVault(
    trace: Trace, fill: FillData, id: string, client: nat, origin: string, profileId: string,
    metadataTurn: Turn, requestTurn: Turn, turns: nat -> Turn, n: Normalizer)
    requires FillFollows(trace, fill, id, client, origin, profileId, metadataTurn, requestTurn, turns, n)
    requires metadataTurn.delivery.Answered? && origin != "" && profileId != ""
    ensures |trace.listed| == |metadataTurn.others| + 1
    ensures var w, t := trace.listed[|metadataTurn.others|].before, metadataTurn.t;
      var seen := Seen(w, origin, profileId, t, n);
      && (|seen| > 1 ==> fill == MultipleMatches(|seen|))
      && (|seen| == 1 ==> id == w.session.credentials[seen[0]].id)
      && (|seen| == 0 ==> fill == if Meanwhile(w, t, n).IsUnlocked(t.second) then NoMatch else VaultLocked)
      && (trace.answer.Some? <==> |seen| == 1)
      && (|seen| != 1 ==> trace.requested == [] && trace.polls == [])
  {
    hide RequestPlayed, Polled, IsStep;
    var w := trace.listed[|metadataTurn.others|].before;
    if n(origin).Some? {
      ListingGivesAllMatches(w.session.credentials, 0, n(origin).value, profileId);
      assert w.session.credentials[0..] == w.session.credentials;
    }
  }
}
