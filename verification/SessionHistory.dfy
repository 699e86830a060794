/**
 What the vault session answers, said of its history alone: the last step that decided about it, and the readings of
 the clock since. Steps are what anyone holding the session did to it, from its creation on.
 */
module SessionHistory {
  import opened Basics
  import opened VaultSession

  function SessionAfter(steps: seq<SessionStep>, n: nat, normalize: Normalizer): Session
    requires n <= |steps|
  {
    if n == 0 then Session([], None, None)
    else ApplyStep(SessionAfter(steps, n - 1, normalize), steps[n - 1], normalize)
  }

  // ---------------------------------------------------------------------------------------------
  // Lists: what unlocking keeps, and what is found.
  // ---------------------------------------------------------------------------------------------

  /** The origin of the credential at position `k` normalizes. */
  predicate Normalizes(given: seq<Credential>, k: nat, normalize: Normalizer) {
    k < |given| && normalize(given[k].websiteOrigin).Some?
  }

  /** The positions from `i` on whose origins normalize: all of them, in order, each once. */
  function NormalizingFrom(given: seq<Credential>, i: nat, normalize: Normalizer): (index: seq<nat>)
    requires i <= |given|
    ensures forall m :: 0 <= m < |index| ==> i <= index[m] < |given|
    decreases |given| - i
  {
    if i == |given| then []
    else if Normalizes(given, i, normalize) then [i] + NormalizingFrom(given, i + 1, normalize)
    else NormalizingFrom(given, i + 1, normalize)
  }

  lemma {:induction false} NormalizingStep(given: seq<Credential>, i: nat, normalize: Normalizer)
    requires i < |given|
    ensures Normalizes(given, i, normalize) ==>
      NormalizingFrom(given, i, normalize) == [i] + NormalizingFrom(given, i + 1, normalize)
    ensures !Normalizes(given, i, normalize) ==>
      NormalizingFrom(given, i, normalize) == NormalizingFrom(given, i + 1, normalize)
  {
  }

  lemma {:induction false} NoneNormalizing(given: seq<Credential>, normalize: Normalizer)
    ensures NormalizingFrom(given, |given|, normalize) == []
  {
  }

  /** A position is selected exactly if it is at or past the start and meets the condition. */
  lemma {:induction false} NormalizingExactly(given: seq<Credential>, normalize: Normalizer, i: nat, k: nat)
    requires i <= |given|
    ensures k in NormalizingFrom(given, i, normalize) <==> i <= k && Normalizes(given, k, normalize)
    decreases |given| - i
  {
    hide Normalizes, NormalizingFrom;
    PastTheEnd(given, k, normalize);
    if i < |given| {
      NormalizingStep(given, i, normalize);
      NormalizingExactly(given, normalize, i + 1, k);
    } else {
      NoneNormalizing(given, normalize);
    }
  }

  lemma {:induction false} NormalizingInOrder(given: seq<Credential>, normalize: Normalizer, i: nat, m: nat, m': nat)
    requires i <= |given| && m < m' < |NormalizingFrom(given, i, normalize)|
    ensures NormalizingFrom(given, i, normalize)[m] < NormalizingFrom(given, i, normalize)[m']
    decreases |given| - i
  {
    hide Normalizes, NormalizingFrom;
    if i < |given| {
      NormalizingStep(given, i, normalize);
      var index, rest := NormalizingFrom(given, i, normalize), NormalizingFrom(given, i + 1, normalize);
      if Normalizes(given, i, normalize) {
        assert index[m'] == rest[m' - 1];
        if m > 0 {
          assert index[m] == rest[m - 1];
          NormalizingInOrder(given, normalize, i + 1, m - 1, m' - 1);
        } else {
          assert index[m] == i;
        }
      } else {
        NormalizingInOrder(given, normalize, i + 1, m, m');
      }
    }
  }

  lemma {:induction false} NormalizingSelects(given: seq<Credential>, i: nat, normalize: Normalizer)
    requires i <= |given|
    ensures var index := NormalizingFrom(given, i, normalize);
      && (forall m :: 0 <= m < |index| ==> Normalizes(given, index[m], normalize))
      && (forall m, m' :: 0 <= m < m' < |index| ==> index[m] < index[m'])
      && (forall k: nat :: i <= k && Normalizes(given, k, normalize) ==> k in index)
  {
    hide Normalizes, NormalizingFrom;
    var index := NormalizingFrom(given, i, normalize);
    forall m | 0 <= m < |index| ensures Normalizes(given, index[m], normalize) {
      assert index[m] in index;
      NormalizingExactly(given, normalize, i, index[m]);
    }
    forall m, m' | 0 <= m < m' < |index| ensures index[m] < index[m'] {
      NormalizingInOrder(given, normalize, i, m, m');
    }
    forall k: nat | i <= k && Normalizes(given, k, normalize) ensures k in index {
      NormalizingExactly(given, normalize, i, k);
    }
  }

  lemma {:induction false} PastTheEnd(given: seq<Credential>, k: nat, normalize: Normalizer)
    ensures Normalizes(given, k, normalize) ==> k < |given|
  {
  }

  /** Unlocking keeps every credential whose origin normalizes, in order and as often as it is given. */
  lemma {:induction false} UnlockKeepsTheNormalizable(given: seq<Credential>, i: nat, normalize: Normalizer)
    requires i <= |given|
    ensures var index, kept := NormalizingFrom(given, i, normalize), WithNormalOrigins(given[i..], normalize);
      |kept| == |index| && forall m :: 0 <= m < |index| ==>
        && normalize(given[index[m]].websiteOrigin) == Some(kept[m].websiteOrigin)
        && kept[m] == given[index[m]].(websiteOrigin := kept[m].websiteOrigin)
    decreases |given| - i
  {
    if i < |given| {
      assert given[i..][0] == given[i] && given[i..][1..] == given[i + 1..];
      UnlockKeepsTheNormalizable(given, i + 1, normalize);
    }
  }

  predicate IsListed(held: seq<Credential>, k: nat, origin: string, profileId: string) {
    k < |held| && held[k].websiteOrigin == origin && held[k].profileId == profileId
  }

  /** The positions from `i` on that match origin and profile. */
  function ListedFrom(held: seq<Credential>, i: nat, origin: string, profileId: string): (index: seq<nat>)
    requires i <= |held|
    ensures forall m :: 0 <= m < |index| ==> i <= index[m] < |held|
    decreases |held| - i
  {
    if i == |held| then []
    else if IsListed(held, i, origin, profileId) then [i] + ListedFrom(held, i + 1, origin, profileId)
    else ListedFrom(held, i + 1, origin, profileId)
  }

  lemma {:induction false} ListedStep(held: seq<Credential>, i: nat, origin: string, profileId: string)
    requires i < |held|
    ensures IsListed(held, i, origin, profileId) ==>
      ListedFrom(held, i, origin, profileId) == [i] + ListedFrom(held, i + 1, origin, profileId)
    ensures !IsListed(held, i, origin, profileId) ==>
      ListedFrom(held, i, origin, profileId) == ListedFrom(held, i + 1, origin, profileId)
  {
  }

  lemma {:induction false} NoneListed(held: seq<Credential>, origin: string, profileId: string)
    ensures ListedFrom(held, |held|, origin, profileId) == []
  {
  }

  /** A position is selected exactly if it is at or past the start and meets the condition. */
  lemma {:induction false} ListedExactly(held: seq<Credential>, origin: string, profileId: string, i: nat, k: nat)
    requires i <= |held|
    ensures k in ListedFrom(held, i, origin, profileId) <==> i <= k && IsListed(held, k, origin, profileId)
    decreases |held| - i
  {
    hide IsListed, ListedFrom;
    NotPastTheEnd(held, k, origin, profileId);
    if i < |held| {
      ListedStep(held, i, origin, profileId);
      ListedExactly(held, origin, profileId, i + 1, k);
    } else {
      NoneListed(held, origin, profileId);
    }
  }

  lemma {:induction false} ListedInOrder(
    held: seq<Credential>, origin: string, profileId: string, i: nat, m: nat, m': nat)
    requires i <= |held| && m < m' < |ListedFrom(held, i, origin, profileId)|
    ensures ListedFrom(held, i, origin, profileId)[m] < ListedFrom(held, i, origin, profileId)[m']
    decreases |held| - i
  {
    hide IsListed, ListedFrom;
    if i < |held| {
      ListedStep(held, i, origin, profileId);
      var index, rest := ListedFrom(held, i, origin, profileId), ListedFrom(held, i + 1, origin, profileId);
      if IsListed(held, i, origin, profileId) {
        assert index[m'] == rest[m' - 1];
        if m > 0 {
          assert index[m] == rest[m - 1];
          ListedInOrder(held, origin, profileId, i + 1, m - 1, m' - 1);
        } else {
          assert index[m] == i;
        }
      } else {
        ListedInOrder(held, origin, profileId, i + 1, m, m');
      }
    }
  }

  lemma {:induction false} ListedSelects(held: seq<Credential>, i: nat, origin: string, profileId: string)
    requires i <= |held|
    ensures var index := ListedFrom(held, i, origin, profileId);
      && (forall m :: 0 <= m < |index| ==> IsListed(held, index[m], origin, profileId))
      && (forall m, m' :: 0 <= m < m' < |index| ==> index[m] < index[m'])
      && (forall k: nat :: i <= k && IsListed(held, k, origin, profileId) ==> k in index)
  {
    hide IsListed, ListedFrom;
    var index := ListedFrom(held, i, origin, profileId);
    forall m | 0 <= m < |index| ensures IsListed(held, index[m], origin, profileId) {
      assert index[m] in index;
      ListedExactly(held, origin, profileId, i, index[m]);
    }
    forall m, m' | 0 <= m < m' < |index| ensures index[m] < index[m'] {
      ListedInOrder(held, origin, profileId, i, m, m');
    }
    forall k: nat | i <= k && IsListed(held, k, origin, profileId) ensures k in index {
      ListedExactly(held, origin, profileId, i, k);
    }
  }

  lemma {:induction false} NotPastTheEnd(held: seq<Credential>, k: nat, origin: string, profileId: string)
    ensures IsListed(held, k, origin, profileId) ==> k < |held|
  {
  }

  /** A listing gives every match of origin and profile, in order and as often as it is held. */
  lemma {:induction false} ListingGivesAllMatches(held: seq<Credential>, i: nat, origin: string, profileId: string)
    requires i <= |held|
    ensures var index, listed := ListedFrom(held, i, origin, profileId), AllMatches(held[i..], origin, profileId);
      |listed| == |index| && forall m :: 0 <= m < |index| ==> listed[m] == held[index[m]]
    decreases |held| - i
  {
    if i < |held| {
      hide AllMatches, IsListed;
      ListingStep(held, i, origin, profileId);
      ListingGivesAllMatches(held, i + 1, origin, profileId);
    }
  }

  lemma {:induction false} ListingStep(held: seq<Credential>, i: nat, origin: string, profileId: string)
    requires i < |held|
    ensures AllMatches(held[i..], origin, profileId)
      == (if IsListed(held, i, origin, profileId) then [held[i]] else []) + AllMatches(held[i + 1..], origin, profileId)
  {
    assert held[i..][0] == held[i] && held[i..][1..] == held[i + 1..];
  }

  /** Credential `k` is the first with this id, origin and profile. */
  predicate IsFirst(held: seq<Credential>, k: nat, id: string, origin: string, profileId: string) {
    && k < |held| && held[k].id == id && held[k].websiteOrigin == origin && held[k].profileId == profileId
    && forall j :: 0 <= j < k ==>
         !(held[j].id == id && held[j].websiteOrigin == origin && held[j].profileId == profileId)
  }

  /** The search finds the match at the least index, and nothing exactly when there is none. */
  lemma {:induction false} SearchFindsTheFirst(held: seq<Credential>, id: string, origin: string, profileId: string)
    ensures match FirstMatch(held, id, origin, profileId)
      case Some(c) => exists k: nat :: IsFirst(held, k, id, origin, profileId) && c == held[k]
      case None => forall k: nat :: !IsFirst(held, k, id, origin, profileId)
    ensures FirstMatch(held, id, origin, profileId).None? ==>
      forall c :: c in held ==> !(c.id == id && c.websiteOrigin == origin && c.profileId == profileId)
  {
    if held != [] {
      if Matches(held[0], id, origin, profileId) {
        assert IsFirst(held, 0, id, origin, profileId);
      } else {
        SearchFindsTheFirst(held[1..], id, origin, profileId);
        match FirstMatch(held[1..], id, origin, profileId)
        case Some(c) =>
          var k: nat :| IsFirst(held[1..], k, id, origin, profileId) && c == held[1..][k];
          assert IsFirst(held, k + 1, id, origin, profileId);
        case None =>
          forall k: nat ensures !IsFirst(held, k, id, origin, profileId) {
            if 0 < k < |held| { assert held[k] in held[1..]; }
          }
      }
    }
  }

  // ---------------------------------------------------------------------------------------------
  // History.
  // ---------------------------------------------------------------------------------------------

  /** The last step, before step `n`, that was more than a reading of the clock. */
  predicate IsLastDecision(steps: seq<SessionStep>, n: nat, j: nat) {
    && j < n <= |steps| && !steps[j].ReadState?
    && forall k :: j < k < n ==> steps[k].ReadState?
  }

  predicate Undecided(steps: seq<SessionStep>, n: nat) {
    n <= |steps| && forall k :: 0 <= k < n ==> steps[k].ReadState?
  }

  /** No clock reading since unlocking step `j`, before step `n`, has reached the deadline it set. */
  predicate Unexpired(steps: seq<SessionStep>, n: nat, j: nat)
    requires j < n <= |steps| && steps[j].UnlockFor?
  {
    forall k :: j < k < n && steps[k].ReadState? ==> steps[k].now < steps[j].now + steps[j].ttl
  }

  /** What step `j` makes of the session, given the readings of the clock up to step `n`. */
  function Decided(steps: seq<SessionStep>, n: nat, j: nat, normalize: Normalizer): Session
    requires j < n <= |steps| && !steps[j].ReadState?
  {
    match steps[j]
    case LockNow => Session([], None, None)
    case ReportLost => Session([], None, Some(LostDevice))
    case ReportRevoked => Session([], None, Some(Revoked))
    case UnlockFor(given, now, ttl) =>
      if Unexpired(steps, n, j) then Session(WithNormalOrigins(given, normalize), Some(now + ttl), None)
      else Session([], None, Some(UnlockExpired))
  }

  /** The session after a history: what the last decision made of it, unless it has expired since. */
  lemma {:induction false} SessionTellsItsHistory(steps: seq<SessionStep>, n: nat, j: nat, normalize: Normalizer)
    requires IsLastDecision(steps, n, j)
    ensures SessionAfter(steps, n, normalize) == Decided(steps, n, j, normalize)
  {
    hide WithNormalOrigins;
    if j < n - 1 {
      SessionTellsItsHistory(steps, n - 1, j, normalize);
      assert steps[n - 1].ReadState?;
    }
  }

  lemma {:induction false} UndecidedIsNew(steps: seq<SessionStep>, n: nat, normalize: Normalizer)
    requires Undecided(steps, n)
    ensures SessionAfter(steps, n, normalize) == Session([], None, None)
  {
    if n > 0 { UndecidedIsNew(steps, n - 1, normalize); }
  }

  /** The unlocking that is in force at a reading: the last decision, its deadline never reached, this time included. */
  predicate InForce(steps: seq<SessionStep>, n: nat, j: nat, now: int) {
    && IsLastDecision(steps, n, j) && steps[j].UnlockFor?
    && Unexpired(steps, n, j) && now < steps[j].now + steps[j].ttl
  }

  /** The state that is told to the user. */
  lemma {:induction false} ToldState(steps: seq<SessionStep>, n: nat, now: int, normalize: Normalizer)
    requires n <= |steps|
    ensures var told := SessionAfter(steps, n, normalize).StateAt(now);
      && (told.Unlocked? <==> exists j: nat :: InForce(steps, n, j, now))
      && (told.Locked? <==> Undecided(steps, n) || exists j: nat :: IsLastDecision(steps, n, j) && steps[j].LockNow?)
      && (told == AttentionNeeded(LostDevice) <==>
            exists j: nat :: IsLastDecision(steps, n, j) && steps[j].ReportLost?)
      && (told == AttentionNeeded(Revoked) <==>
            exists j: nat :: IsLastDecision(steps, n, j) && steps[j].ReportRevoked?)
      && (forall j: nat :: InForce(steps, n, j, now) ==> told == Unlocked(steps[j].now + steps[j].ttl))
  {
    hide WithNormalOrigins, SessionAfter;
    DecidedOrNot(steps, n);
    if Undecided(steps, n) {
      UndecidedIsNew(steps, n, normalize);
    } else {
      var j: nat :| IsLastDecision(steps, n, j);
      SessionTellsItsHistory(steps, n, j, normalize);
      assert SessionAfter(steps, n, normalize).StateAt(now).Unlocked? <==> InForce(steps, n, j, now);
      assert forall i: nat :: InForce(steps, n, i, now) ==> i == j;
    }
  }

  lemma {:induction false} DecidedOrNot(steps: seq<SessionStep>, n: nat)
    requires n <= |steps|
    ensures Undecided(steps, n) || exists j: nat :: IsLastDecision(steps, n, j)
    ensures forall i: nat, j: nat :: IsLastDecision(steps, n, i) && IsLastDecision(steps, n, j) ==> i == j
  {
    if n > 0 {
      var m: nat := n - 1;
      DecidedOrNot(steps, m);
      if !steps[m].ReadState? {
        assert IsLastDecision(steps, n, m);
      } else if j: nat :| IsLastDecision(steps, m, j) {
        assert IsLastDecision(steps, n, j);
      }
    }
  }

  /** Credential `k` of an unlocking is the first of those given with this id and profile whose origin is this one. */
  predicate IsFirstGiven(
    given: seq<Credential>, k: nat, id: string, origin: string, profileId: string, normalize: Normalizer) {
    && k < |given| && given[k].id == id && given[k].profileId == profileId
    && normalize(given[k].websiteOrigin) == Some(origin)
    && forall j :: 0 <= j < k ==>
         !(given[j].id == id && given[j].profileId == profileId && normalize(given[j].websiteOrigin) == Some(origin))
  }

  lemma {:induction false} FirstKeptIsFirstGiven(
    given: seq<Credential>, id: string, origin: string, profileId: string, normalize: Normalizer)
    ensures match FirstMatch(WithNormalOrigins(given, normalize), id, origin, profileId)
      case Some(c) =>
        exists k: nat :: IsFirstGiven(given, k, id, origin, profileId, normalize)
          && c == given[k].(websiteOrigin := origin)
      case None => forall k: nat :: !IsFirstGiven(given, k, id, origin, profileId, normalize)
  {
    if given != [] {
      FirstKeptIsFirstGiven(given[1..], id, origin, profileId, normalize);
      var here := given[0].id == id && given[0].profileId == profileId
        && normalize(given[0].websiteOrigin) == Some(origin);
      if here {
        assert IsFirstGiven(given, 0, id, origin, profileId, normalize);
      } else {
        GivenLater(given, id, origin, profileId, normalize);
        SkipsTheFirst(given, id, origin, profileId, normalize);
      }
    }
  }

  lemma {:induction false} GivenLater(
    given: seq<Credential>, id: string, origin: string, profileId: string, normalize: Normalizer)
    requires given != []
    requires !(given[0].id == id && given[0].profileId == profileId
               && normalize(given[0].websiteOrigin) == Some(origin))
    ensures forall k: nat :: IsFirstGiven(given, k, id, origin, profileId, normalize) ==>
      k > 0 && IsFirstGiven(given[1..], k - 1, id, origin, profileId, normalize)
    ensures forall k: nat :: IsFirstGiven(given[1..], k, id, origin, profileId, normalize) ==>
      IsFirstGiven(given, k + 1, id, origin, profileId, normalize)
  {
    forall k: nat | IsFirstGiven(given, k, id, origin, profileId, normalize)
      ensures k > 0 && IsFirstGiven(given[1..], k - 1, id, origin, profileId, normalize)
    {
      assert k > 0;
      assert forall j :: 0 <= j < k - 1 ==> given[1..][j] == given[j + 1];
    }
  }

  lemma {:induction false} SkipsTheFirst(
    given: seq<Credential>, id: string, origin: string, profileId: string, normalize: Normalizer)
    requires given != []
    requires !(given[0].id == id && given[0].profileId == profileId
               && normalize(given[0].websiteOrigin) == Some(origin))
    ensures FirstMatch(WithNormalOrigins(given, normalize), id, origin, profileId)
      == FirstMatch(WithNormalOrigins(given[1..], normalize), id, origin, profileId)
  {
    var rest := WithNormalOrigins(given[1..], normalize);
    if normalize(given[0].websiteOrigin).Some? {
      var first := given[0].(websiteOrigin := normalize(given[0].websiteOrigin).value);
      assert ([first] + rest)[1..] == rest;
    }
  }

  /**
   What is found. A credential is found exactly while an unlocking is in force: the first of those given then with this
   id and profile and the origin asked for, once both are written in normal form.
   */
  lemma {:induction false} FoundExactlyWhileInForce(
    steps: seq<SessionStep>, n: nat, id: string, origin: string, profileId: string, now: int, normalize: Normalizer,
    c: Credential)
    requires n <= |steps|
    ensures SessionAfter(steps, n, normalize).Lookup(id, origin, profileId, now, normalize) == Some(c) <==>
      && normalize(origin).Some?
      && exists j: nat, k: nat :: InForce(steps, n, j, now)
           && IsFirstGiven(steps[j].credentials, k, id, normalize(origin).value, profileId, normalize)
           && c == steps[j].credentials[k].(websiteOrigin := normalize(origin).value)
  {
    hide WithNormalOrigins, FirstMatch, IsFirstGiven, SessionAfter;
    DecidedOrNot(steps, n);
    if Undecided(steps, n) {
      UndecidedIsNew(steps, n, normalize);
    } else {
      var j: nat :| IsLastDecision(steps, n, j);
      SessionTellsItsHistory(steps, n, j, normalize);
      if normalize(origin).Some? && InForce(steps, n, j, now) {
        var given, asked := steps[j].credentials, normalize(origin).value;
        FirstKeptIsFirstGiven(given, id, asked, profileId, normalize);
        forall a: nat, b: nat
          | IsFirstGiven(given, a, id, asked, profileId, normalize)
            && IsFirstGiven(given, b, id, asked, profileId, normalize)
          ensures a == b
        {
          FirstGivenIsUnique(given, a, b, id, asked, profileId, normalize);
        }
      }
    }
  }

  lemma {:induction false} FirstGivenIsUnique(
    given: seq<Credential>, a: nat, b: nat, id: string, origin: string, profileId: string, normalize: Normalizer)
    requires IsFirstGiven(given, a, id, origin, profileId, normalize)
    requires IsFirstGiven(given, b, id, origin, profileId, normalize)
    ensures a == b
  {
    assert !(a < b) && !(b < a);
  }

  /** What is held for pairing and listing, exactly while an unlocking is in force: all that it kept. */
  lemma {:induction false} HeldExactlyWhileInForce(steps: seq<SessionStep>, n: nat, now: int, normalize: Normalizer)
    requires n <= |steps|
    ensures SessionAfter(steps, n, normalize).IsUnlocked(now) <==> exists j: nat :: InForce(steps, n, j, now)
    ensures forall j: nat :: InForce(steps, n, j, now) ==>
      SessionAfter(steps, n, normalize).credentials == WithNormalOrigins(steps[j].credentials, normalize)
  {
    hide WithNormalOrigins, SessionAfter;
    DecidedOrNot(steps, n);
    if Undecided(steps, n) {
      UndecidedIsNew(steps, n, normalize);
    } else {
      var j: nat :| IsLastDecision(steps, n, j);
      SessionTellsItsHistory(steps, n, j, normalize);
      assert SessionAfter(steps, n, normalize).IsUnlocked(now) <==> InForce(steps, n, j, now);
      assert forall i: nat :: InForce(steps, n, i, now) ==> i == j;
    }
  }

  /** After a lock, a loss or a revocation nothing is found, listed or paired at any time until the next unlocking. */
  lemma {:induction false} NothingWithoutUnlocking(
    steps: seq<SessionStep>, j: nat, n: nat, now: int, normalize: Normalizer)
    requires j < n <= |steps| && (steps[j].LockNow? || steps[j].ReportLost? || steps[j].ReportRevoked?)
    requires forall k :: j < k < n ==> !steps[k].UnlockFor?
    ensures var s := SessionAfter(steps, n, normalize);
      && s.credentials == [] && !s.IsUnlocked(now) && !s.StateAt(now).Unlocked?
      && forall id, origin, profileId :: s.Lookup(id, origin, profileId, now, normalize) == None
  {
    hide WithNormalOrigins;
    if j < n - 1 {
      NothingWithoutUnlocking(steps, j, n - 1, now, normalize);
      StaysEmpty(steps, j, n, normalize);
    }
  }

  lemma {:induction false} StaysEmpty(steps: seq<SessionStep>, j: nat, n: nat, normalize: Normalizer)
    requires j < n <= |steps| && (steps[j].LockNow? || steps[j].ReportLost? || steps[j].ReportRevoked?)
    requires forall k :: j < k < n ==> !steps[k].UnlockFor?
    ensures SessionAfter(steps, n, normalize).credentials == [] && SessionAfter(steps, n, normalize).expiresAt.None?
  {
    hide WithNormalOrigins;
    if j < n - 1 { StaysEmpty(steps, j, n - 1, normalize); }
  }
}
