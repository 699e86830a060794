/** How the server reads any bytes, well-formed or not: when they count as complete, and what is routed. */
module HttpReading {
  import opened Basics
  import opened LoopbackHttp

  /** The first blank line starts at `i`. */
  predicate HeadEndsAt(data: string, i: nat) {
    StartsAt(data, i, BLANK_LINE) && forall j :: 0 <= j < i ==> !StartsAt(data, j, BLANK_LINE)
  }

  lemma {:induction false} HeadEndIsFound(data: string, i: nat)
    ensures Find(data, BLANK_LINE) == Some(i) <==> HeadEndsAt(data, i)
  {
  }

  /** Line `k` is the first that gives a length. */
  predicate FirstLength(lines: seq<string>, k: nat) {
    k < |lines| && LengthIn(lines[k]).Some? && forall j :: 0 <= j < k ==> LengthIn(lines[j]).None?
  }

  /** The length of a body is the one that the first line with a length gives, or nothing. */
  lemma {:induction false} LengthIsTheFirstGiven(lines: seq<string>) returns (k: nat)
    ensures if exists j :: 0 <= j < |lines| && LengthIn(lines[j]).Some? then
        FirstLength(lines, k) && ContentLength(lines) == LengthIn(lines[k]).value
      else ContentLength(lines) == 0
  {
    hide LengthIn;
    k := 0;
    if lines != [] && LengthIn(lines[0]).None? {
      var rest := lines[1..];
      var m := LengthIsTheFirstGiven(rest);
      k := m + 1;
      if j :| 0 <= j < |lines| && LengthIn(lines[j]).Some? { assert rest[j - 1] == lines[j]; }
      if j :| 0 <= j < |rest| && LengthIn(rest[j]).Some? { assert lines[j + 1] == rest[j]; }
      assert m < |rest| ==> rest[m] == lines[k];
      assert forall j :: 0 < j < |lines| ==> lines[j] == rest[j - 1];
    }
  }

  /** Bytes count as a complete request exactly when the head has ended and the length it gives has arrived. */
  lemma {:induction false} CompleteExactly(data: string)
    ensures IsCompleteHttpRequest(data) <==>
      exists i: nat :: HeadEndsAt(data, i) && i + 4 + ContentLength(Split(data[..i], CRLF)) <= |data|
  {
    hide Find, ContentLength, Split;
    if i: nat :| HeadEndsAt(data, i) && i + 4 + ContentLength(Split(data[..i], CRLF)) <= |data| {
      HeadEndIsFound(data, i);
    }
    if Find(data, BLANK_LINE).Some? { HeadEndIsFound(data, Find(data, BLANK_LINE).value); }
  }

  /** The body of any request is what follows the first blank line, byte for byte. */
  lemma {:induction false} BodyIsWhatFollows(request: string, i: nat)
    requires HeadEndsAt(request, i)
    ensures RouteOf(request).body == request[i + 4..]
  {
    hide Find, Words, HeadersOf, HeadEndsAt;
    HeadEndIsFound(request, i);
    assert HeadEndsAt(request, i) && StartsAt(request, i, BLANK_LINE) by { EndsInside(request, i); }
    JoinSplit(request[i + 4..], BLANK_LINE);
    assert Split(request, BLANK_LINE)[1..] == Split(request[i + 4..], BLANK_LINE);
  }

  lemma {:induction false} EndsInside(request: string, i: nat)
    requires HeadEndsAt(request, i)
    ensures StartsAt(request, i, BLANK_LINE)
  {
  }

  predicate AllBlank(s: string) {
    forall k :: 0 <= k < |s| ==> s[k] == ' ' || s[k] == '\t'
  }

  lemma {:induction false} LeftIsCut(s: string)
    ensures var r := TrimLeft(s); s == s[..|s| - |r|] + r && AllBlank(s[..|s| - |r|])
  {
    if s != "" && IsBlank(s[0]) { LeftIsCut(s[1..]); }
  }

  lemma {:induction false} RightIsCut(s: string)
    ensures var r := TrimRight(s); s == r + s[|r|..] && AllBlank(s[|r|..])
  {
    if s != "" && IsBlank(s[|s| - 1]) {
      RightIsCut(s[..|s| - 1]);
      assert s == s[..|s| - 1] + [s[|s| - 1]];
    }
  }

  /** Trimming cuts spaces and tabs off both ends, all of them, and nothing else. */
  lemma {:induction false} TrimCutsBlanks(s: string) returns (left: string, right: string)
    ensures s == left + Trim(s) + right && AllBlank(left) && AllBlank(right)
    ensures Trim(s) != "" ==> !IsBlank(Trim(s)[0]) && !IsBlank(Trim(s)[|Trim(s)| - 1])
  {
    hide TrimLeft, TrimRight;
    LeftIsCut(s);
    var inner := TrimLeft(s);
    RightIsCut(inner);
    left, right := s[..|s| - |inner|], inner[|Trim(s)|..];
    assert s == left + (Trim(s) + right);
    assert Trim(s) != "" ==> Trim(s)[0] == inner[0];
  }

  lemma {:induction false} LowerIsByCharacter(s: string, k: nat)
    requires k < |s|
    ensures Lower(s)[k] == if 'A' <= s[k] <= 'Z' then s[k] - 'A' + 'a' else s[k]
  {
    if k > 0 { LowerIsByCharacter(s[1..], k - 1); }
  }

  /** A line is a header under this name: what is before its first colon, in lower case. */
  predicate IsHeader(line: string, name: string) {
    var i := IndexOfChar(line, ':');
    i < |line| && Lower(line[..i]) == name
  }

  predicate LastHeader(lines: seq<string>, n: nat, name: string, k: nat)
    requires n <= |lines|
  {
    k < n && IsHeader(lines[k], name) && forall j :: k < j < n ==> !IsHeader(lines[j], name)
  }

  /** Whatever the lines are, a name has the trimmed value of the last line that gives it one. */
  lemma {:induction false} HeadersAreTheLastGiven(lines: seq<string>, n: nat, name: string) returns (k: nat)
    requires n <= |lines|
    ensures name in HeadersOf(lines, n) <==> exists j :: 0 <= j < n && IsHeader(lines[j], name)
    ensures name in HeadersOf(lines, n) ==>
      && LastHeader(lines, n, name, k)
      && HeadersOf(lines, n)[name] == Trim(lines[k][IndexOfChar(lines[k], ':') + 1..])
  {
    hide Lower, Trim;
    k := 0;
    if n > 0 {
      k := HeadersAreTheLastGiven(lines, n - 1, name);
      if IsHeader(lines[n - 1], name) { k := n - 1; }
    }
  }

  /** A request line that lacks them is read as a GET of the root. */
  lemma {:induction false} MissingPartsHaveDefaults(request: string)
    ensures var words := Words(Split(Split(request, BLANK_LINE)[0], CRLF)[0]);
      && (words == [] ==> RouteOf(request).verb == "GET")
      && (|words| <= 1 ==> RouteOf(request).path == "/")
      && (|words| >= 1 ==> RouteOf(request).verb == words[0])
      && (|words| >= 2 ==> RouteOf(request).path == words[1])
  {
    hide Words, Split, HeadersOf, Join;
  }
}
