/**
 The loopback HTTP server of the Mac companion (LoopbackHTTPServer.swift): one piece of code decides, while bytes
 arrive, when a request is complete; another then parses the same bytes again from the start. A character stands for
 a byte.
 */
module LoopbackHttp {
  import opened Basics

  const CRLF: string := "\r\n"
  const BLANK_LINE: string := "\r\n\r\n"
  const MAX_INT: int := 0x7FFF_FFFF_FFFF_FFFF

  // ---------------------------------------------------------------------------------------------
  // Searching, splitting and joining.
  // ---------------------------------------------------------------------------------------------

  predicate StartsAt(s: string, i: nat, sep: string) {
    i + |sep| <= |s| && s[i..i + |sep|] == sep
  }

  /** The first place, from `i` on, where `sep` starts. */
  function FindFrom(s: string, sep: string, i: nat): (r: Option<nat>)
    requires i <= |s|
    ensures r.Some? ==>
      i <= r.value && StartsAt(s, r.value, sep) && forall j :: i <= j < r.value ==> !StartsAt(s, j, sep)
    ensures r.None? ==> forall j :: i <= j ==> !StartsAt(s, j, sep)
    decreases |s| - i
  {
    if StartsAt(s, i, sep) then Some(i) else if i == |s| then None else FindFrom(s, sep, i + 1)
  }

  function Find(s: string, sep: string): Option<nat> {
    FindFrom(s, sep, 0)
  }

  lemma {:induction false} FoundHere(s: string, sep: string, i: nat)
    requires StartsAt(s, i, sep) && forall j :: 0 <= j < i ==> !StartsAt(s, j, sep)
    ensures Find(s, sep) == Some(i)
  {
  }

  /** What is found in a prefix is found at the same place in the whole. */
  lemma {:induction false} FoundInPrefix(s: string, t: string, sep: string)
    requires Find(s, sep).Some?
    ensures Find(s + t, sep) == Find(s, sep)
  {
    var i := Find(s, sep).value;
    assert (s + t)[i..i + |sep|] == s[i..i + |sep|];
    forall j | 0 <= j < i ensures !StartsAt(s + t, j, sep) {
      assert !StartsAt(s, j, sep);
      assert (s + t)[j..j + |sep|] == s[j..j + |sep|];
    }
    FoundHere(s + t, sep, i);
  }

  /** `components(separatedBy:)`. */
  function Split(s: string, sep: string): (parts: seq<string>)
    requires sep != ""
    ensures parts != []
    decreases |s|
  {
    match Find(s, sep)
    case None => [s]
    case Some(i) => [s[..i]] + Split(s[i + |sep|..], sep)
  }

  /** `joined(separator:)`. */
  function Join(parts: seq<string>, sep: string): string {
    if parts == [] then "" else if |parts| == 1 then parts[0] else parts[0] + sep + Join(parts[1..], sep)
  }

  lemma {:induction false} JoinSplit(s: string, sep: string)
    requires sep != ""
    ensures Join(Split(s, sep), sep) == s
    decreases |s|
  {
    match Find(s, sep)
    case None =>
    case Some(i) =>
      JoinSplit(s[i + |sep|..], sep);
      assert Split(s, sep)[1..] == Split(s[i + |sep|..], sep);
      assert s == s[..i] + sep + s[i + |sep|..];
  }

  function IsBlank(c: char): bool {
    c == ' ' || c == '\t'
  }

  function TrimLeft(s: string): (r: string)
    ensures |r| <= |s| && (r != "" ==> !IsBlank(r[0]))
  {
    if s != "" && IsBlank(s[0]) then TrimLeft(s[1..]) else s
  }

  function TrimRight(s: string): (r: string)
    ensures |r| <= |s| && (r != "" ==> !IsBlank(r[|r| - 1]))
  {
    if s != "" && IsBlank(s[|s| - 1]) then TrimRight(s[..|s| - 1]) else s
  }

  function Trim(s: string): string {
    TrimRight(TrimLeft(s))
  }

  function Lower(s: string): (r: string)
    ensures |r| == |s|
  {
    if s == "" then "" else [if 'A' <= s[0] <= 'Z' then s[0] - 'A' + 'a' else s[0]] + Lower(s[1..])
  }

  // ---------------------------------------------------------------------------------------------
  // Whole numbers, as `Int(_:)` reads them.
  // ---------------------------------------------------------------------------------------------

  predicate AllDigits(s: string) {
    forall k :: 0 <= k < |s| ==> '0' <= s[k] <= '9'
  }

  function DigitsValue(s: string): nat
    requires AllDigits(s)
  {
    if s == "" then 0 else 10 * DigitsValue(s[..|s| - 1]) + (s[|s| - 1] - '0') as int
  }

  function ParseInt(s: string): Option<int> {
    var negative := s != "" && s[0] == '-';
    var digits := if s != "" && (s[0] == '-' || s[0] == '+') then s[1..] else s;
    if digits == "" || !AllDigits(digits) then None
    else
      var size: int := DigitsValue(digits);
      var value := if negative then -size else size;
      if -MAX_INT - 1 <= value <= MAX_INT then Some(value) else None
  }

  lemma {:induction false} NumberReadsBack(n: nat)
    ensures AllDigits(NatText(n)) && DigitsValue(NatText(n)) == n
  {
    if n < 10 {
      assert NatText(n)[..0] == "";
    } else {
      NumberReadsBack(n / 10);
      assert NatText(n)[..|NatText(n)| - 1] == NatText(n / 10);
    }
  }

  // ---------------------------------------------------------------------------------------------
  // While bytes arrive: is the request complete?
  // ---------------------------------------------------------------------------------------------

  function DropColons(s: string): (r: string)
    ensures r != "" ==> r[0] != ':'
  {
    if s != "" && s[0] == ':' then DropColons(s[1..]) else s
  }

  /** `split(separator: ":", maxSplits: 1)` when it yields two parts; empty parts are left out. */
  function ColonParts(line: string): Option<(string, string)> {
    var t := DropColons(line);
    match Find(t, ":")
    case None => None
    case Some(j) => if j + 1 < |t| then Some((t[..j], t[j + 1..])) else None
  }

  function LengthIn(line: string): Option<int> {
    match ColonParts(line)
    case None => None
    case Some((name, value)) => if Lower(Trim(name)) == "content-length" then ParseInt(Trim(value)) else None
  }

  /** The first line that gives a length, or zero. */
  function ContentLength(lines: seq<string>): int {
    if lines == [] then 0
    else match LengthIn(lines[0]) case Some(n) => n case None => ContentLength(lines[1..])
  }

  predicate IsCompleteHttpRequest(data: string) {
    match Find(data, BLANK_LINE)
    case None => false
    case Some(i) => |data| - (i + |BLANK_LINE|) >= ContentLength(Split(data[..i], CRLF))
  }

  /** Completeness is kept by whatever arrives later. */
  lemma {:induction false} CompleteStaysComplete(data: string, more: string)
    requires IsCompleteHttpRequest(data)
    ensures IsCompleteHttpRequest(data + more)
  {
    FoundInPrefix(data, more, BLANK_LINE);
    var i := Find(data, BLANK_LINE).value;
    assert (data + more)[..i] == data[..i];
  }

  datatype Chunk = Chunk(data: string, isComplete: bool)

  function Received(chunks: seq<Chunk>, n: nat): string
    requires n <= |chunks|
  {
    if n == 0 then "" else Received(chunks, n - 1) + chunks[n - 1].data
  }

  datatype Reception = Handled(request: string) | Cancelled | StillWaiting

  /** Receiving stops after chunk `n` when that chunk ends the stream or completes the request. */
  predicate StopsAfter(chunks: seq<Chunk>, n: nat)
    requires 0 < n <= |chunks|
  {
    Received(chunks, n) == "" || chunks[n - 1].isComplete || IsCompleteHttpRequest(Received(chunks, n))
  }

  /** The receive callback, called again with a longer buffer until it handles the request or gives up. */
  method ReceiveRequest(chunks: seq<Chunk>) returns (r: Reception, used: nat)
    ensures used <= |chunks|
    ensures forall k :: 0 < k < used ==> !StopsAfter(chunks, k)
    ensures match r
      case StillWaiting => used == |chunks| && (used > 0 ==> !StopsAfter(chunks, used))
      case Cancelled => used > 0 && Received(chunks, used) == ""
      case Handled(request) => used > 0 && StopsAfter(chunks, used) && request == Received(chunks, used) != ""
  {
    hide IsCompleteHttpRequest;
    var buffer := "";
    used := 0;
    while used < |chunks|
      invariant 0 <= used <= |chunks|
      invariant buffer == Received(chunks, used)
      invariant forall k :: 0 < k <= used ==> !StopsAfter(chunks, k)
    {
      var chunk := chunks[used];
      buffer := buffer + chunk.data;
      used := used + 1;
      if buffer == "" {
        return Cancelled, used;
      }
      if chunk.isComplete || IsCompleteHttpRequest(buffer) {
        return Handled(buffer), used;
      }
    }
    return StillWaiting, used;
  }

  // ---------------------------------------------------------------------------------------------
  // Afterwards: parsing the same bytes.
  // ---------------------------------------------------------------------------------------------

  function IndexOfChar(s: string, c: char): (i: nat)
    ensures i <= |s| && forall k :: 0 <= k < i ==> s[k] != c
    ensures i < |s| ==> s[i] == c
  {
    if s == "" || s[0] == c then 0 else 1 + IndexOfChar(s[1..], c)
  }

  /** `split(separator: " ")`, which leaves empty parts out. */
  function Words(s: string): seq<string>
    decreases |s|
  {
    if s == "" then []
    else if s[0] == ' ' then Words(s[1..])
    else
      var i := IndexOfChar(s, ' ');
      [s[..i]] + Words(s[i..])
  }

  /** The headers with one more line read; a line without a colon is skipped. */
  function HeaderRead(headers: map<string, string>, line: string): map<string, string> {
    var i := IndexOfChar(line, ':');
    if i == |line| then headers else headers[Lower(line[..i]) := Trim(line[i + 1..])]
  }

  /** The headers after the first `n` lines; a later line of the same name wins. */
  function HeadersOf(lines: seq<string>, n: nat): map<string, string>
    requires n <= |lines|
  {
    if n == 0 then map[]
    else
      HeaderRead(HeadersOf(lines, n - 1), lines[n - 1])
  }

  datatype Routed = Routed(verb: string, path: string, headers: map<string, string>, body: string)

  function RouteOf(request: string): Routed {
    var headerAndBody := Split(request, BLANK_LINE);
    var headerLines := Split(headerAndBody[0], CRLF);
    var words := Words(headerLines[0]);
    Routed(
      if |words| > 0 then words[0] else "GET",
      if |words| > 1 then words[1] else "/",
      HeadersOf(headerLines[1..], |headerLines| - 1),
      Join(headerAndBody[1..], BLANK_LINE))
  }

  method Route(request: string) returns (r: Routed)
    ensures r == RouteOf(request)
  {
    hide Split, Join, Words, HeadersOf;
    var headerAndBody := Split(request, BLANK_LINE);
    var headerText := headerAndBody[0];
    var bodyText := Join(headerAndBody[1..], BLANK_LINE);
    var headerLines := Split(headerText, CRLF);
    var requestLine := Words(headerLines[0]);
    var verb := if |requestLine| > 0 then requestLine[0] else "GET";
    var path := if |requestLine| > 1 then requestLine[1] else "/";
    var headers := ReadHeaders(headerLines[1..]);
    return Routed(verb, path, headers, bodyText);
  }

  /** The loop over the header lines. */
  method ReadHeaders(lines: seq<string>) returns (headers: map<string, string>)
    ensures headers == HeadersOf(lines, |lines|)
  {
    hide Lower, Trim;
    headers := map[];
    for k := 0 to |lines|
      invariant headers == HeadersOf(lines, k)
    {
      var line := lines[k];
      var i := IndexOfChar(line, ':');
      if i == |line| {
        continue;
      }
      headers := headers[Lower(line[..i]) := Trim(line[i + 1..])];
    }
  }

  // ---------------------------------------------------------------------------------------------
  // Well-formed requests, as a client prints them.
  // ---------------------------------------------------------------------------------------------

  datatype Header = Header(name: string, value: string)

  datatype Request = Request(verb: string, path: string, headers: seq<Header>, body: string)

  predicate Has(s: string, c: char) {
    exists k :: 0 <= k < |s| && s[k] == c
  }

  predicate OneLine(s: string) {
    !Has(s, '\r') && !Has(s, '\n')
  }

  predicate WellFormedHeader(h: Header) {
    && h.name != "" && OneLine(h.name) && !Has(h.name, ':') && !Has(h.name, ' ') && !Has(h.name, '\t')
    && OneLine(h.value) && (h.value != "" ==> !IsBlank(h.value[0]) && !IsBlank(h.value[|h.value| - 1]))
  }

  predicate IsLength(h: Header) {
    Lower(h.name) == "content-length"
  }

  /** A request with one Content-Length, which is the length of its body. */
  predicate WellFormed(r: Request) {
    && r.verb != "" && OneLine(r.verb) && !Has(r.verb, ' ') && !Has(r.verb, ':')
    && r.path != "" && r.path[0] == '/' && OneLine(r.path) && !Has(r.path, ' ')
    && (forall k :: 0 <= k < |r.headers| ==> WellFormedHeader(r.headers[k]))
    && (exists k :: 0 <= k < |r.headers| && IsLength(r.headers[k]))
    && (forall k :: 0 <= k < |r.headers| && IsLength(r.headers[k]) ==> r.headers[k].value == NatText(|r.body|))
    && |r.body| <= MAX_INT
  }

  function RequestLine(r: Request): string {
    r.verb + " " + r.path + " HTTP/1.1"
  }

  function HeaderLine(h: Header): string {
    h.name + ": " + h.value
  }

  function HeaderLines(headers: seq<Header>): (lines: seq<string>)
    ensures |lines| == |headers|
    ensures forall k :: 0 <= k < |headers| ==> lines[k] == HeaderLine(headers[k])
  {
    if headers == [] then [] else [HeaderLine(headers[0])] + HeaderLines(headers[1..])
  }

  function Lines(r: Request): seq<string> {
    [RequestLine(r)] + HeaderLines(r.headers)
  }

  function Print(r: Request): string {
    Join(Lines(r), CRLF) + BLANK_LINE + r.body
  }

  /** The headers a codec should see: names in lower case, a later header of the same name winning. */
  function HeaderMap(headers: seq<Header>, n: nat): map<string, string>
    requires n <= |headers|
  {
    if n == 0 then map[] else HeaderMap(headers, n - 1)[Lower(headers[n - 1].name) := headers[n - 1].value]
  }

  // ---------------------------------------------------------------------------------------------
  // Splitting printed text gives the printed parts.
  // ---------------------------------------------------------------------------------------------

  /** Lines of text that are neither empty nor broken. */
  predicate GoodLines(lines: seq<string>) {
    lines != [] && forall k :: 0 <= k < |lines| ==> lines[k] != "" && OneLine(lines[k])
  }

  lemma {:induction false} NoBreakInside(line: string, rest: string, sep: string, i: nat)
    requires OneLine(line) && i < |line| && sep != "" && sep[0] == '\r'
    ensures !StartsAt(line + rest, i, sep)
  {
    if i + |sep| <= |line + rest| {
      assert (line + rest)[i..i + |sep|][0] == line[i];
    }
  }

  lemma {:induction false} FirstLineFound(line: string, rest: string)
    requires OneLine(line)
    ensures Find(line + (CRLF + rest), CRLF) == Some(|line|)
  {
    var s := line + (CRLF + rest);
    assert s[|line|..|line| + 2] == CRLF;
    forall j | 0 <= j < |line| ensures !StartsAt(s, j, CRLF) {
      NoBreakInside(line, CRLF + rest, CRLF, j);
    }
    FoundHere(s, CRLF, |line|);
  }

  lemma {:induction false} NothingFound(line: string)
    requires OneLine(line)
    ensures Find(line, CRLF) == None
  {
    assert line + "" == line;
    forall j | 0 <= j ensures !StartsAt(line, j, CRLF) {
      if j < |line| { NoBreakInside(line, "", CRLF, j); }
    }
  }

  lemma {:induction false} SplitLines(lines: seq<string>)
    requires GoodLines(lines)
    ensures Split(Join(lines, CRLF), CRLF) == lines
    decreases |lines|
  {
    if |lines| == 1 {
      NothingFound(lines[0]);
    } else {
      var rest := Join(lines[1..], CRLF);
      var s := lines[0] + (CRLF + rest);
      assert lines[0] + CRLF + rest == s;
      SplitLines(lines[1..]);
      FirstLineFound(lines[0], rest);
      assert s[..|lines[0]|] == lines[0] && s[|lines[0]| + 2..] == rest;
      assert [lines[0]] + lines[1..] == lines;
    }
  }

  lemma {:induction false} JoinStart(lines: seq<string>)
    requires GoodLines(lines)
    ensures Join(lines, CRLF) != "" && Join(lines, CRLF)[0] == lines[0][0] != '\r'
  {
    assert !Has(lines[0], '\r');
  }

  lemma {:induction false} Mismatch(s: string, i: nat, sep: string, k: nat)
    requires k < |sep| && i + k < |s| && s[i + k] != sep[k]
    ensures !StartsAt(s, i, sep)
  {
    if i + |sep| <= |s| {
      assert s[i..i + |sep|][k] == s[i + k];
    }
  }

  lemma {:induction false} StartsLater(a: string, b: string, i: nat, sep: string)
    requires |a| <= i
    ensures StartsAt(a + b, i, sep) == StartsAt(b, i - |a|, sep)
  {
    if i + |sep| <= |a + b| {
      assert (a + b)[i..i + |sep|] == b[i - |a|..i - |a| + |sep|];
    }
  }

  /** No blank line before the end of the head. */
  lemma {:induction false} NoEarlyBlankLine(lines: seq<string>, rest: string, j: nat)
    requires GoodLines(lines) && j < |Join(lines, CRLF)|
    ensures !StartsAt(Join(lines, CRLF) + (BLANK_LINE + rest), j, BLANK_LINE)
    decreases |lines|
  {
    var line, head := lines[0], Join(lines, CRLF);
    var s := head + (BLANK_LINE + rest);
    if |lines| == 1 {
      NoBreakInside(line, BLANK_LINE + rest, BLANK_LINE, j);
    } else {
      var tail := Join(lines[1..], CRLF) + (BLANK_LINE + rest);
      JoinStart(lines[1..]);
      assert s == line + (CRLF + tail);
      if j < |line| {
        NoBreakInside(line, CRLF + tail, BLANK_LINE, j);
      } else if j < |line| + 2 {
        assert s[|line|] == '\r' && s[|line| + 1] == '\n' && s[|line| + 2] == tail[0];
        Mismatch(s, j, BLANK_LINE, if j == |line| then 2 else 0);
      } else {
        NoEarlyBlankLine(lines[1..], rest, j - |line| - 2);
        assert s == (line + CRLF) + tail;
        StartsLater(line + CRLF, tail, j, BLANK_LINE);
      }
    }
  }

  lemma {:induction false} HeadEndsAtBlankLine(lines: seq<string>, body: string)
    requires GoodLines(lines)
    ensures Find(Join(lines, CRLF) + BLANK_LINE + body, BLANK_LINE) == Some(|Join(lines, CRLF)|)
  {
    var head := Join(lines, CRLF);
    var s := head + (BLANK_LINE + body);
    assert head + BLANK_LINE + body == s;
    assert s[|head|..|head| + 4] == BLANK_LINE;
    forall j | 0 <= j < |head| ensures !StartsAt(s, j, BLANK_LINE) {
      NoEarlyBlankLine(lines, body, j);
    }
    FoundHere(s, BLANK_LINE, |head|);
  }

  // ---------------------------------------------------------------------------------------------
  // One printed line read by both pieces of code.
  // ---------------------------------------------------------------------------------------------

  lemma {:induction false} TrimNothing(s: string)
    requires s == "" || (!IsBlank(s[0]) && !IsBlank(s[|s| - 1]))
    ensures Trim(s) == s
  {
  }

  lemma {:induction false} TrimAfterColon(value: string)
    requires value == "" || (!IsBlank(value[0]) && !IsBlank(value[|value| - 1]))
    ensures Trim(" " + value) == value
  {
    assert (" " + value)[1..] == value;
    TrimNothing(value);
  }

  lemma {:induction false} HeaderLineParts(h: Header)
    requires WellFormedHeader(h)
    ensures IndexOfChar(HeaderLine(h), ':') == |h.name|
    ensures ColonParts(HeaderLine(h)) == Some((h.name, " " + h.value))
    ensures Trim(h.name) == h.name && Trim(" " + h.value) == h.value
    ensures HeaderLine(h)[..|h.name|] == h.name && HeaderLine(h)[|h.name| + 1..] == " " + h.value
  {
    var line := HeaderLine(h);
    assert line[|h.name|] == ':' && line[..|h.name|] == h.name;
    assert line[|h.name| + 1..] == " " + h.value;
    ColonIsFirst(line, |h.name|);
    TrimNothing(h.name);
    TrimAfterColon(h.value);
  }

  lemma {:induction false} ColonIsFirst(line: string, i: nat)
    requires 0 < i < |line| && line[i] == ':' && !Has(line[..i], ':')
    ensures IndexOfChar(line, ':') == i && DropColons(line) == line && Find(line, ":") == Some(i)
  {
    forall k | 0 <= k < i ensures line[k] != ':' {
      assert line[..i][k] == line[k];
    }
    assert line[i..i + 1] == ":";
    forall j | 0 <= j < i ensures !StartsAt(line, j, ":") {
      assert line[j..j + 1][0] == line[j];
    }
    FoundHere(line, ":", i);
  }

  lemma {:induction false} LengthInHeader(h: Header)
    requires WellFormedHeader(h)
    ensures LengthIn(HeaderLine(h)) == if IsLength(h) then ParseInt(h.value) else None
  {
    hide ParseInt, Lower, Trim, HeaderLine, ColonParts, WellFormedHeader;
    HeaderLineParts(h);
  }

  /** The request line gives no length: before its first colon, if it has one, there is a slash. */
  lemma {:induction false} NoLengthInRequestLine(r: Request)
    requires WellFormed(r)
    ensures LengthIn(RequestLine(r)) == None
  {
    var line := RequestLine(r);
    var slash := |r.verb| + 1;
    assert line[slash] == '/' && line[0] == r.verb[0];
    assert !Has(r.verb, ':');
    match Find(line, ":")
    case None =>
    case Some(j) =>
      assert line[j..j + 1][0] == line[j] == ':';
      assert forall k :: 0 <= k < |r.verb| ==> line[k] == r.verb[k] != ':';
      SlashSurvives(line[..j], slash);
  }

  /** A slash between two parts is still there after trimming and lower-casing, so the text is no header name. */
  lemma {:induction false} SlashSurvives(s: string, i: nat)
    requires i < |s| && s[i] == '/'
    ensures Lower(Trim(s)) != "content-length"
  {
    TrimLeftKeeps(s, i);
    var t := TrimLeft(s);
    var k :| 0 <= k < |t| && t[k] == '/';
    TrimRightKeeps(t, k);
    LowerAt(Trim(s), k);
    assert forall m :: 0 <= m < |"content-length"| ==> "content-length"[m] != '/';
  }

  lemma {:induction false} TrimLeftKeeps(s: string, i: nat)
    requires i < |s| && s[i] == '/'
    ensures exists k :: 0 <= k < |TrimLeft(s)| && TrimLeft(s)[k] == '/'
    decreases |s|
  {
    if IsBlank(s[0]) {
      assert s[1..][i - 1] == s[i];
      TrimLeftKeeps(s[1..], i - 1);
      assert TrimLeft(s) == TrimLeft(s[1..]);
    } else {
      assert TrimLeft(s)[i] == '/';
    }
  }

  lemma {:induction false} TrimRightKeeps(s: string, i: nat)
    requires i < |s| && s[i] == '/'
    ensures i < |TrimRight(s)| && TrimRight(s)[i] == '/'
    decreases |s|
  {
    if IsBlank(s[|s| - 1]) { TrimRightKeeps(s[..|s| - 1], i); }
  }

  lemma {:induction false} LowerAt(s: string, i: nat)
    requires i < |s|
    ensures Lower(s)[i] == if 'A' <= s[i] <= 'Z' then s[i] - 'A' + 'a' else s[i]
  {
    if i > 0 { LowerAt(s[1..], i - 1); }
  }

  lemma {:induction false} PrintedLength(n: nat)
    requires n <= MAX_INT
    ensures ParseInt(NatText(n)) == Some(n)
  {
    NumberReadsBack(n);
  }

  /** The first length found is the body's. */
  lemma {:induction false} LengthFound(headers: seq<Header>, n: nat)
    requires n <= MAX_INT
    requires forall k :: 0 <= k < |headers| ==> WellFormedHeader(headers[k])
    requires exists k :: 0 <= k < |headers| && IsLength(headers[k])
    requires forall k :: 0 <= k < |headers| && IsLength(headers[k]) ==> headers[k].value == NatText(n)
    ensures ContentLength(HeaderLines(headers)) == n
  {
    hide LengthIn, WellFormedHeader, IsLength, ParseInt;
    LengthInHeader(headers[0]);
    PrintedLength(n);
    if !IsLength(headers[0]) {
      var k :| 0 <= k < |headers| && IsLength(headers[k]);
      assert headers[1..][k - 1] == headers[k];
      LengthFound(headers[1..], n);
    }
  }

  lemma {:induction false} LinesAreGood(r: Request)
    requires WellFormed(r)
    ensures GoodLines(Lines(r))
  {
    OneLineConcat(r.verb, " " + r.path + " HTTP/1.1");
    OneLineConcat(" ", r.path + " HTTP/1.1");
    OneLineConcat(r.path, " HTTP/1.1");
    assert " " + (r.path + " HTTP/1.1") == " " + r.path + " HTTP/1.1";
    assert r.verb + (" " + r.path + " HTTP/1.1") == RequestLine(r);
    forall k | 0 <= k < |r.headers| ensures HeaderLine(r.headers[k]) != "" && OneLine(HeaderLine(r.headers[k])) {
      var h := r.headers[k];
      assert WellFormedHeader(h);
      OneLineConcat(": ", h.value);
      OneLineConcat(h.name, ": " + h.value);
      assert h.name + (": " + h.value) == HeaderLine(h);
    }
  }

  lemma {:induction false} OneLineConcat(a: string, b: string)
    requires OneLine(a) && OneLine(b)
    ensures OneLine(a + b)
  {
    assert forall k :: 0 <= k < |a| ==> (a + b)[k] == a[k] && a[k] != '\r' && a[k] != '\n';
    assert forall k :: 0 <= k < |b| ==> (a + b)[|a| + k] == b[k] && b[k] != '\r' && b[k] != '\n';
    forall k | 0 <= k < |a + b| ensures (a + b)[k] != '\r' && (a + b)[k] != '\n' {
      if k >= |a| { assert (a + b)[|a| + (k - |a|)] == b[k - |a|]; }
    }
  }

  // ---------------------------------------------------------------------------------------------
  // Receiving stops exactly at the last byte, and routing recovers the request.
  // ---------------------------------------------------------------------------------------------

  lemma {:induction false} PrintedLengthFound(r: Request)
    requires WellFormed(r)
    ensures var head := Join(Lines(r), CRLF);
      Split(head, CRLF) == Lines(r) && ContentLength(Lines(r)) == |r.body|
  {
    hide LengthIn, Split, Join, WellFormedHeader, IsLength;
    LinesAreGood(r);
    SplitLines(Lines(r));
    NoLengthInRequestLine(r);
    LengthFound(r.headers, |r.body|);
    assert Lines(r)[1..] == HeaderLines(r.headers);
  }

  /** A printed request is complete, and no proper prefix of it is. */
  lemma {:induction false} CompleteExactlyAtTheLastByte(r: Request, n: nat)
    requires WellFormed(r) && n <= |Print(r)|
    ensures IsCompleteHttpRequest(Print(r)[..n]) <==> n == |Print(r)|
  {
    hide WellFormed, Lines, Split, Join, ContentLength;
    var s, head := Print(r), Join(Lines(r), CRLF);
    LinesAreGood(r);
    PrintedLengthFound(r);
    HeadEndsAtBlankLine(Lines(r), r.body);
    assert s[..|head|] == head;
    var p := s[..n];
    assert p + s[n..] == s;
    if n == |s| { assert p == s; }
    if Find(p, BLANK_LINE).Some? {
      FoundInPrefix(p, s[n..], BLANK_LINE);
      assert p[..|head|] == head;
    }
  }

  lemma {:induction false} ReceivedGrows(chunks: seq<Chunk>, k: nat, n: nat)
    requires k <= n <= |chunks|
    ensures Received(chunks, k) <= Received(chunks, n)
  {
    if k < n { ReceivedGrows(chunks, k, n - 1); }
  }

  /**
   However the bytes of a well-formed request are cut into chunks, receiving stops after the chunk with its last byte
   and not before, as long as the stream does not end early.
   */
  lemma {:induction false} ReceivingStopsAtTheLastByte(r: Request, chunks: seq<Chunk>, k: nat)
    requires WellFormed(r) && 0 < k <= |chunks|
    requires Received(chunks, |chunks|) == Print(r)
    requires forall i :: 0 <= i < |chunks| ==> chunks[i].data != "" && !chunks[i].isComplete
    ensures StopsAfter(chunks, k) <==> k == |chunks|
  {
    hide WellFormed, Print, IsCompleteHttpRequest;
    ReceivedGrows(chunks, k, |chunks|);
    var p := Received(chunks, k);
    assert p == Print(r)[..|p|];
    CompleteExactlyAtTheLastByte(r, |p|);
    if k < |chunks| { ReceivedStrictly(chunks, k); }
  }

  lemma {:induction false} ReceivedStrictly(chunks: seq<Chunk>, k: nat)
    requires k < |chunks| && forall i :: 0 <= i < |chunks| ==> chunks[i].data != ""
    ensures |Received(chunks, k)| < |Received(chunks, |chunks|)|
  {
    ReceivedGrows(chunks, k + 1, |chunks|);
  }

  lemma {:induction false} HeadersRead(headers: seq<Header>, n: nat)
    requires n <= |headers| && forall k :: 0 <= k < |headers| ==> WellFormedHeader(headers[k])
    ensures HeadersOf(HeaderLines(headers), n) == HeaderMap(headers, n)
  {
    hide WellFormedHeader, Lower, HeaderLine, HeaderRead;
    if n > 0 {
      HeadersRead(headers, n - 1);
      PrintedHeaderRead(HeaderMap(headers, n - 1), headers[n - 1]);
    }
  }

  lemma {:induction false} PrintedHeaderRead(before: map<string, string>, h: Header)
    requires WellFormedHeader(h)
    ensures HeaderRead(before, HeaderLine(h)) == before[Lower(h.name) := h.value]
  {
    hide WellFormedHeader, Lower, Trim;
    HeaderLineParts(h);
    assert |HeaderLine(h)| > |h.name|;
  }

  lemma {:induction false} FirstWords(r: Request)
    requires WellFormed(r)
    ensures var words := Words(RequestLine(r)); |words| >= 2 && words[0] == r.verb && words[1] == r.path
  {
    hide Words, Has;
    var rest := " " + (r.path + " HTTP/1.1");
    assert r.verb + rest == RequestLine(r);
    WordRead(r.verb, rest);
    assert rest[1..] == r.path + " HTTP/1.1";
    WordRead(r.path, " HTTP/1.1");
  }

  lemma {:induction false} WordRead(word: string, rest: string)
    requires word != "" && !Has(word, ' ') && rest != "" && rest[0] == ' '
    ensures Words(word + rest) == [word] + Words(rest[1..])
  {
    var s := word + rest;
    assert forall k :: 0 <= k < |word| ==> s[k] == word[k] != ' ';
    assert s[|word|] == ' ';
    assert IndexOfChar(s, ' ') == |word|;
    assert s[..|word|] == word && s[|word|..] == rest;
  }

  lemma {:induction false} BodyRejoins(head: string, body: string)
    requires Find(head + BLANK_LINE + body, BLANK_LINE) == Some(|head|)
    ensures var parts := Split(head + BLANK_LINE + body, BLANK_LINE);
      parts[0] == head && Join(parts[1..], BLANK_LINE) == body
  {
    var s := head + BLANK_LINE + body;
    assert s[..|head|] == head && s[|head| + 4..] == body;
    JoinSplit(body, BLANK_LINE);
    assert Split(s, BLANK_LINE)[1..] == Split(body, BLANK_LINE);
  }

  /**
   Routing hands on the method, path, lower-cased headers and body that were printed, blank lines in the body
   included.
   */
  lemma {:induction false} RouteRecoversTheRequest(r: Request)
    requires WellFormed(r)
    ensures RouteOf(Print(r)) == Routed(r.verb, r.path, HeaderMap(r.headers, |r.headers|), r.body)
  {
    hide *;
    PrintedParts(r);
    LinesOf(r);
    FirstWords(r);
    HeadersRead(r.headers, |r.headers|);
    RouteFromParts(Print(r), Join(Lines(r), CRLF), Lines(r), r.body);
    HeaderLinesCount(r);
  }

  lemma {:induction false} HeaderLinesCount(r: Request)
    ensures |Lines(r)| - 1 == |r.headers|
  {
  }

  /** A printed request splits into its head and body, and the head into its lines. */
  lemma {:induction false} PrintedParts(r: Request)
    requires WellFormed(r)
    ensures Split(Print(r), BLANK_LINE)[0] == Join(Lines(r), CRLF)
    ensures Join(Split(Print(r), BLANK_LINE)[1..], BLANK_LINE) == r.body
    ensures Split(Join(Lines(r), CRLF), CRLF) == Lines(r)
  {
    hide WellFormed, Lines, Split, Join, Find;
    LinesAreGood(r);
    HeadEndsAtBlankLine(Lines(r), r.body);
    BodyRejoins(Join(Lines(r), CRLF), r.body);
    SplitLines(Lines(r));
  }

  lemma {:induction false} LinesOf(r: Request)
    requires WellFormed(r)
    ensures Lines(r) != [] && Lines(r)[0] == RequestLine(r) && Lines(r)[1..] == HeaderLines(r.headers)
    ensures Print(r) == Join(Lines(r), CRLF) + BLANK_LINE + r.body
    ensures forall k :: 0 <= k < |r.headers| ==> WellFormedHeader(r.headers[k])
  {
    hide Join, RequestLine, HeaderLines, WellFormedHeader, IsLength;
  }

  lemma {:induction false} RouteFromParts(request: string, head: string, lines: seq<string>, body: string)
    requires var parts := Split(request, BLANK_LINE); parts[0] == head && Join(parts[1..], BLANK_LINE) == body
    requires Split(head, CRLF) == lines != [] && |Words(lines[0])| >= 2
    ensures RouteOf(request)
      == Routed(Words(lines[0])[0], Words(lines[0])[1], HeadersOf(lines[1..], |lines| - 1), body)
  {
    hide Split, Join, Words, HeadersOf;
  }
}
