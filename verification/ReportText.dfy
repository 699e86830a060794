/** The body of a report says everything: no two reports are sent as the same text, and the text can be told apart. */
module ReportText {
  import opened Basics
  import opened ImportOutcomes
  import opened ImportReport
  import opened ReportDelivery
  import LoopbackHttp

  const DIGITS := {'0', '1', '2', '3', '4', '5', '6', '7', '8', '9'}

  /** The text consists of these characters, and whatever follows it starts with another. */
  predicate Ends(a: string, rest: string, inside: set<char>) {
    && (forall k :: 0 <= k < |a| ==> a[k] in inside)
    && rest != "" && rest[0] !in inside
  }

  function CharAt(s: string, k: nat): Option<char> {
    if k < |s| then Some(s[k]) else None
  }

  lemma {:induction false} InConcat(a: string, b: string, k: nat)
    ensures CharAt(a + b, k) == if k < |a| then CharAt(a, k) else CharAt(b, k - |a|)
  {
  }

  lemma {:induction false} EndsNoLater(a: string, x: string, b: string, y: string, inside: set<char>)
    requires Ends(a, x, inside) && Ends(b, y, inside) && a + x == b + y
    ensures |a| >= |b|
  {
    InConcat(a, x, |a|);
    InConcat(b, y, |a|);
  }

  /** Where two equal texts stop having certain characters, they stop together. */
  lemma {:induction false} EndTogether(a: string, x: string, b: string, y: string, inside: set<char>)
    requires Ends(a, x, inside) && Ends(b, y, inside) && a + x == b + y
    ensures a == b && x == y
  {
    EndsNoLater(a, x, b, y, inside);
    EndsNoLater(b, y, a, x, inside);
    assert a == (a + x)[..|a|] && b == (b + y)[..|b|];
    assert x == (a + x)[|a|..] && y == (b + y)[|b|..];
  }

  lemma {:induction false} DigitsAreInside(n: nat)
    ensures forall k :: 0 <= k < |NatText(n)| ==> NatText(n)[k] in DIGITS
  {
    hide NatText;
    var s := NatText(n);
    forall k | 0 <= k < |s| ensures s[k] in DIGITS { DigitIsInside(s[k]); }
  }

  lemma {:induction false} DigitIsInside(c: char)
    requires '0' <= c <= '9'
    ensures c in DIGITS
  {
    var d := (c - '0') as int;
    assert c == '0' + d as char && 0 <= d < 10;
  }

  /** A number is read back from whatever follows it, if that is no digit. */
  lemma {:induction false} SameNumber(m: nat, x: string, n: nat, y: string)
    requires x != "" && x[0] !in DIGITS && y != "" && y[0] !in DIGITS
    requires NatText(m) + x == NatText(n) + y
    ensures m == n && x == y
  {
    hide NatText;
    DigitsAreInside(m);
    DigitsAreInside(n);
    EndTogether(NatText(m), x, NatText(n), y, DIGITS);
    LoopbackHttp.NumberReadsBack(m);
    LoopbackHttp.NumberReadsBack(n);
  }

  lemma {:induction false} SameAfter(a: string, x: string, y: string)
    requires a + x == a + y
    ensures x == y
  {
    assert x == (a + x)[|a|..] && y == (a + y)[|a|..];
  }

  const CODE_CHARACTERS := {
    'a', 'b', 'c', 'd', 'e', 'f', 'g', 'h', 'i', 'j', 'k', 'l', 'm', 'n', 'o', 'p', 'q', 'r', 's', 't', 'u', 'v', 'w',
    'x', 'y', 'z', '_'
  }

  function CodeOf(i: Issue): string {
    match i case RowIssue(_, reason) => ReasonCode(reason) case DuplicateIssue(_, _) => "duplicate"
  }

  /** What follows the code of an issue. */
  function AfterCode(i: Issue): string {
    match i case RowIssue(_, _) => "\"}" case DuplicateIssue(_, of) => "\"," + DUPLICATE_OF + NatText(of) + "}"
  }

  predicate AllInside(s: string) {
    forall k :: 0 <= k < |s| ==> s[k] in CODE_CHARACTERS
  }

  lemma {:induction false} ShortCodesAreInside()
    ensures AllInside("empty_row") && AllInside("empty_url") && AllInside("duplicate")
  {
  }

  lemma {:induction false} MiddlingCodesAreInside()
    ensures AllInside("malformed_row") && AllInside("invalid_url") && AllInside("url_too_long")
  {
  }

  lemma {:induction false} LongerCodesAreInside()
    ensures AllInside("empty_password") && AllInside("name_too_long")
  {
  }

  lemma {:induction false} LimitCodesAreInside()
    ensures AllInside("username_too_long") && AllInside("password_too_long")
  {
  }

  lemma {:induction false} UnsupportedCodesAreInside()
    ensures AllInside("unsupported_note") && AllInside("unsupported_url_scheme")
  {
  }

  lemma {:induction false} CodesAreInside(i: Issue)
    ensures AllInside(CodeOf(i))
  {
    hide AllInside;
    ShortCodesAreInside();
    MiddlingCodesAreInside();
    LongerCodesAreInside();
    LimitCodesAreInside();
    UnsupportedCodesAreInside();
  }

  lemma {:induction false} SixParts(a: string, b: string, c: string, d: string, e: string, x: string)
    ensures a + b + c + d + e + x == a + (b + (c + (d + (e + x))))
  {
  }

  lemma {:induction false} DuplicateInParts(
    a: string, b: string, c: string, d1: string, d2: string, e: string, f: string, g: string, x: string)
    ensures a + b + c + (d1 + d2) + e + f + g + x == a + (b + (c + (d1 + (d2 + e + f + g + x))))
  {
  }

  lemma {:induction false} DuplicateEndsInAComma()
    ensures DUPLICATE == "duplicate" + "\","
  {
  }

  lemma {:induction false} IssueInParts(i: Issue, x: string)
    ensures IssueJson(i) + x
      == ROW_INDEX + (NatText(i.rowIndex) + (REASON_CODE + (CodeOf(i) + (AfterCode(i) + x))))
  {
    hide NatText, ReasonCode;
    match i
    case RowIssue(row, reason) =>
      SixParts(ROW_INDEX, NatText(row), REASON_CODE, ReasonCode(reason), "\"}", x);
    case DuplicateIssue(row, of) =>
      DuplicateEndsInAComma();
      DuplicateInParts(
        ROW_INDEX, NatText(row), REASON_CODE, "duplicate", "\",", DUPLICATE_OF, NatText(of), "}", x);
  }

  lemma {:induction false} SameIssue(i: Issue, x: string, j: Issue, y: string)
    requires IssueJson(i) + x == IssueJson(j) + y
    ensures i == j && x == y
  {
    hide IssueJson, NatText, CodeOf, AfterCode;
    IssueInParts(i, x);
    IssueInParts(j, y);
    var ci, cj := CodeOf(i) + (AfterCode(i) + x), CodeOf(j) + (AfterCode(j) + y);
    SameAfter(ROW_INDEX, NatText(i.rowIndex) + (REASON_CODE + ci), NatText(j.rowIndex) + (REASON_CODE + cj));
    SameNumber(i.rowIndex, REASON_CODE + ci, j.rowIndex, REASON_CODE + cj);
    SameAfter(REASON_CODE, ci, cj);
    CodesAreInside(i);
    CodesAreInside(j);
    CodeIsClosed(i, x);
    CodeIsClosed(j, y);
    EndTogether(CodeOf(i), AfterCode(i) + x, CodeOf(j), AfterCode(j) + y, CODE_CHARACTERS);
    CodeTellsTheIssue(i, j, x, y);
  }

  lemma {:induction false} CodeIsClosed(i: Issue, x: string)
    ensures AfterCode(i) + x != "" && (AfterCode(i) + x)[0] == '"' && '"' !in CODE_CHARACTERS
  {
    hide NatText;
  }

  lemma {:induction false} CodeTellsTheIssue(i: Issue, j: Issue, x: string, y: string)
    requires CodeOf(i) == CodeOf(j) && AfterCode(i) + x == AfterCode(j) + y && i.rowIndex == j.rowIndex
    ensures i == j && x == y
  {
    hide NatText, ReasonCode;
    if i.RowIssue? { ReasonCodesAgree(i.reason); }
    if j.RowIssue? { ReasonCodesAgree(j.reason); }
    if i.RowIssue? && j.RowIssue? {
      SameAfter("\"}", x, y);
    } else if i.DuplicateIssue? && j.DuplicateIssue? {
      var m, n := i.duplicateOfRowIndex, j.duplicateOfRowIndex;
      AfterDuplicate("\",", DUPLICATE_OF, NatText(m), "}", x);
      AfterDuplicate("\",", DUPLICATE_OF, NatText(n), "}", y);
      SameTarget("\"," + DUPLICATE_OF, m, "}" + x, n, "}" + y);
      SameAfter("}", x, y);
    }
  }

  lemma {:induction false} AfterDuplicate(a: string, b: string, c: string, d: string, x: string)
    ensures a + b + c + d + x == a + b + (c + (d + x))
  {
  }

  lemma {:induction false} SameTarget(head: string, m: nat, x: string, n: nat, y: string)
    requires x != "" && x[0] !in DIGITS && y != "" && y[0] !in DIGITS
    requires head + (NatText(m) + x) == head + (NatText(n) + y)
    ensures m == n && x == y
  {
    hide NatText;
    SameAfter(head, NatText(m) + x, NatText(n) + y);
    SameNumber(m, x, n, y);
  }

  lemma {:induction false} IssuesCons(issues: seq<Issue>)
    requires issues != []
    ensures IssuesJson(issues)
      == IssueJson(issues[0]) + if |issues| == 1 then "" else "," + IssuesJson(issues[1..])
  {
    hide IssueJson;
    var n := |issues|;
    if n > 1 {
      IssuesCons(issues[..n - 1]);
      assert issues[..n - 1][1..] == issues[1..][..n - 2];
      assert issues[1..][n - 2] == issues[n - 1];
      if n == 2 {
        assert issues[..1] == [issues[0]] && IssuesJson(issues[..1]) == IssueJson(issues[0]);
        assert IssuesJson(issues[1..]) == IssueJson(issues[1]);
      } else {
        var a, b, c := IssueJson(issues[0]), IssuesJson(issues[1..][..n - 2]), IssueJson(issues[n - 1]);
        assert IssuesJson(issues[1..]) == b + "," + c;
        assert IssuesJson(issues) == a + ("," + b) + "," + c == a + ("," + (b + "," + c));
      }
    }
  }

  lemma {:induction false} IssueOpens(i: Issue, x: string)
    ensures |IssueJson(i) + x| > 0 && (IssueJson(i) + x)[0] == '{'
  {
    hide NatText, ReasonCode;
  }

  lemma {:induction false} SameIssues(a: seq<Issue>, x: string, b: seq<Issue>, y: string)
    requires IssuesJson(a) + ("]" + x) == IssuesJson(b) + ("]" + y)
    ensures a == b && x == y
    decreases |a|
  {
    hide IssueJson, IssuesJson;
    BothOrNeither(a, x, b, y);
    NoIssuesIsNothing();
    if a == [] || b == [] {
      assert "" + ("]" + x) == "]" + x && "" + ("]" + y) == "]" + y;
      SameAfter("]", x, y);
    } else {
      var ta, tb := TailOf(a, x), TailOf(b, y);
      SplitsOff(a, x);
      SplitsOff(b, y);
      SameIssue(a[0], ta, b[0], tb);
      assert a == [a[0]] + a[1..] && b == [b[0]] + b[1..];
      if |a| > 1 && |b| > 1 {
        SameAfter(",", IssuesJson(a[1..]) + ("]" + x), IssuesJson(b[1..]) + ("]" + y));
        SameIssues(a[1..], x, b[1..], y);
      } else {
        assert ta[0] == (if |a| > 1 then ',' else ']') && tb[0] == (if |b| > 1 then ',' else ']');
        SameAfter("]", x, y);
      }
    }
  }

  function TailOf(issues: seq<Issue>, x: string): string {
    if |issues| <= 1 then "]" + x else "," + (IssuesJson(issues[1..]) + ("]" + x))
  }

  lemma {:induction false} SplitsOff(issues: seq<Issue>, x: string)
    requires issues != []
    ensures IssuesJson(issues) + ("]" + x) == IssueJson(issues[0]) + TailOf(issues, x)
  {
    hide IssueJson, IssuesJson;
    IssuesCons(issues);
    var first := IssueJson(issues[0]);
    if |issues| > 1 {
      var rest := IssuesJson(issues[1..]);
      assert first + ("," + rest) + ("]" + x) == first + ("," + (rest + ("]" + x)));
    } else {
      assert first + "" + ("]" + x) == first + ("]" + x);
    }
  }

  lemma {:induction false} NoIssuesIsNothing()
    ensures IssuesJson([]) == ""
  {
  }

  lemma {:induction false} IssuesOpen(issues: seq<Issue>, x: string)
    ensures CharAt(IssuesJson(issues) + ("]" + x), 0) == Some(if issues == [] then ']' else '{')
  {
    hide IssueJson, IssuesJson;
    if issues == [] {
      NoIssuesIsNothing();
    } else {
      IssuesCons(issues);
      IssueOpens(issues[0], "");
      assert IssueJson(issues[0]) + "" == IssueJson(issues[0]);
    }
  }

  lemma {:induction false} BothOrNeither(a: seq<Issue>, x: string, b: seq<Issue>, y: string)
    requires IssuesJson(a) + ("]" + x) == IssuesJson(b) + ("]" + y)
    ensures a == [] <==> b == []
  {
    hide IssuesJson;
    IssuesOpen(a, x);
    IssuesOpen(b, y);
  }

  lemma {:induction false} NineParts(
    a: string, b: string, c: string, d: string, e: string, f: string, g: string, h: string, i: string, x: string)
    ensures a + b + c + d + e + f + g + h + i + x
      == a + (b + (c + (d + (e + (f + (g + (h + (i + x))))))))
  {
    SixParts(a, b, c, d, e, f + g + h + i + x);
    assert a + b + c + d + e + f + g + h + i + x == a + b + c + d + e + (f + g + h + i + x);
    assert f + g + h + i + x == f + (g + (h + (i + x)));
  }

  lemma {:induction false} CountsInParts(c: Counts, x: string)
    ensures CountsJson(c) + x
      == TOTAL_ROWS + (NatText(c.totalRows) + (ACCEPTED_ROWS + (NatText(c.acceptedRows)
         + (MALFORMED_ROWS + (NatText(c.malformedRows) + (DUPLICATE_ROWS + (NatText(c.duplicateRows) + ("}" + x))))))))
  {
    hide NatText;
    NineParts(TOTAL_ROWS, NatText(c.totalRows), ACCEPTED_ROWS, NatText(c.acceptedRows),
      MALFORMED_ROWS, NatText(c.malformedRows), DUPLICATE_ROWS, NatText(c.duplicateRows), "}", x);
  }

  lemma {:induction false} SameCounts(c: Counts, x: string, d: Counts, y: string)
    requires CountsJson(c) + x == CountsJson(d) + y
    ensures c == d && x == y
  {
    hide CountsJson, NatText;
    CountsInParts(c, x);
    CountsInParts(d, y);
    var c3, d3 := "}" + x, "}" + y;
    var c2, d2 := DUPLICATE_ROWS + (NatText(c.duplicateRows) + c3), DUPLICATE_ROWS + (NatText(d.duplicateRows) + d3);
    var c1, d1 := MALFORMED_ROWS + (NatText(c.malformedRows) + c2), MALFORMED_ROWS + (NatText(d.malformedRows) + d2);
    var c0, d0 := ACCEPTED_ROWS + (NatText(c.acceptedRows) + c1), ACCEPTED_ROWS + (NatText(d.acceptedRows) + d1);
    SameTarget(TOTAL_ROWS, c.totalRows, c0, d.totalRows, d0);
    SameTarget(ACCEPTED_ROWS, c.acceptedRows, c1, d.acceptedRows, d1);
    SameTarget(MALFORMED_ROWS, c.malformedRows, c2, d.malformedRows, d2);
    SameTarget(DUPLICATE_ROWS, c.duplicateRows, c3, d.duplicateRows, d3);
    SameAfter("}", x, y);
  }

  lemma {:induction false} QuoteAndBracketSplitOff()
    ensures REPORT == "\"" + REPORT[1..] && "]}}" == "]" + "}}"
  {
  }

  lemma {:induction false} BodyRegroups(
    a: string, b: string, q: string, c: string, d: string, e: string, f: string, g: string, h: string)
    ensures a + b + (q + c) + d + e + f + (g + h) == a + (b + (q + (c + (d + (e + (f + (g + h)))))))
  {
    var rest := d + e + f + (g + h);
    assert rest == d + (e + (f + (g + h)));
    assert a + b + (q + c) + d + e + f + (g + h) == a + b + (q + c) + rest;
    assert a + b + (q + c) + rest == a + (b + (q + (c + rest)));
  }

  lemma {:induction false} BodyInParts(source: string, r: Report)
    ensures BodyJson(source, r)
      == SOURCE + (source + ("\"" + (REPORT[1..] + (CountsJson(r.counts)
         + (ISSUES + (IssuesJson(r.issues) + ("]" + "}}")))))))
  {
    hide CountsJson, IssuesJson;
    QuoteAndBracketSplitOff();
    BodyRegroups(SOURCE, source, "\"", REPORT[1..], CountsJson(r.counts), ISSUES, IssuesJson(r.issues), "]", "}}");
  }

  lemma {:induction false} SourceIsInside(source: string)
    requires AllowedSource(source)
    ensures AllInside(source)
  {
  }

  /** Two reports of imports are sent as the same body only if they are the same, from the same browser. */
  lemma {:induction false} BodyTellsTheReport(source: string, report: Report, source': string, report': Report)
    requires AllowedSource(source) && AllowedSource(source')
    requires BodyJson(source, report) == BodyJson(source', report')
    ensures source == source' && report == report'
  {
    hide BodyJson, CountsJson, IssuesJson, AllowedSource;
    BodyInParts(source, report);
    BodyInParts(source', report');
    SourceIsInside(source);
    SourceIsInside(source');
    var i, i' := IssuesJson(report.issues) + ("]" + "}}"), IssuesJson(report'.issues) + ("]" + "}}");
    var c, c' := CountsJson(report.counts) + (ISSUES + i), CountsJson(report'.counts) + (ISSUES + i');
    var s, s' := "\"" + (REPORT[1..] + c), "\"" + (REPORT[1..] + c');
    SameAfter(SOURCE, source + s, source' + s');
    EndTogether(source, s, source', s', CODE_CHARACTERS);
    SameAfter("\"", REPORT[1..] + c, REPORT[1..] + c');
    SameAfter(REPORT[1..], c, c');
    SameCounts(report.counts, ISSUES + i, report'.counts, ISSUES + i');
    SameAfter(ISSUES, i, i');
    SameIssues(report.issues, "}}", report'.issues, "}}");
  }
}
