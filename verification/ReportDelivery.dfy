/**
 The two ends of a report's journey: the JSON body the client sends (packages/api-client/src/imports.ts), which must
 stay under the route's body limit, and the two issue lists the server stores (apps/api/src/services/import-service.ts).
 */
module ReportDelivery {
  import opened Basics
  import opened ImportOutcomes
  import opened ImportReport
  import BrowserImport
  import Csv

  // ---------------------------------------------------------------------------------------------
  // The server stores duplicates and malformed rows apart.
  // ---------------------------------------------------------------------------------------------

  /** The issues among the first `n` that are, or are not, duplicates. */
  function Only(duplicates: bool, issues: seq<WireIssue>, n: nat): seq<WireIssue>
    requires n <= |issues|
  {
    if n == 0 then []
    else Only(duplicates, issues, n - 1) + if IsDuplicateIssue(issues[n - 1]) == duplicates then [issues[n - 1]] else []
  }

  lemma {:induction false} OnlyKeeps(duplicates: bool, issues: seq<WireIssue>, n: nat)
    requires n <= |issues|
    ensures forall i :: i in Only(duplicates, issues, n) <==>
      i in issues[..n] && (i.reasonCode == "duplicate") == duplicates
  {
    if n > 0 {
      OnlyKeeps(duplicates, issues, n - 1);
      assert issues[..n] == issues[..n - 1] + [issues[n - 1]];
    }
  }

  method SplitIssues(issues: seq<WireIssue>) returns (duplicates: seq<WireIssue>, malformedRows: seq<WireIssue>)
    ensures duplicates == Only(true, issues, |issues|) && malformedRows == Only(false, issues, |issues|)
    ensures forall i :: i in duplicates <==> i in issues && i.reasonCode == "duplicate"
    ensures forall i :: i in malformedRows <==> i in issues && i.reasonCode != "duplicate"
  {
    OnlyKeeps(true, issues, |issues|);
    OnlyKeeps(false, issues, |issues|);
    assert issues[..|issues|] == issues;
    duplicates, malformedRows := [], [];
    for k := 0 to |issues|
      invariant duplicates == Only(true, issues, k) && malformedRows == Only(false, issues, k)
    {
      if issues[k].reasonCode == "duplicate" {
        duplicates := duplicates + [issues[k]];
      } else {
        malformedRows := malformedRows + [issues[k]];
      }
    }
  }

  predicate Numbered(issues: seq<WireIssue>) {
    forall i :: 0 <= i < |issues| ==> issues[i].rowIndex.Int?
  }

  /** Two lists merged by row index, the later row last. */
  function Merge(a: seq<WireIssue>, b: seq<WireIssue>): seq<WireIssue>
    requires Numbered(a) && Numbered(b)
    decreases |a| + |b|
  {
    if a == [] then b
    else if b == [] then a
    else if a[|a| - 1].rowIndex.n > b[|b| - 1].rowIndex.n then Merge(a[..|a| - 1], b) + [a[|a| - 1]]
    else Merge(a, b[..|b| - 1]) + [b[|b| - 1]]
  }

  /** What is kept from ascending issues lies below any later row. */
  lemma {:induction false} OnlyIsBelow(duplicates: bool, issues: seq<WireIssue>, n: nat, totalRows: int)
    requires n <= |issues| && IssuesCheck(issues, |issues|, totalRows)
    ensures Numbered(Only(duplicates, issues, n))
    ensures n < |issues| ==>
      forall i :: 0 <= i < |Only(duplicates, issues, n)| ==>
        Only(duplicates, issues, n)[i].rowIndex.n < issues[n].rowIndex.n
  {
    hide RowReasonOf;
    if n > 0 {
      OnlyIsBelow(duplicates, issues, n - 1, totalRows);
      assert IssueChecks(issues[n - 1], totalRows);
    }
  }

  lemma {:induction false} MergeLast(a: seq<WireIssue>, b: seq<WireIssue>, last: WireIssue)
    requires Numbered(a) && Numbered(b) && last.rowIndex.Int?
    requires forall i :: 0 <= i < |a| ==> a[i].rowIndex.n < last.rowIndex.n
    requires forall i :: 0 <= i < |b| ==> b[i].rowIndex.n < last.rowIndex.n
    ensures Numbered(a + [last]) && Merge(a + [last], b) == Merge(a, b) + [last]
    ensures Numbered(b + [last]) && Merge(a, b + [last]) == Merge(a, b) + [last]
  {
    assert (a + [last])[..|a|] == a && (b + [last])[..|b|] == b;
    if b == [] { MergeEmpty(a); }
  }

  lemma {:induction false} MergeEmpty(a: seq<WireIssue>)
    requires Numbered(a)
    ensures Merge(a, []) == a
  {
  }

  /** Splitting loses nothing: merging the two lists by row index restores the issues in order. */
  lemma {:induction false} SplitThenMerge(issues: seq<WireIssue>, n: nat, totalRows: int)
    requires n <= |issues| && IssuesCheck(issues, |issues|, totalRows)
    ensures Numbered(Only(true, issues, n)) && Numbered(Only(false, issues, n))
    ensures Merge(Only(true, issues, n), Only(false, issues, n)) == issues[..n]
  {
    hide RowReasonOf, Merge, Numbered, IssueChecks, Only, IsDuplicateIssue;
    OnlyIsBelow(true, issues, n, totalRows);
    OnlyIsBelow(false, issues, n, totalRows);
    if n == 0 {
      MergeNothing(issues);
    } else {
      SplitThenMerge(issues, n - 1, totalRows);
      OnlyIsBelow(true, issues, n - 1, totalRows);
      OnlyIsBelow(false, issues, n - 1, totalRows);
      RowIsNumber(issues, n - 1, totalRows);
      MergeLast(Only(true, issues, n - 1), Only(false, issues, n - 1), issues[n - 1]);
      KeepOne(issues, n);
      assert issues[..n] == issues[..n - 1] + [issues[n - 1]];
    }
  }

  lemma {:induction false} KeepOne(issues: seq<WireIssue>, n: nat)
    requires 0 < n <= |issues|
    ensures var d := IsDuplicateIssue(issues[n - 1]);
      Only(d, issues, n) == Only(d, issues, n - 1) + [issues[n - 1]] && Only(!d, issues, n) == Only(!d, issues, n - 1)
  {
  }

  lemma {:induction false} RowIsNumber(issues: seq<WireIssue>, i: nat, totalRows: int)
    requires i < |issues| && IssuesCheck(issues, |issues|, totalRows)
    ensures issues[i].rowIndex.Int?
  {
    hide RowReasonOf;
    assert IssueChecks(issues[i], totalRows);
  }

  lemma {:induction false} MergeNothing(issues: seq<WireIssue>)
    ensures Only(true, issues, 0) == [] == Only(false, issues, 0) && Merge([], []) == []
  {
  }

  // ---------------------------------------------------------------------------------------------
  // The body of a report.
  // ---------------------------------------------------------------------------------------------

  const ROW_INDEX: string := "{\"row_index\":"
  const REASON_CODE: string := ",\"reason_code\":\""
  const DUPLICATE: string := "duplicate\","
  const DUPLICATE_OF: string := "\"duplicate_of_row_index\":"

  function IssueJson(i: Issue): string {
    match i
    case RowIssue(row, reason) => ROW_INDEX + NatText(row) + REASON_CODE + ReasonCode(reason) + "\"}"
    case DuplicateIssue(row, of) =>
      ROW_INDEX + NatText(row) + REASON_CODE + DUPLICATE + DUPLICATE_OF + NatText(of) + "}"
  }

  function IssuesJson(issues: seq<Issue>): string {
    if issues == [] then ""
    else if |issues| == 1 then IssueJson(issues[0])
    else IssuesJson(issues[..|issues| - 1]) + "," + IssueJson(issues[|issues| - 1])
  }

  const TOTAL_ROWS: string := "{\"total_rows\":"
  const ACCEPTED_ROWS: string := ",\"accepted_rows\":"
  const MALFORMED_ROWS: string := ",\"malformed_rows\":"
  const DUPLICATE_ROWS: string := ",\"duplicate_rows\":"

  function CountsJson(c: Counts): string {
    TOTAL_ROWS + NatText(c.totalRows) + ACCEPTED_ROWS + NatText(c.acceptedRows)
    + MALFORMED_ROWS + NatText(c.malformedRows) + DUPLICATE_ROWS + NatText(c.duplicateRows) + "}"
  }

  const SOURCE: string := "{\"source\":\""
  const REPORT: string := "\",\"report\":{\"counts\":"
  const ISSUES: string := ",\"issues\":["

  function BodyJson(source: string, report: Report): string {
    SOURCE + source + REPORT + CountsJson(report.counts) + ISSUES + IssuesJson(report.issues) + "]}}"
  }

  /** At most `n` characters, each one byte in UTF-8. */
  predicate Fits(s: string, n: nat) {
    |s| <= n && forall k :: 0 <= k < |s| ==> s[k] < '\U{80}'
  }

  /** The widest an issue can be printed, for rows of at most four digits. */
  const MAX_ISSUE_CHARS: nat := 74

  lemma {:induction false} Joined(a: string, m: nat, b: string, n: nat)
    requires Fits(a, m) && Fits(b, n)
    ensures Fits(a + b, m + n)
  {
  }

  lemma {:induction false} TwoDigits(n: nat)
    requires n < 100
    ensures |NatText(n)| <= 2
  {
    if n >= 10 { assert NatText(n) == NatText(n / 10) + [DigitChar(n % 10)]; }
  }

  lemma {:induction false} SmallNumbersFit(n: nat)
    requires n < 10000
    ensures Fits(NatText(n), 4)
  {
    if n < 100 {
      TwoDigits(n);
    } else {
      assert NatText(n) == NatText(n / 10) + [DigitChar(n % 10)];
      assert NatText(n / 10) == NatText(n / 10 / 10) + [DigitChar(n / 10 % 10)];
      TwoDigits(n / 10 / 10);
    }
  }

  lemma {:induction false} IssueKeysFit()
    ensures Fits(ROW_INDEX, 13) && Fits(REASON_CODE, 16) && Fits("\"}", 2) && Fits("}", 1) && Fits(",", 1)
  {
  }

  lemma {:induction false} DuplicateKeyFits()
    ensures Fits(DUPLICATE, 11) && Fits(DUPLICATE_OF, 25)
  {
  }

  lemma {:induction false} CountKeysFit()
    ensures Fits(TOTAL_ROWS, 14) && Fits(ACCEPTED_ROWS, 17) && Fits(MALFORMED_ROWS, 18) && Fits(DUPLICATE_ROWS, 18)
  {
  }

  lemma {:induction false} BodyKeysFit(source: string)
    requires AllowedSource(source)
    ensures Fits(SOURCE, 11) && Fits(source, 6) && Fits(REPORT, 22) && Fits(ISSUES, 11) && Fits("]}}", 3)
  {
  }

  lemma {:induction false} ReasonCodesFit()
    ensures Fits(ReasonCode(EmptyRow), 22) && Fits(ReasonCode(MalformedRow), 22) && Fits(ReasonCode(EmptyUrl), 22)
    ensures Fits(ReasonCode(EmptyPassword), 22) && Fits(ReasonCode(UrlTooLong), 22)
  {
  }

  lemma {:induction false} LongReasonCodesFit()
    ensures Fits(ReasonCode(UsernameTooLong), 22) && Fits(ReasonCode(PasswordTooLong), 22)
    ensures Fits(ReasonCode(NameTooLong), 22) && Fits(ReasonCode(UnsupportedNote), 22)
  {
  }

  lemma {:induction false} UrlReasonCodesFit()
    ensures Fits(ReasonCode(InvalidUrl), 22) && Fits(ReasonCode(UnsupportedUrlScheme), 22)
  {
  }

  lemma {:induction false} ReasonCodeFits(reason: RowReason)
    ensures Fits(ReasonCode(reason), 22)
  {
    hide Fits, ReasonCode;
    ReasonCodesFit();
    LongReasonCodesFit();
    UrlReasonCodesFit();
  }

  predicate SmallRows(i: Issue) {
    i.rowIndex < 10000 && (i.DuplicateIssue? ==> i.duplicateOfRowIndex < 10000)
  }

  lemma {:induction false} IssueFits(i: Issue)
    requires SmallRows(i)
    ensures Fits(IssueJson(i), MAX_ISSUE_CHARS)
  {
    hide Fits, NatText, ReasonCode;
    SmallNumbersFit(i.rowIndex);
    IssueKeysFit();
    var start := ROW_INDEX + NatText(i.rowIndex);
    Joined(ROW_INDEX, 13, NatText(i.rowIndex), 4);
    match i
    case RowIssue(_, reason) =>
      ReasonCodeFits(reason);
      Joined(start, 17, REASON_CODE, 16);
      Joined(start + REASON_CODE, 33, ReasonCode(reason), 22);
      Joined(start + REASON_CODE + ReasonCode(reason), 55, "\"}", 2);
      Widen(IssueJson(i), 57, MAX_ISSUE_CHARS);
    case DuplicateIssue(_, of) =>
      SmallNumbersFit(of);
      DuplicateKeyFits();
      Joined(start, 17, REASON_CODE, 16);
      Joined(start + REASON_CODE, 33, DUPLICATE, 11);
      Joined(start + REASON_CODE + DUPLICATE, 44, DUPLICATE_OF, 25);
      Joined(start + REASON_CODE + DUPLICATE + DUPLICATE_OF, 69, NatText(of), 4);
      Joined(start + REASON_CODE + DUPLICATE + DUPLICATE_OF + NatText(of), 73, "}", 1);
  }

  lemma {:induction false} Widen(s: string, m: nat, n: nat)
    requires Fits(s, m) && m <= n
    ensures Fits(s, n)
  {
  }

  lemma {:induction false} IssuesFit(issues: seq<Issue>)
    requires forall k :: 0 <= k < |issues| ==> SmallRows(issues[k])
    ensures Fits(IssuesJson(issues), (MAX_ISSUE_CHARS + 1) * |issues|)
  {
    hide IssueJson, Fits, SmallRows;
    if issues == [] {
      NothingFits();
    } else {
      var last := IssueJson(issues[|issues| - 1]);
      IssueFits(issues[|issues| - 1]);
      if |issues| == 1 {
        Widen(last, MAX_ISSUE_CHARS, MAX_ISSUE_CHARS + 1);
      } else {
        var before, m := IssuesJson(issues[..|issues| - 1]), (MAX_ISSUE_CHARS + 1) * (|issues| - 1);
        IssuesFit(issues[..|issues| - 1]);
        IssueKeysFit();
        Joined(before, m, ",", 1);
        Joined(before + ",", m + 1, last, MAX_ISSUE_CHARS);
      }
    }
  }

  lemma {:induction false} NothingFits()
    ensures Fits("", 0)
  {
  }

  lemma {:induction false} CountsFit(c: Counts)
    requires c.totalRows < 10000 && c.acceptedRows < 10000 && c.malformedRows < 10000 && c.duplicateRows < 10000
    ensures Fits(CountsJson(c), 84)
  {
    hide Fits, NatText;
    SmallNumbersFit(c.totalRows);
    SmallNumbersFit(c.acceptedRows);
    SmallNumbersFit(c.malformedRows);
    SmallNumbersFit(c.duplicateRows);
    CountKeysFit();
    IssueKeysFit();
    var total := TOTAL_ROWS + NatText(c.totalRows);
    Joined(TOTAL_ROWS, 14, NatText(c.totalRows), 4);
    Joined(total, 18, ACCEPTED_ROWS, 17);
    var accepted := total + ACCEPTED_ROWS + NatText(c.acceptedRows);
    Joined(total + ACCEPTED_ROWS, 35, NatText(c.acceptedRows), 4);
    Joined(accepted, 39, MALFORMED_ROWS, 18);
    var malformed := accepted + MALFORMED_ROWS + NatText(c.malformedRows);
    Joined(accepted + MALFORMED_ROWS, 57, NatText(c.malformedRows), 4);
    Joined(malformed, 61, DUPLICATE_ROWS, 18);
    Joined(malformed + DUPLICATE_ROWS, 79, NatText(c.duplicateRows), 4);
    Joined(malformed + DUPLICATE_ROWS + NatText(c.duplicateRows), 83, "}", 1);
  }

  lemma {:induction false} BodyFits(source: string, report: Report)
    requires AllowedSource(source)
    requires Fits(CountsJson(report.counts), 84)
    requires Fits(IssuesJson(report.issues), (MAX_ISSUE_CHARS + 1) * |report.issues|)
    ensures Fits(BodyJson(source, report), 137 + (MAX_ISSUE_CHARS + 1) * |report.issues|)
  {
    hide Fits, CountsJson, IssuesJson;
    BodyKeysFit(source);
    var counts, issues := CountsJson(report.counts), IssuesJson(report.issues);
    var m := (MAX_ISSUE_CHARS + 1) * |report.issues|;
    Joined(SOURCE, 11, source, 6);
    Joined(SOURCE + source, 17, REPORT, 22);
    Joined(SOURCE + source + REPORT, 39, counts, 84);
    Joined(SOURCE + source + REPORT + counts, 123, ISSUES, 11);
    Joined(SOURCE + source + REPORT + counts + ISSUES, 134, issues, m);
    Joined(SOURCE + source + REPORT + counts + ISSUES + issues, 134 + m, "]}}", 3);
  }

  /** The route's body limit never refuses the report of an import: 3,000 issues come to less than half of it. */
  lemma {:induction false} HonestReportsFitTheBodyLimit(source: string, outcomes: seq<RowOutcome>)
    requires AllowedSource(source) && |outcomes| <= MAX_IMPORT_ROWS && Realizable(outcomes)
    ensures Fits(BodyJson(source, ReportOf(outcomes)), BODY_LIMIT / 2)
  {
    hide Fits, BodyJson, CountsJson, IssuesJson, Tally, IssuesUpTo, CountDuplicateIssues;
    var report, n := ReportOf(outcomes), |outcomes|;
    OutcomesAddUp(outcomes, n);
    IssuesAddUp(outcomes, n);
    CountsFit(report.counts);
    IssuesFollowRows(outcomes, n);
    forall k | 0 <= k < |report.issues| ensures SmallRows(report.issues[k]) {
      HonestIssueChecks(outcomes, report.issues[k]);
    }
    IssuesFit(report.issues);
    BodyFits(source, report);
    Widen(BodyJson(source, report), 137 + (MAX_ISSUE_CHARS + 1) * |report.issues|, BODY_LIMIT / 2);
  }

  /** So every report the analyzer produces reaches the server. */
  lemma {:induction false} AnalyzerReportsFitTheBodyLimit(source: string, csv: string, p: BrowserImport.Platform)
    ensures match BrowserImport.AnalysisOf(source, csv, p)
      case Err(_) => true
      case Ok(a) => Fits(BodyJson(source, a.report), BODY_LIMIT / 2)
  {
    if BrowserImport.AnalysisOf(source, csv, p).Ok? {
      hide Fits, BodyJson, Realizable, ReportOf, BrowserImport.Outcomes;
      var verdicts := BrowserImport.Judged(source, csv, p).value;
      BrowserImport.OutcomesAreRealizable(verdicts);
      BrowserImport.ParsedNonEmpty(BrowserImport.WithoutBom(csv), Csv.Limits(3000, 256));
      HonestReportsFitTheBodyLimit(source, BrowserImport.Outcomes(verdicts));
    }
  }
}
