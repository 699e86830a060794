/**
 The report on the wire: how the client writes it (packages/api-client/src/imports.ts), what the server accepts
 (apps/api/src/services/import-service.ts), and how the server splits its issues into two lists.
 */
module ImportReport {
  import opened Basics
  import opened ImportOutcomes
  import Csv
  import BrowserImport

  const MAX_IMPORT_ROWS: int := 3000
  const MAX_SAFE_INTEGER: int := 0x1F_FFFF_FFFF_FFFF
  const BODY_LIMIT: nat := 512 * 1024

  /** A JavaScript number, as far as the validator looks at it. */
  datatype Number = Int(n: int) | NotAnInteger

  datatype WireIssue = WireIssue(rowIndex: Number, reasonCode: string, duplicateOfRowIndex: Option<Number>)

  datatype WireCounts = WireCounts(
    totalRows: Number, acceptedRows: Number, malformedRows: Number, duplicateRows: Number)

  datatype Request = Request(source: string, counts: WireCounts, issues: seq<WireIssue>)

  // ---------------------------------------------------------------------------------------------
  // The client.
  // ---------------------------------------------------------------------------------------------

  function ReasonCode(reason: RowReason): string {
    match reason
    case EmptyRow => "empty_row"
    case MalformedRow => "malformed_row"
    case EmptyUrl => "empty_url"
    case EmptyPassword => "empty_password"
    case UrlTooLong => "url_too_long"
    case UsernameTooLong => "username_too_long"
    case PasswordTooLong => "password_too_long"
    case NameTooLong => "name_too_long"
    case UnsupportedNote => "unsupported_note"
    case InvalidUrl => "invalid_url"
    case UnsupportedUrlScheme => "unsupported_url_scheme"
  }

  function ToWireIssue(i: Issue): WireIssue {
    match i
    case RowIssue(row, reason) => WireIssue(Int(row), ReasonCode(reason), None)
    case DuplicateIssue(row, of) => WireIssue(Int(row), "duplicate", Some(Int(of)))
  }

  function ToWireIssues(issues: seq<Issue>): (r: seq<WireIssue>)
    ensures |r| == |issues|
    ensures forall k :: 0 <= k < |issues| ==> r[k] == ToWireIssue(issues[k])
  {
    if issues == [] then [] else ToWireIssues(issues[..|issues| - 1]) + [ToWireIssue(issues[|issues| - 1])]
  }

  function ToRequest(source: string, report: Report): Request {
    var c := report.counts;
    Request(
      source,
      WireCounts(Int(c.totalRows), Int(c.acceptedRows), Int(c.malformedRows), Int(c.duplicateRows)),
      ToWireIssues(report.issues))
  }

  // ---------------------------------------------------------------------------------------------
  // What the server should accept: exactly the reports of possible imports.
  // ---------------------------------------------------------------------------------------------

  predicate AllowedSource(source: string) {
    source == "chrome" || source == "edge"
  }

  /** The request is the report of the import of at most 3,000 rows with these outcomes. */
  predicate Reports(r: Request, outcomes: seq<RowOutcome>) {
    |outcomes| <= MAX_IMPORT_ROWS && Realizable(outcomes) && r == ToRequest(r.source, ReportOf(outcomes))
  }

  ghost predicate Honest(r: Request) {
    AllowedSource(r.source) && exists outcomes :: Reports(r, outcomes)
  }

  // ---------------------------------------------------------------------------------------------
  // What the server checks.
  // ---------------------------------------------------------------------------------------------

  predicate IsSafeInteger(x: Number) {
    x.Int? && -MAX_SAFE_INTEGER <= x.n <= MAX_SAFE_INTEGER
  }

  predicate IsBoundedCount(x: Number) {
    IsSafeInteger(x) && 0 <= x.n <= MAX_IMPORT_ROWS
  }

  predicate IsLogicalRowIndex(x: Number, totalRows: int) {
    IsSafeInteger(x) && 2 <= x.n <= totalRows + 1
  }

  /** The server's own list of reason codes, apart from `duplicate`. */
  function RowReasonOf(code: string): Option<RowReason> {
    if code == "empty_row" then Some(EmptyRow)
    else if code == "malformed_row" then Some(MalformedRow)
    else if code == "empty_url" then Some(EmptyUrl)
    else if code == "empty_password" then Some(EmptyPassword)
    else if code == "url_too_long" then Some(UrlTooLong)
    else if code == "username_too_long" then Some(UsernameTooLong)
    else if code == "password_too_long" then Some(PasswordTooLong)
    else if code == "name_too_long" then Some(NameTooLong)
    else if code == "unsupported_note" then Some(UnsupportedNote)
    else if code == "invalid_url" then Some(InvalidUrl)
    else if code == "unsupported_url_scheme" then Some(UnsupportedUrlScheme)
    else None
  }

  predicate IsAllowedReasonCode(code: string) {
    RowReasonOf(code).Some? || code == "duplicate"
  }

  /** The checks on one issue. */
  predicate IssueChecks(i: WireIssue, totalRows: int) {
    && IsLogicalRowIndex(i.rowIndex, totalRows)
    && IsAllowedReasonCode(i.reasonCode)
    && if i.reasonCode == "duplicate"
       then i.duplicateOfRowIndex.Some? && IsSafeInteger(i.duplicateOfRowIndex.value)
            && 2 <= i.duplicateOfRowIndex.value.n < i.rowIndex.n
       else i.duplicateOfRowIndex.None?
  }

  /** The checks on the first `n` issues: each on its own, and their rows strictly ascending. */
  predicate IssuesCheck(issues: seq<WireIssue>, n: nat, totalRows: int)
    requires n <= |issues|
  {
    && (forall i :: 0 <= i < n ==> IssueChecks(issues[i], totalRows))
    && (forall i, j :: 0 <= i < j < n ==> issues[i].rowIndex.n < issues[j].rowIndex.n)
  }

  predicate IsDuplicateIssue(i: WireIssue) {
    i.reasonCode == "duplicate"
  }

  function DuplicateCount(issues: seq<WireIssue>, n: nat): (c: nat)
    requires n <= |issues|
    ensures c <= n
  {
    if n == 0 then 0 else DuplicateCount(issues, n - 1) + if IsDuplicateIssue(issues[n - 1]) then 1 else 0
  }

  /** No duplicate names a row that has an issue itself. */
  predicate TargetsHaveNoIssue(issues: seq<WireIssue>, totalRows: int)
    requires IssuesCheck(issues, |issues|, totalRows)
  {
    forall i, j :: 0 <= i < |issues| && 0 <= j < |issues| && IsDuplicateIssue(issues[i]) ==>
      issues[i].duplicateOfRowIndex.value != issues[j].rowIndex
  }

  predicate CountsMatch(c: WireCounts, issues: seq<WireIssue>)
    requires c.totalRows.Int? && c.acceptedRows.Int? && c.malformedRows.Int? && c.duplicateRows.Int?
  {
    && c.acceptedRows.n + c.malformedRows.n + c.duplicateRows.n == c.totalRows.n
    && |issues| == c.malformedRows.n + c.duplicateRows.n
    && DuplicateCount(issues, |issues|) == c.duplicateRows.n
  }

  predicate CountsAreBounded(c: WireCounts) {
    IsBoundedCount(c.totalRows) && IsBoundedCount(c.acceptedRows)
    && IsBoundedCount(c.malformedRows) && IsBoundedCount(c.duplicateRows)
  }

  predicate Checks(r: Request) {
    && AllowedSource(r.source)
    && CountsAreBounded(r.counts)
    && |r.issues| <= MAX_IMPORT_ROWS
    && IssuesCheck(r.issues, |r.issues|, r.counts.totalRows.n)
    && CountsMatch(r.counts, r.issues)
    && TargetsHaveNoIssue(r.issues, r.counts.totalRows.n)
  }

  // ---------------------------------------------------------------------------------------------
  // Honest requests pass the checks.
  // ---------------------------------------------------------------------------------------------

  /** The client's codes and the server's list are the same, and none is `duplicate`. */
  lemma {:induction false} ReasonCodesAgree(reason: RowReason)
    ensures RowReasonOf(ReasonCode(reason)) == Some(reason)
    ensures ReasonCode(reason) != "duplicate"
  {
    var code := ReasonCode(reason);
    assert "empty_row"[6] == 'r' && "empty_url"[6] == 'u' && "duplicate"[0] == 'd';
    assert "malformed_row"[0] == 'm' && "name_too_long"[0] == 'n';
    assert "username_too_long"[0] == 'u' && "password_too_long"[0] == 'p';
    match reason
    case EmptyRow => assert code[0] == 'e';
    case EmptyUrl => assert code[0] == 'e' && code[6] == 'u';
    case NameTooLong => assert code[0] == 'n';
    case PasswordTooLong => assert code[0] == 'p';
    case _ =>
  }

  lemma {:induction false} ReasonCodesAgreeBack(code: string)
    requires RowReasonOf(code).Some?
    ensures ReasonCode(RowReasonOf(code).value) == code
  {
  }

  lemma {:induction false} WireDuplicates(issues: seq<Issue>, n: nat)
    requires n <= |issues|
    ensures DuplicateCount(ToWireIssues(issues), n) == CountDuplicateIssues(issues[..n])
  {
    if n > 0 {
      WireDuplicates(issues, n - 1);
      assert issues[..n][..n - 1] == issues[..n - 1];
      if issues[n - 1].RowIssue? { ReasonCodesAgree(issues[n - 1].reason); }
    }
  }

  lemma {:induction false} HonestIssueChecks(outcomes: seq<RowOutcome>, i: Issue)
    requires |outcomes| <= MAX_IMPORT_ROWS && Realizable(outcomes) && TellsOf(i, outcomes)
    ensures IssueChecks(ToWireIssue(i), |outcomes|)
    ensures i.DuplicateIssue? ==> outcomes[i.duplicateOfRowIndex - FIRST_DATA_ROW].Accepted?
  {
    var o := outcomes[i.rowIndex - FIRST_DATA_ROW];
    assert IssueOf(i.rowIndex, o)[0] == i;
    match o
    case Accepted =>
    case Malformed(reason) => ReasonCodesAgree(reason);
    case Duplicate(of) =>
  }

  lemma {:induction false} HonestIssuesCheck(outcomes: seq<RowOutcome>, issues: seq<Issue>)
    requires |outcomes| <= MAX_IMPORT_ROWS && Realizable(outcomes)
    requires InRowOrder(issues, outcomes, |outcomes| + FIRST_DATA_ROW)
    ensures IssuesCheck(ToWireIssues(issues), |issues|, |outcomes|)
  {
    hide Realizable, TellsOf, IssueChecks, RowReasonOf, ReasonCode;
    forall i | 0 <= i < |issues| ensures IssueChecks(ToWireIssue(issues[i]), |outcomes|) {
      HonestIssueChecks(outcomes, issues[i]);
    }
  }

  lemma {:induction false} HonestTargets(outcomes: seq<RowOutcome>, issues: seq<Issue>, i: nat, j: nat)
    requires |outcomes| <= MAX_IMPORT_ROWS && Realizable(outcomes)
    requires InRowOrder(issues, outcomes, |outcomes| + FIRST_DATA_ROW)
    requires i < |issues| && j < |issues| && issues[i].DuplicateIssue?
    ensures issues[i].duplicateOfRowIndex != issues[j].rowIndex
  {
    hide RowReasonOf, ReasonCode;
    HonestIssueChecks(outcomes, issues[i]);
    assert TellsOf(issues[j], outcomes);
  }

  lemma {:induction false} HonestTargetsHaveNoIssue(outcomes: seq<RowOutcome>, issues: seq<Issue>)
    requires |outcomes| <= MAX_IMPORT_ROWS && Realizable(outcomes)
    requires InRowOrder(issues, outcomes, |outcomes| + FIRST_DATA_ROW)
    requires IssuesCheck(ToWireIssues(issues), |issues|, |outcomes|)
    ensures TargetsHaveNoIssue(ToWireIssues(issues), |outcomes|)
  {
    hide Realizable, InRowOrder, RowReasonOf, ReasonCode, IssuesCheck;
    var wire := ToWireIssues(issues);
    forall i, j | 0 <= i < |wire| && 0 <= j < |wire| && IsDuplicateIssue(wire[i])
      ensures wire[i].duplicateOfRowIndex.Some? && wire[i].duplicateOfRowIndex.value != wire[j].rowIndex
    {
      if issues[i].RowIssue? {
        ReasonCodesAgree(issues[i].reason);
      } else {
        HonestTargets(outcomes, issues, i, j);
      }
    }
  }

  lemma {:induction false} HonestCounts(outcomes: seq<RowOutcome>)
    requires |outcomes| <= MAX_IMPORT_ROWS
    ensures var r := ToRequest("", ReportOf(outcomes));
      CountsAreBounded(r.counts) && CountsMatch(r.counts, r.issues) && |r.issues| <= MAX_IMPORT_ROWS
  {
    hide Tally, IssuesUpTo, DuplicateCount, CountDuplicateIssues;
    var n := |outcomes|;
    var issues := IssuesUpTo(outcomes, n);
    OutcomesAddUp(outcomes, n);
    IssuesAddUp(outcomes, n);
    WireDuplicates(issues, |issues|);
    assert issues[..|issues|] == issues;
  }

  lemma {:induction false} HonestPasses(r: Request, outcomes: seq<RowOutcome>)
    requires AllowedSource(r.source) && Reports(r, outcomes)
    ensures Checks(r)
  {
    hide Realizable, InRowOrder, IssuesCheck, TargetsHaveNoIssue, CountsMatch;
    hide CountsAreBounded, Tally, IssuesUpTo, AllowedSource;
    var issues := IssuesUpTo(outcomes, |outcomes|);
    HonestCounts(outcomes);
    IssuesFollowRows(outcomes, |outcomes|);
    HonestIssuesCheck(outcomes, issues);
    HonestTargetsHaveNoIssue(outcomes, issues);
  }

  // ---------------------------------------------------------------------------------------------
  // Requests that pass the checks are honest: the outcomes are rebuilt from the issues.
  // ---------------------------------------------------------------------------------------------

  /** The issue an accepted wire issue stands for. */
  function Decode(i: WireIssue, totalRows: int): (d: Issue)
    requires IssueChecks(i, totalRows)
    ensures d.rowIndex == i.rowIndex.n
  {
    if i.reasonCode == "duplicate" then DuplicateIssue(i.rowIndex.n, i.duplicateOfRowIndex.value.n)
    else RowIssue(i.rowIndex.n, RowReasonOf(i.reasonCode).value)
  }

  function DecodeOutcome(i: WireIssue, totalRows: int): (o: RowOutcome)
    requires IssueChecks(i, totalRows)
    ensures !o.Accepted?
  {
    if i.reasonCode == "duplicate" then Duplicate(i.duplicateOfRowIndex.value.n)
    else Malformed(RowReasonOf(i.reasonCode).value)
  }

  lemma {:induction false} DecodeBack(i: WireIssue, totalRows: int)
    requires IssueChecks(i, totalRows)
    ensures ToWireIssue(Decode(i, totalRows)) == i
    ensures IssueOf(i.rowIndex.n, DecodeOutcome(i, totalRows)) == [Decode(i, totalRows)]
  {
    if i.reasonCode != "duplicate" { ReasonCodesAgreeBack(i.reasonCode); }
  }

  /** The outcomes of the first `n` rows, and how many of the issues they use up. */
  function Rebuild(issues: seq<WireIssue>, n: nat, totalRows: int): (r: (seq<RowOutcome>, nat))
    requires IssuesCheck(issues, |issues|, totalRows)
    ensures |r.0| == n && r.1 <= |issues|
  {
    if n == 0 then ([], 0)
    else
      var (outcomes, c) := Rebuild(issues, n - 1, totalRows);
      if c < |issues| && issues[c].rowIndex.n == n - 1 + FIRST_DATA_ROW
      then (outcomes + [DecodeOutcome(issues[c], totalRows)], c + 1)
      else (outcomes + [Accepted], c)
  }

  /** The first `c` issues are those of the rows before row `bound`. */
  predicate SplitAt(issues: seq<WireIssue>, c: nat, bound: int, totalRows: int)
    requires c <= |issues| && IssuesCheck(issues, |issues|, totalRows)
  {
    && (forall i :: 0 <= i < c ==> issues[i].rowIndex.n < bound)
    && (forall i :: c <= i < |issues| ==> issues[i].rowIndex.n >= bound)
  }

  lemma {:induction false} SplitStep(issues: seq<WireIssue>, c: nat, row: int, totalRows: int)
    requires c <= |issues| && IssuesCheck(issues, |issues|, totalRows)
    requires SplitAt(issues, c, row, totalRows)
    ensures if c < |issues| && issues[c].rowIndex.n == row then SplitAt(issues, c + 1, row + 1, totalRows)
            else SplitAt(issues, c, row + 1, totalRows)
  {
    hide IssueChecks;
  }

  lemma {:induction false} RebuildSplits(issues: seq<WireIssue>, n: nat, totalRows: int)
    requires IssuesCheck(issues, |issues|, totalRows)
    ensures SplitAt(issues, Rebuild(issues, n, totalRows).1, n + FIRST_DATA_ROW, totalRows)
  {
    if n > 0 {
      RebuildSplits(issues, n - 1, totalRows);
      SplitStep(issues, Rebuild(issues, n - 1, totalRows).1, n - 1 + FIRST_DATA_ROW, totalRows);
    }
  }

  lemma {:induction false} IssuesDependOnPrefix(a: seq<RowOutcome>, b: seq<RowOutcome>, n: nat)
    requires n <= |a| && a <= b
    ensures IssuesUpTo(a, n) == IssuesUpTo(b, n)
  {
    if n > 0 { IssuesDependOnPrefix(a, b, n - 1); }
  }

  lemma {:induction false} ToWireIssuesAppend(issues: seq<Issue>, i: Issue)
    ensures ToWireIssues(issues + [i]) == ToWireIssues(issues) + [ToWireIssue(i)]
  {
    assert (issues + [i])[..|issues|] == issues;
  }

  lemma {:induction false} RebuiltIssues(issues: seq<WireIssue>, n: nat, totalRows: int)
    requires IssuesCheck(issues, |issues|, totalRows)
    ensures ToWireIssues(IssuesUpTo(Rebuild(issues, n, totalRows).0, n)) == issues[..Rebuild(issues, n, totalRows).1]
  {
    hide IsAllowedReasonCode, DecodeOutcome, Decode, Rebuild, IssuesUpTo, ToWireIssues;
    if n == 0 {
      RebuildNothing(issues, totalRows);
    } else {
      RebuiltIssues(issues, n - 1, totalRows);
      RebuildStep(issues, n, totalRows);
      var (before, c) := Rebuild(issues, n - 1, totalRows);
      if c < |issues| && issues[c].rowIndex.n == n - 1 + FIRST_DATA_ROW {
        DecodeBack(issues[c], totalRows);
        OneMoreIssue(before, DecodeOutcome(issues[c], totalRows), Decode(issues[c], totalRows));
        assert issues[..c + 1] == issues[..c] + [issues[c]];
      } else {
        OneMoreAccepted(before);
      }
    }
  }

  lemma {:induction false} RebuildNothing(issues: seq<WireIssue>, totalRows: int)
    requires IssuesCheck(issues, |issues|, totalRows)
    ensures ToWireIssues(IssuesUpTo(Rebuild(issues, 0, totalRows).0, 0)) == issues[..Rebuild(issues, 0, totalRows).1]
  {
  }

  lemma {:induction false} RebuildStep(issues: seq<WireIssue>, n: nat, totalRows: int)
    requires IssuesCheck(issues, |issues|, totalRows) && n > 0
    ensures var (before, c) := Rebuild(issues, n - 1, totalRows);
      Rebuild(issues, n, totalRows)
      == if c < |issues| && issues[c].rowIndex.n == n - 1 + FIRST_DATA_ROW
         then (before + [DecodeOutcome(issues[c], totalRows)], c + 1)
         else (before + [Accepted], c)
  {
  }

  lemma {:induction false} OneMoreIssue(before: seq<RowOutcome>, last: RowOutcome, i: Issue)
    requires IssueOf(|before| + FIRST_DATA_ROW, last) == [i]
    ensures ToWireIssues(IssuesUpTo(before + [last], |before| + 1))
         == ToWireIssues(IssuesUpTo(before, |before|)) + [ToWireIssue(i)]
  {
    IssuesDependOnPrefix(before, before + [last], |before|);
    ToWireIssuesAppend(IssuesUpTo(before, |before|), i);
  }

  lemma {:induction false} OneMoreAccepted(before: seq<RowOutcome>)
    ensures IssuesUpTo(before + [Accepted], |before| + 1) == IssuesUpTo(before, |before|)
  {
    IssuesDependOnPrefix(before, before + [Accepted], |before|);
  }

  /** A rebuilt row is either accepted, and then has no issue, or has the outcome of its issue. */
  lemma {:induction false} RebuiltRow(issues: seq<WireIssue>, n: nat, k: nat, totalRows: int)
    requires k < n && IssuesCheck(issues, |issues|, totalRows)
    ensures var o := Rebuild(issues, n, totalRows).0[k];
      if o.Accepted? then forall i :: 0 <= i < |issues| ==> issues[i].rowIndex.n != k + FIRST_DATA_ROW
      else
        exists i :: 0 <= i < |issues| && issues[i].rowIndex.n == k + FIRST_DATA_ROW
          && o == DecodeOutcome(issues[i], totalRows)
  {
    hide IssueChecks, DecodeOutcome;
    if k < n - 1 {
      RebuiltRow(issues, n - 1, k, totalRows);
    } else {
      RebuildSplits(issues, n - 1, totalRows);
    }
  }

  lemma {:induction false} RebuiltIsRealizable(issues: seq<WireIssue>, totalRows: nat)
    requires IssuesCheck(issues, |issues|, totalRows) && TargetsHaveNoIssue(issues, totalRows)
    ensures Realizable(Rebuild(issues, totalRows, totalRows).0)
  {
    var outcomes := Rebuild(issues, totalRows, totalRows).0;
    forall k | 0 <= k < totalRows && outcomes[k].Duplicate?
      ensures FIRST_DATA_ROW <= outcomes[k].of < k + FIRST_DATA_ROW
        && outcomes[outcomes[k].of - FIRST_DATA_ROW].Accepted?
    {
      RebuiltRow(issues, totalRows, k, totalRows);
      var i :| 0 <= i < |issues| && issues[i].rowIndex.n == k + FIRST_DATA_ROW
        && outcomes[k] == DecodeOutcome(issues[i], totalRows);
      assert IssueChecks(issues[i], totalRows);
      RebuiltRow(issues, totalRows, outcomes[k].of - FIRST_DATA_ROW, totalRows);
    }
  }

  /** Every row has been passed, so every issue has been used. */
  lemma {:induction false} RebuildUsesAll(issues: seq<WireIssue>, totalRows: nat)
    requires IssuesCheck(issues, |issues|, totalRows)
    ensures Rebuild(issues, totalRows, totalRows).1 == |issues|
  {
    hide Rebuild;
    RebuildSplits(issues, totalRows, totalRows);
    var c := Rebuild(issues, totalRows, totalRows).1;
    if c < |issues| {
      RowIsInRange(issues, c, totalRows);
    }
  }

  lemma {:induction false} RowIsInRange(issues: seq<WireIssue>, i: nat, totalRows: nat)
    requires IssuesCheck(issues, |issues|, totalRows) && i < |issues|
    ensures issues[i].rowIndex.n < totalRows + FIRST_DATA_ROW
  {
    assert IssueChecks(issues[i], totalRows);
  }

  lemma {:induction false} RebuiltReport(r: Request)
    requires Checks(r)
    ensures r == ToRequest(r.source, ReportOf(Rebuild(r.issues, r.counts.totalRows.n, r.counts.totalRows.n).0))
  {
    hide Rebuild, IssuesCheck, TargetsHaveNoIssue, Tally, IssuesUpTo;
    hide DuplicateCount, CountDuplicateIssues, AllowedSource;
    var n := r.counts.totalRows.n;
    var outcomes := Rebuild(r.issues, n, n).0;
    var issues := IssuesUpTo(outcomes, n);
    RebuildUsesAll(r.issues, n);
    RebuiltIssues(r.issues, n, n);
    assert r.issues[..|r.issues|] == r.issues;
    OutcomesAddUp(outcomes, n);
    IssuesAddUp(outcomes, n);
    WireDuplicates(issues, |issues|);
    assert issues[..|issues|] == issues;
  }

  lemma {:induction false} PassingIsHonest(r: Request)
    requires Checks(r)
    ensures Honest(r)
  {
    var n := r.counts.totalRows.n;
    var outcomes := Rebuild(r.issues, n, n).0;
    assert Reports(r, outcomes) by {
      hide Rebuild, Realizable;
      RebuiltIsRealizable(r.issues, n);
      RebuiltReport(r);
    }
  }

  /** The server's checks are sound and complete: they pass exactly the reports of possible imports. */
  lemma {:induction false} ChecksDecideHonesty(r: Request)
    ensures Checks(r) <==> Honest(r)
  {
    if Checks(r) { PassingIsHonest(r); }
    if Honest(r) {
      var outcomes :| Reports(r, outcomes);
      HonestPasses(r, outcomes);
    }
  }

  // ---------------------------------------------------------------------------------------------
  // The server's validator, in one pass with running counters and then a set of rows.
  // ---------------------------------------------------------------------------------------------

  method ValidateAndRebuild(r: Request) returns (rebuilt: Option<Request>)
    ensures rebuilt == if Checks(r) then Some(r) else None
    ensures rebuilt.Some? <==> Honest(r)
  {
    hide RowReasonOf, ReasonCode, Honest;
    ChecksDecideHonesty(r);
    if !AllowedSource(r.source) {
      return None;
    }
    var c := r.counts;
    if !IsBoundedCount(c.totalRows) || !IsBoundedCount(c.acceptedRows)
       || !IsBoundedCount(c.malformedRows) || !IsBoundedCount(c.duplicateRows) {
      return None;
    }
    if |r.issues| > MAX_IMPORT_ROWS {
      return None;
    }
    var rebuiltIssues := RebuildIssues(r.issues, c.totalRows.n);
    if rebuiltIssues.None? {
      return None;
    }
    var (issues, duplicateCount, malformedCount) := rebuiltIssues.value;
    if c.acceptedRows.n + c.malformedRows.n + c.duplicateRows.n != c.totalRows.n
       || |issues| != c.malformedRows.n + c.duplicateRows.n
       || duplicateCount != c.duplicateRows.n
       || malformedCount != c.malformedRows.n {
      return None;
    }
    var targetsAreFree := TargetsAreFree(issues, c.totalRows.n);
    if !targetsAreFree {
      return None;
    }
    return Some(Request(r.source, WireCounts(c.totalRows, c.acceptedRows, c.malformedRows, c.duplicateRows), issues));
  }

  /** The loop over the issues: the rebuilt issues and the two counters, or nothing at the first bad issue. */
  method RebuildIssues(issueValues: seq<WireIssue>, totalRows: int) returns (r: Option<(seq<WireIssue>, nat, nat)>)
    ensures r == if IssuesCheck(issueValues, |issueValues|, totalRows)
                 then Some((issueValues, DuplicateCount(issueValues, |issueValues|),
                            |issueValues| - DuplicateCount(issueValues, |issueValues|)))
                 else None
  {
    hide RowReasonOf, ReasonCode;
    var rebuiltIssues: seq<WireIssue> := [];
    var previousRowIndex := 1;
    var duplicateCount, malformedCount := 0, 0;
    for k := 0 to |issueValues|
      invariant IssuesCheck(issueValues, k, totalRows)
      invariant rebuiltIssues == issueValues[..k]
      invariant previousRowIndex == if k == 0 then 1 else issueValues[k - 1].rowIndex.n
      invariant duplicateCount == DuplicateCount(issueValues, k) && malformedCount == k - duplicateCount
    {
      var candidate := issueValues[k];
      if !IsLogicalRowIndex(candidate.rowIndex, totalRows)
         || candidate.rowIndex.n <= previousRowIndex
         || !IsAllowedReasonCode(candidate.reasonCode) {
        BadIssue(issueValues, k, totalRows);
        return None;
      }
      previousRowIndex := candidate.rowIndex.n;
      if candidate.reasonCode == "duplicate" {
        if candidate.duplicateOfRowIndex.None?
           || !IsSafeInteger(candidate.duplicateOfRowIndex.value)
           || candidate.duplicateOfRowIndex.value.n < 2
           || candidate.duplicateOfRowIndex.value.n >= candidate.rowIndex.n {
          BadIssue(issueValues, k, totalRows);
          return None;
        }
        duplicateCount := duplicateCount + 1;
        rebuiltIssues := rebuiltIssues +
          [WireIssue(candidate.rowIndex, "duplicate", Some(candidate.duplicateOfRowIndex.value))];
      } else {
        if candidate.duplicateOfRowIndex.Some? {
          BadIssue(issueValues, k, totalRows);
          return None;
        }
        malformedCount := malformedCount + 1;
        rebuiltIssues := rebuiltIssues + [WireIssue(candidate.rowIndex, candidate.reasonCode, None)];
      }
      OneMoreGoodIssue(issueValues, k, totalRows);
    }
    assert issueValues[..|issueValues|] == issueValues;
    return Some((rebuiltIssues, duplicateCount, malformedCount));
  }

  lemma {:induction false} OneMoreGoodIssue(issues: seq<WireIssue>, k: nat, totalRows: int)
    requires k < |issues| && IssuesCheck(issues, k, totalRows) && IssueChecks(issues[k], totalRows)
    requires k > 0 ==> issues[k - 1].rowIndex.n < issues[k].rowIndex.n
    ensures IssuesCheck(issues, k + 1, totalRows)
  {
    hide IsAllowedReasonCode;
    forall i | 0 <= i < k ensures issues[i].rowIndex.n < issues[k].rowIndex.n {
      assert i < k - 1 ==> issues[i].rowIndex.n < issues[k - 1].rowIndex.n;
    }
  }

  /** One bad issue, alone or against the one before it, spoils the list. */
  lemma {:induction false} BadIssue(issues: seq<WireIssue>, k: nat, totalRows: int)
    requires k < |issues| && IssuesCheck(issues, k, totalRows)
    requires !IssueChecks(issues[k], totalRows) || (k > 0 && issues[k].rowIndex.n <= issues[k - 1].rowIndex.n)
    ensures !IssuesCheck(issues, |issues|, totalRows)
  {
    hide IsAllowedReasonCode;
  }

  /** The second loop, against the set of rows that have issues. */
  method TargetsAreFree(issues: seq<WireIssue>, totalRows: int) returns (free: bool)
    requires IssuesCheck(issues, |issues|, totalRows)
    ensures free <==> TargetsHaveNoIssue(issues, totalRows)
  {
    hide RowReasonOf, ReasonCode;
    var issueRows := set i | i in issues :: i.rowIndex;
    for k := 0 to |issues|
      invariant forall i :: 0 <= i < k && IsDuplicateIssue(issues[i]) ==>
        issues[i].duplicateOfRowIndex.value !in issueRows
    {
      if issues[k].reasonCode == "duplicate" && issues[k].duplicateOfRowIndex.value in issueRows {
        return false;
      }
    }
    forall i, j | 0 <= i < |issues| && 0 <= j < |issues| && IsDuplicateIssue(issues[i])
      ensures issues[i].duplicateOfRowIndex.value != issues[j].rowIndex
    {
      assert issues[j].rowIndex in issueRows;
    }
    return true;
  }

  // ---------------------------------------------------------------------------------------------
  // Producer and consumer agree.
  // ---------------------------------------------------------------------------------------------

  /** Every report the analyzer produces is accepted by the server, which rebuilds it unchanged. */
  lemma {:induction false} AnalyzerAndServerAgree(source: string, csv: string, p: BrowserImport.Platform)
    ensures match BrowserImport.AnalysisOf(source, csv, p)
      case Err(_) => true
      case Ok(a) => Checks(ToRequest(source, a.report))
  {
    if BrowserImport.AnalysisOf(source, csv, p).Ok? {
      hide Checks;
      var verdicts := BrowserImport.Judged(source, csv, p).value;
      var outcomes := BrowserImport.Outcomes(verdicts);
      BrowserImport.OutcomesAreRealizable(verdicts);
      BrowserImport.ParsedNonEmpty(BrowserImport.WithoutBom(csv), Csv.Limits(3000, 256));
      var request := ToRequest(source, ReportOf(outcomes));
      assert Reports(request, outcomes);
      HonestPasses(request, outcomes);
    }
  }
}
