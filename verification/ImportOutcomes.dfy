/**
 What an import does with each data row, and the report that follows from it. The analyzer in the browser and the
 validator on the server were written apart; both are proved against this one definition.
 */
module ImportOutcomes {
  import opened Basics

  datatype RowReason =
    | EmptyRow
    | MalformedRow
    | EmptyUrl
    | EmptyPassword
    | UrlTooLong
    | UsernameTooLong
    | PasswordTooLong
    | NameTooLong
    | UnsupportedNote
    | InvalidUrl
    | UnsupportedUrlScheme

  datatype RowOutcome = Accepted | Malformed(reason: RowReason) | Duplicate(of: nat)

  datatype Issue = RowIssue(rowIndex: nat, reason: RowReason) | DuplicateIssue(rowIndex: nat, duplicateOfRowIndex: nat)

  datatype Counts = Counts(totalRows: nat, acceptedRows: nat, malformedRows: nat, duplicateRows: nat)

  datatype Report = Report(counts: Counts, issues: seq<Issue>)

  /** Data row `k` is row `k + 2` of the file, after the header. */
  const FIRST_DATA_ROW: nat := 2

  datatype Kind = IsAccepted | IsMalformed | IsDuplicate

  function KindOf(o: RowOutcome): Kind {
    match o case Accepted => IsAccepted case Malformed(_) => IsMalformed case Duplicate(_) => IsDuplicate
  }

  /** How many of the first `n` rows have an outcome of the given kind. */
  function Tally(outcomes: seq<RowOutcome>, n: nat, kind: Kind): nat
    requires n <= |outcomes|
  {
    if n == 0 then 0 else Tally(outcomes, n - 1, kind) + if KindOf(outcomes[n - 1]) == kind then 1 else 0
  }

  function IssueOf(rowIndex: nat, o: RowOutcome): seq<Issue> {
    match o
    case Accepted => []
    case Malformed(reason) => [RowIssue(rowIndex, reason)]
    case Duplicate(of) => [DuplicateIssue(rowIndex, of)]
  }

  /** The issues of the first `n` rows, in row order. */
  function IssuesUpTo(outcomes: seq<RowOutcome>, n: nat): seq<Issue>
    requires n <= |outcomes|
  {
    if n == 0 then [] else IssuesUpTo(outcomes, n - 1) + IssueOf(n - 1 + FIRST_DATA_ROW, outcomes[n - 1])
  }

  function ReportOf(outcomes: seq<RowOutcome>): Report {
    var n := |outcomes|;
    Report(
      Counts(n, Tally(outcomes, n, IsAccepted), Tally(outcomes, n, IsMalformed), Tally(outcomes, n, IsDuplicate)),
      IssuesUpTo(outcomes, n))
  }

  /** Every duplicate points back at a row that was accepted. */
  predicate Realizable(outcomes: seq<RowOutcome>) {
    forall k :: 0 <= k < |outcomes| && outcomes[k].Duplicate? ==>
      FIRST_DATA_ROW <= outcomes[k].of < k + FIRST_DATA_ROW && outcomes[outcomes[k].of - FIRST_DATA_ROW].Accepted?
  }

  function CountDuplicateIssues(issues: seq<Issue>): (n: nat)
    ensures n <= |issues|
  {
    if issues == [] then 0
    else CountDuplicateIssues(issues[..|issues| - 1]) + if issues[|issues| - 1].DuplicateIssue? then 1 else 0
  }

  lemma {:induction false} CountDuplicateIssuesAppend(issues: seq<Issue>, i: Issue)
    ensures CountDuplicateIssues(issues + [i]) == CountDuplicateIssues(issues) + if i.DuplicateIssue? then 1 else 0
  {
    assert (issues + [i])[..|issues|] == issues;
  }

  /** Every row has exactly one outcome. */
  lemma {:induction false} OutcomesAddUp(outcomes: seq<RowOutcome>, n: nat)
    requires n <= |outcomes|
    ensures Tally(outcomes, n, IsAccepted) + Tally(outcomes, n, IsMalformed) + Tally(outcomes, n, IsDuplicate) == n
  {
    if n > 0 {
      OutcomesAddUp(outcomes, n - 1);
    }
  }

  lemma {:induction false} IssueOfRow(before: seq<Issue>, rowIndex: nat, o: RowOutcome)
    ensures CountDuplicateIssues(before + IssueOf(rowIndex, o))
      == CountDuplicateIssues(before) + if KindOf(o) == IsDuplicate then 1 else 0
    ensures |IssueOf(rowIndex, o)|
      == (if KindOf(o) == IsMalformed then 1 else 0) + if KindOf(o) == IsDuplicate then 1 else 0
  {
    match o
    case Accepted =>
      assert before + IssueOf(rowIndex, o) == before;
    case Malformed(reason) =>
      CountDuplicateIssuesAppend(before, RowIssue(rowIndex, reason));
    case Duplicate(of) =>
      CountDuplicateIssuesAppend(before, DuplicateIssue(rowIndex, of));
  }

  lemma CountNone()
    ensures CountDuplicateIssues([]) == 0
  {
  }

  /** Every outcome but acceptance has exactly one issue. */
  lemma {:induction false} IssuesAddUp(outcomes: seq<RowOutcome>, n: nat)
    requires n <= |outcomes|
    ensures CountDuplicateIssues(IssuesUpTo(outcomes, n)) == Tally(outcomes, n, IsDuplicate)
    ensures |IssuesUpTo(outcomes, n)| == Tally(outcomes, n, IsMalformed) + Tally(outcomes, n, IsDuplicate)
  {
    hide IssueOf, KindOf, CountDuplicateIssues;
    if n > 0 {
      IssuesAddUp(outcomes, n - 1);
      IssueOfRow(IssuesUpTo(outcomes, n - 1), n - 1 + FIRST_DATA_ROW, outcomes[n - 1]);
    } else {
      CountNone();
    }
  }

  /** Issue `i` is the issue of some row among `outcomes`. */
  predicate TellsOf(i: Issue, outcomes: seq<RowOutcome>) {
    FIRST_DATA_ROW <= i.rowIndex < |outcomes| + FIRST_DATA_ROW
    && IssueOf(i.rowIndex, outcomes[i.rowIndex - FIRST_DATA_ROW]) == [i]
  }

  /** The issues are of rows before row `bound`, in row order, and each is the issue of its own row. */
  predicate InRowOrder(issues: seq<Issue>, outcomes: seq<RowOutcome>, bound: nat) {
    && (forall i :: 0 <= i < |issues| ==> TellsOf(issues[i], outcomes) && issues[i].rowIndex < bound)
    && (forall i, j :: 0 <= i < j < |issues| ==> issues[i].rowIndex < issues[j].rowIndex)
  }

  lemma {:induction false} IssuesFollowRows(outcomes: seq<RowOutcome>, n: nat)
    requires n <= |outcomes|
    ensures InRowOrder(IssuesUpTo(outcomes, n), outcomes, n + FIRST_DATA_ROW)
  {
    if n > 0 {
      IssuesFollowRows(outcomes, n - 1);
      var before, last := IssuesUpTo(outcomes, n - 1), IssueOf(n - 1 + FIRST_DATA_ROW, outcomes[n - 1]);
      var issues := IssuesUpTo(outcomes, n);
      assert issues == before + last;
      forall i | 0 <= i < |issues| ensures TellsOf(issues[i], outcomes) && issues[i].rowIndex < n + FIRST_DATA_ROW {
        if i < |before| {
          assert issues[i] == before[i];
        } else {
          assert last == [issues[i]];
        }
      }
    }
  }

  /** No row that is not accepted goes without its issue. */
  lemma {:induction false} EveryIssueIsListed(outcomes: seq<RowOutcome>, n: nat, k: nat)
    requires k < n <= |outcomes| && !outcomes[k].Accepted?
    ensures IssueOf(k + FIRST_DATA_ROW, outcomes[k])[0] in IssuesUpTo(outcomes, n)
  {
    if k < n - 1 {
      EveryIssueIsListed(outcomes, n - 1, k);
    }
  }
}
