/**
 The rules of the browser import, stated over the cells of the parsed file: where a cell is found, which checks a row
 must pass and in which order, what an accepted entry is made of, and when the whole file is refused. The analysis of
 `BrowserImport` is proved to follow them.
 */
module ImportRules {
  import opened Basics
  import opened Csv
  import opened ImportOutcomes
  import opened BrowserImport

  // ---------------------------------------------------------------------------------------------
  // Cells.
  // ---------------------------------------------------------------------------------------------

  /** `b` is `a` with its ASCII capitals made small. */
  predicate LowersTo(a: string, b: string) {
    |a| == |b|
    && forall k :: 0 <= k < |a| ==>
         if 'A' <= a[k] <= 'Z' then b[k] as int == a[k] as int + 32 else b[k] == a[k]
  }

  /** Column `c` of the header record has this name, apart from capitals and blanks around it. */
  predicate IsColumn(header: seq<string>, c: nat, name: string, p: Platform) {
    c < |header| && LowersTo(p.trim(header[c]), name)
  }

  ghost predicate HasColumn(header: seq<string>, name: string, p: Platform) {
    exists c: nat :: IsColumn(header, c, name, p)
  }

  /** The cell of a row under a column; a row may be shorter than the header. */
  function At(values: seq<string>, c: nat): string {
    if c < |values| then values[c] else ""
  }

  /** `cell` is the row's cell under the column with this name, and empty when there is no such column. */
  ghost predicate IsCell(header: seq<string>, values: seq<string>, name: string, cell: string, p: Platform) {
    && (forall c: nat :: IsColumn(header, c, name, p) ==> cell == At(values, c))
    && (!HasColumn(header, name, p) ==> cell == "")
  }

  datatype Cells = Cells(url: string, username: string, password: string, name: string, note: string)

  ghost predicate AreCells(header: seq<string>, values: seq<string>, cells: Cells, p: Platform) {
    && IsCell(header, values, "url", cells.url, p)
    && IsCell(header, values, "username", cells.username, p)
    && IsCell(header, values, "password", cells.password, p)
    && IsCell(header, values, "name", cells.name, p)
    && IsCell(header, values, "note", cells.note, p)
  }

  // ---------------------------------------------------------------------------------------------
  // Checks, in order.
  // ---------------------------------------------------------------------------------------------

  function Username(cells: Cells, p: Platform): string {
    p.normalizeNfc(p.trim(cells.username))
  }

  predicate TooLong(raw: string, used: string, limit: nat, p: Platform) {
    p.utf8ByteLength(raw) > limit || p.utf8ByteLength(used) > limit
  }

  /** The check behind each reason. */
  predicate Fails(reason: RowReason, record: ParsedRecord, cells: Cells, p: Platform) {
    var url := p.trim(cells.url);
    match reason
    case EmptyRow =>
      (forall k :: 0 <= k < |record.values| ==> record.values[k] == "") && !record.discardedFieldHasContent
    case MalformedRow => record.hasExtraFields
    case EmptyUrl => url == ""
    case EmptyPassword => cells.password == ""
    case UrlTooLong => TooLong(cells.url, url, 8 * 1024, p)
    case UsernameTooLong => TooLong(cells.username, Username(cells, p), 4 * 1024, p)
    case PasswordTooLong => TooLong(cells.password, cells.password, 16 * 1024, p)
    case NameTooLong => TooLong(cells.name, p.trim(cells.name), 4 * 1024, p)
    case UnsupportedNote => cells.note != ""
    case InvalidUrl => p.parseUrl(url).None?
    case UnsupportedUrlScheme =>
      && p.parseUrl(url).Some?
      && p.parseUrl(url).value.protocol != "http:" && p.parseUrl(url).value.protocol != "https:"
  }

  /** The place of a check in their order. */
  function Rank(reason: RowReason): nat {
    match reason
    case EmptyRow => 0
    case MalformedRow => 1
    case EmptyUrl => 2
    case EmptyPassword => 3
    case UrlTooLong => 4
    case UsernameTooLong => 5
    case PasswordTooLong => 6
    case NameTooLong => 7
    case UnsupportedNote => 8
    case InvalidUrl => 9
    case UnsupportedUrlScheme => 10
  }

  ghost predicate FirstToFail(reason: RowReason, record: ParsedRecord, cells: Cells, p: Platform) {
    Fails(reason, record, cells, p)
    && forall earlier :: Rank(earlier) < Rank(reason) ==> !Fails(earlier, record, cells, p)
  }

  ghost predicate PassesAll(record: ParsedRecord, cells: Cells, p: Platform) {
    forall reason :: !Fails(reason, record, cells, p)
  }

  /** What a row that passes is: the origin of its address, the normal form of its username, its password as it is. */
  ghost predicate IsLogin(login: Login, cells: Cells, p: Platform) {
    && p.parseUrl(p.trim(cells.url)).Some?
    && login.websiteOrigin == p.parseUrl(p.trim(cells.url)).value.origin
    && login.username == p.normalizeNfc(p.trim(cells.username))
    && login.password == cells.password
    && login.name == p.trim(cells.name)
  }

  // ---------------------------------------------------------------------------------------------
  // One row is judged by the rules.
  // ---------------------------------------------------------------------------------------------

  lemma {:induction false} LoweredIsLowersTo(a: string, b: string)
    ensures AsciiLower(a) == b <==> LowersTo(a, b)
  {
  }

  lemma {:induction false} NormalizedIsColumn(header: seq<string>, name: string, p: Platform)
    ensures |NormalizeHeaders(header, p)| == |header|
    ensures forall c: nat :: IsColumn(header, c, name, p) <==> c < |header| && NormalizeHeaders(header, p)[c] == name
    ensures HasColumn(header, name, p) <==> name in NormalizeHeaders(header, p)
  {
    hide AsciiLower, LowersTo;
    forall c: nat | c < |header| ensures IsColumn(header, c, name, p) <==> NormalizeHeaders(header, p)[c] == name {
      LoweredIsLowersTo(p.trim(header[c]), name);
    }
    if name in NormalizeHeaders(header, p) {
      var c: nat :| c < |header| && NormalizeHeaders(header, p)[c] == name;
      assert IsColumn(header, c, name, p);
    }
  }

  lemma {:induction false} ValueForIsCell(header: seq<string>, values: seq<string>, name: string, p: Platform)
    requires Distinct(NormalizeHeaders(header, p))
    ensures IsCell(header, values, name, ValueFor(NormalizeHeaders(header, p), values, name), p)
  {
    hide NormalizeHeaders, IsColumn, HasColumn;
    NormalizedIsColumn(header, name, p);
    var headers := NormalizeHeaders(header, p);
    var i := IndexOf(headers, name);
    assert headers[..|headers|] == headers;
    forall c: nat | IsColumn(header, c, name, p) ensures c == i {
      assert headers[c] == name && name in headers;
    }
  }

  /** A row has one cell under each name. */
  lemma {:induction false} CellIsUnique(
    header: seq<string>, values: seq<string>, name: string, a: string, b: string, p: Platform)
    requires IsCell(header, values, name, a, p) && IsCell(header, values, name, b, p)
    ensures a == b
  {
    if HasColumn(header, name, p) {
      var c: nat :| IsColumn(header, c, name, p);
      assert a == At(values, c) == b;
    }
  }

  lemma {:induction false} CellsAreUnique(header: seq<string>, values: seq<string>, a: Cells, b: Cells, p: Platform)
    requires AreCells(header, values, a, p) && AreCells(header, values, b, p)
    ensures a == b
  {
    hide IsCell;
    CellIsUnique(header, values, "url", a.url, b.url, p);
    CellIsUnique(header, values, "username", a.username, b.username, p);
    CellIsUnique(header, values, "password", a.password, b.password, p);
    CellIsUnique(header, values, "name", a.name, b.name, p);
    CellIsUnique(header, values, "note", a.note, b.note, p);
  }

  function CellsFor(header: seq<string>, values: seq<string>, p: Platform): Cells {
    var headers := NormalizeHeaders(header, p);
    Cells(ValueFor(headers, values, "url"), ValueFor(headers, values, "username"),
          ValueFor(headers, values, "password"), ValueFor(headers, values, "name"), ValueFor(headers, values, "note"))
  }

  lemma {:induction false} CellsForAreCells(header: seq<string>, values: seq<string>, p: Platform)
    requires Distinct(NormalizeHeaders(header, p))
    ensures AreCells(header, values, CellsFor(header, values, p), p)
  {
    hide IsCell, ValueFor, NormalizeHeaders, Distinct;
    ValueForIsCell(header, values, "url", p);
    ValueForIsCell(header, values, "username", p);
    ValueForIsCell(header, values, "password", p);
    ValueForIsCell(header, values, "name", p);
    ValueForIsCell(header, values, "note", p);
  }

  /** The verdict on a row: the first check that fails, or the login its cells make. */
  lemma {:induction false} JudgedByTheRules(header: seq<string>, record: ParsedRecord, p: Platform)
    ensures var cells := CellsFor(header, record.values, p);
      match Judge(NormalizeHeaders(header, p), record, p)
      case Refuse(reason) => FirstToFail(reason, record, cells, p)
      case Candidate(login) => PassesAll(record, cells, p) && IsLogin(login, cells, p)
  {
    hide ValueFor, NormalizeHeaders;
  }

  // ---------------------------------------------------------------------------------------------
  // The whole file.
  // ---------------------------------------------------------------------------------------------

  /** The text after a leading byte-order mark. */
  predicate IsBody(csv: string, body: string) {
    if csv != "" && csv[0] == '\U{FEFF}' then csv == ['\U{FEFF}'] + body else csv == body
  }

  const IMPORT_LIMITS: Limits := Limits(3000, 256)

  ghost predicate RepeatsAHeader(header: seq<string>, p: Platform) {
    exists i, j, name :: 0 <= i < j < |header| && IsColumn(header, i, name, p) && IsColumn(header, j, name, p)
  }

  ghost predicate HasRequiredColumns(header: seq<string>, p: Platform) {
    HasColumn(header, "url", p) && HasColumn(header, "username", p) && HasColumn(header, "password", p)
  }

  /** Why a file is refused, or its header and data rows. */
  ghost predicate IsImport(
    source: string, csv: string, body: string, p: Platform, r: Result<seq<ParsedRecord>, ImportError>)
  {
    if !(source == "chrome" || source == "edge") then r == Err(UnsupportedSource)
    else if p.utf8ByteLength(csv) > 10 * 1024 * 1024 then r == Err(FileTooLarge)
    else if body == "" then r == Err(EmptyCsv)
    else
      match Parsed(body, IMPORT_LIMITS)
      case Err(e) => r == Err(e)
      case Ok(rows) =>
        && rows != []
        && if RepeatsAHeader(rows[0].values, p) then r == Err(DuplicateHeader)
           else if !HasRequiredColumns(rows[0].values, p) then r == Err(MissingRequiredHeader)
           else r == Ok(rows)
  }

  lemma {:induction false} RepeatsExactly(header: seq<string>, p: Platform)
    ensures Distinct(NormalizeHeaders(header, p)) <==> !RepeatsAHeader(header, p)
  {
    hide NormalizeHeaders, IsColumn;
    var headers := NormalizeHeaders(header, p);
    NormalizedIsColumn(header, "", p);
    if !Distinct(headers) {
      var i, j :| 0 <= i < j < |headers| && headers[i] == headers[j];
      NormalizedIsColumn(header, headers[i], p);
      assert IsColumn(header, i, headers[i], p) && IsColumn(header, j, headers[i], p);
    }
    if i, j, name :| 0 <= i < j < |header| && IsColumn(header, i, name, p) && IsColumn(header, j, name, p) {
      NormalizedIsColumn(header, name, p);
      assert headers[i] == headers[j];
    }
  }

  /** The row passes all checks, and this is its login. */
  ghost predicate Offers(header: seq<string>, record: ParsedRecord, login: Login, p: Platform) {
    exists cells ::
      AreCells(header, record.values, cells, p) && PassesAll(record, cells, p) && IsLogin(login, cells, p)
  }

  /** The row is refused for this reason. */
  ghost predicate RefusedFor(header: seq<string>, record: ParsedRecord, reason: RowReason, p: Platform) {
    exists cells :: AreCells(header, record.values, cells, p) && FirstToFail(reason, record, cells, p)
  }

  lemma {:induction false} FirstIsUnique(a: RowReason, b: RowReason, record: ParsedRecord, cells: Cells, p: Platform)
    requires FirstToFail(a, record, cells, p) && FirstToFail(b, record, cells, p)
    ensures a == b
  {
    hide Fails;
    assert Rank(a) == Rank(b);
  }

  /** The verdict says which of the two a row is, and for what. */
  lemma {:induction false} VerdictTells(header: seq<string>, record: ParsedRecord, p: Platform)
    requires Distinct(NormalizeHeaders(header, p))
    ensures var verdict := Judge(NormalizeHeaders(header, p), record, p);
      && (forall reason :: RefusedFor(header, record, reason, p) <==> verdict == Refuse(reason))
      && (forall login :: Offers(header, record, login, p) <==> verdict == Candidate(login))
  {
    hide NormalizeHeaders, AreCells, Judge, Fails, CellsFor;
    var verdict := Judge(NormalizeHeaders(header, p), record, p);
    var cells := CellsFor(header, record.values, p);
    CellsForAreCells(header, record.values, p);
    JudgedByTheRules(header, record, p);
    forall other | AreCells(header, record.values, other, p) ensures other == cells {
      CellsAreUnique(header, record.values, cells, other, p);
    }
    forall a, b | FirstToFail(a, record, cells, p) && FirstToFail(b, record, cells, p) ensures a == b {
      FirstIsUnique(a, b, record, cells, p);
    }
  }

  predicate SameAccountAs(a: Login, b: Login) {
    a.websiteOrigin == b.websiteOrigin && a.username == b.username
  }

  /** Row `k` offers this login, and no earlier row offers one for the same account. */
  ghost predicate FirstToOffer(header: seq<string>, rows: seq<ParsedRecord>, k: nat, login: Login, p: Platform) {
    && k < |rows| && Offers(header, rows[k], login, p)
    && forall i: nat, other :: i < k && Offers(header, rows[i], other, p) ==> !SameAccountAs(other, login)
  }

  /** Row `k` offers this login, and row `j` was the first to offer its account. */
  ghost predicate OffersAgain(
    header: seq<string>, rows: seq<ParsedRecord>, k: nat, j: nat, login: Login, first: Login, p: Platform) {
    && j < k < |rows| && Offers(header, rows[k], login, p)
    && FirstToOffer(header, rows, j, first, p) && SameAccountAs(first, login)
  }

  ghost predicate Repeats(header: seq<string>, rows: seq<ParsedRecord>, k: nat, j: nat, p: Platform) {
    exists login, first :: OffersAgain(header, rows, k, j, login, first, p)
  }

  ghost predicate EntryFollows(
    e: AcceptedEntry, source: string, header: seq<string>, rows: seq<ParsedRecord>, p: Platform) {
    && e.source == source && e.rowIndex >= 2 && FirstToOffer(header, rows, e.rowIndex - 2, e.login, p)
  }

  ghost predicate IssueFollows(i: Issue, header: seq<string>, rows: seq<ParsedRecord>, p: Platform) {
    match i
    case RowIssue(row, reason) => 2 <= row < |rows| + 2 && RefusedFor(header, rows[row - 2], reason, p)
    case DuplicateIssue(row, of) =>
      2 <= of < row && Repeats(header, rows, row - 2, of - 2, p)
  }

  /** Entries and issues come in row order, one at most for each row, and the counts are theirs. */
  ghost predicate InOrderAndCounted(a: Analysis) {
    var entries, issues, counts := a.acceptedEntries, a.report.issues, a.report.counts;
    && (forall i, j :: 0 <= i < j < |entries| ==> entries[i].rowIndex < entries[j].rowIndex)
    && (forall i, j :: 0 <= i < j < |issues| ==> issues[i].rowIndex < issues[j].rowIndex)
    && counts.acceptedRows == |entries|
    && counts.duplicateRows == CountDuplicateIssues(issues)
    && counts.malformedRows + counts.duplicateRows == |issues|
  }

  /** The analysis lists an entry or an issue exactly when some row calls for it. */
  ghost predicate Follows(
    a: Analysis, source: string, header: seq<string>, rows: seq<ParsedRecord>, p: Platform) {
    && a.report.counts.totalRows == |rows| && InOrderAndCounted(a)
    && (forall e :: e in a.acceptedEntries <==> EntryFollows(e, source, header, rows, p))
    && (forall i :: i in a.report.issues <==> IssueFollows(i, header, rows, p))
  }

  /** The verdicts of the data rows. */
  predicate AreVerdicts(verdicts: seq<Verdict>, header: seq<string>, rows: seq<ParsedRecord>, p: Platform) {
    |verdicts| == |rows|
    && forall k :: 0 <= k < |rows| ==> verdicts[k] == Judge(NormalizeHeaders(header, p), rows[k], p)
  }

  lemma {:induction false} OffersAreCandidates(
    verdicts: seq<Verdict>, header: seq<string>, rows: seq<ParsedRecord>, k: nat, p: Platform)
    requires k < |rows| && AreVerdicts(verdicts, header, rows, p) && Distinct(NormalizeHeaders(header, p))
    ensures forall login :: Offers(header, rows[k], login, p) <==> verdicts[k] == Candidate(login)
    ensures forall reason :: RefusedFor(header, rows[k], reason, p) <==> verdicts[k] == Refuse(reason)
  {
    hide Judge, NormalizeHeaders, Offers, RefusedFor, Distinct;
    VerdictTells(header, rows[k], p);
  }

  lemma {:induction false} FirstIsAccepted(
    verdicts: seq<Verdict>, header: seq<string>, rows: seq<ParsedRecord>, k: nat, login: Login, p: Platform)
    requires k < |rows| && AreVerdicts(verdicts, header, rows, p) && Distinct(NormalizeHeaders(header, p))
    ensures FirstToOffer(header, rows, k, login, p) <==>
      verdicts[k] == Candidate(login) && OutcomeOf(verdicts, k).Accepted?
  {
    hide AreVerdicts, Offers, NormalizeHeaders, Distinct;
    assert |verdicts| == |rows| by {
      assert AreVerdicts(verdicts, header, rows, p);
      Lengths(verdicts, header, rows, p);
    }
    forall i: nat | i < |rows|
      ensures forall other :: Offers(header, rows[i], other, p) <==> verdicts[i] == Candidate(other)
    {
      OffersAreCandidates(verdicts, header, rows, i, p);
    }
    if verdicts[k] == Candidate(login) {
      var first := FirstFor(verdicts, k, 0);
      if first == k {
        forall i: nat, other | i < k && Offers(header, rows[i], other, p) ensures !SameAccountAs(other, login) {
          assert !SameAccount(verdicts[i], verdicts[k]);
        }
      } else {
        var other := verdicts[first].login;
        assert SameAccount(verdicts[first], verdicts[k]);
        assert verdicts[first] == Candidate(other) && Offers(header, rows[first], other, p);
        assert SameAccountAs(other, login);
      }
    }
  }

  lemma {:induction false} Lengths(
    verdicts: seq<Verdict>, header: seq<string>, rows: seq<ParsedRecord>, p: Platform)
    requires AreVerdicts(verdicts, header, rows, p)
    ensures |verdicts| == |rows|
  {
  }

  /** The entries are exactly the rows that are first to offer their account. */
  lemma {:induction false} EntriesFollow(
    source: string, verdicts: seq<Verdict>, header: seq<string>, rows: seq<ParsedRecord>, e: AcceptedEntry, p: Platform)
    requires AreVerdicts(verdicts, header, rows, p) && Distinct(NormalizeHeaders(header, p))
    ensures e in Entries(source, verdicts, |verdicts|) <==> EntryFollows(e, source, header, rows, p)
  {
    hide AreVerdicts, NormalizeHeaders, Distinct, Entries, OutcomeOf, FirstToOffer;
    Lengths(verdicts, header, rows, p);
    var entries := Entries(source, verdicts, |verdicts|);
    if e in entries {
      var i: nat :| i < |entries| && entries[i] == e;
      EntryIsOfRow(source, verdicts, |verdicts|, i);
      FirstIsAccepted(verdicts, header, rows, e.rowIndex - 2, e.login, p);
    }
    if EntryFollows(e, source, header, rows, p) {
      OfferedIsInRange(header, rows, e.rowIndex - 2, e.login, p);
      FirstIsAccepted(verdicts, header, rows, e.rowIndex - 2, e.login, p);
      AcceptedIsListed(source, verdicts, |verdicts|, e.rowIndex - 2);
    }
  }

  lemma {:induction false} OfferedIsInRange(
    header: seq<string>, rows: seq<ParsedRecord>, k: nat, login: Login, p: Platform)
    requires FirstToOffer(header, rows, k, login, p)
    ensures k < |rows|
  {
  }

  lemma {:induction false} OutcomeFollows(
    verdicts: seq<Verdict>, header: seq<string>, rows: seq<ParsedRecord>, k: nat, i: Issue, p: Platform)
    requires k < |rows| && AreVerdicts(verdicts, header, rows, p) && Distinct(NormalizeHeaders(header, p))
    requires |verdicts| == |rows|
    ensures IssueOf(k + 2, OutcomeOf(verdicts, k)) == [i] <==> i.rowIndex == k + 2 && IssueFollows(i, header, rows, p)
  {
    hide AreVerdicts, NormalizeHeaders, Distinct, Offers, RefusedFor, FirstToOffer, FirstFor;
    OffersAreCandidates(verdicts, header, rows, k, p);
    match i
    case RowIssue(row, reason) =>
    case DuplicateIssue(row, of) =>
      if 2 <= of < row == k + 2 {
        SecondIsDuplicate(verdicts, header, rows, k, of - 2, p);
      } else if OutcomeOf(verdicts, k).Duplicate? {
        DuplicatesPointBack(verdicts, k);
      }
  }

  lemma {:induction false} DuplicatesPointBack(verdicts: seq<Verdict>, k: nat)
    requires k < |verdicts| && OutcomeOf(verdicts, k).Duplicate?
    ensures 2 <= OutcomeOf(verdicts, k).of < k + 2
  {
  }

  lemma {:induction false} SecondIsDuplicate(
    verdicts: seq<Verdict>, header: seq<string>, rows: seq<ParsedRecord>, k: nat, j: nat, p: Platform)
    requires j < k < |rows| && AreVerdicts(verdicts, header, rows, p) && Distinct(NormalizeHeaders(header, p))
    requires |verdicts| == |rows|
    ensures Repeats(header, rows, k, j, p) <==> OutcomeOf(verdicts, k) == Duplicate(j + 2)
  {
    hide AreVerdicts, NormalizeHeaders, Distinct, Offers, RefusedFor, FirstToOffer;
    OffersAreCandidates(verdicts, header, rows, k, p);
    if login, first :| OffersAgain(header, rows, k, j, login, first, p) {
      FirstIsAccepted(verdicts, header, rows, j, first, p);
      SameFirst(verdicts, j, k);
    }
    if OutcomeOf(verdicts, k) == Duplicate(j + 2) {
      var login, first := verdicts[k].login, verdicts[j].login;
      SameFirst(verdicts, j, k);
      FirstIsAccepted(verdicts, header, rows, j, first, p);
      assert OffersAgain(header, rows, k, j, login, first, p);
    }
  }

  /** The issues are exactly those of the rows that are refused or offer an account again. */
  lemma {:induction false} IssuesFollow(
    verdicts: seq<Verdict>, header: seq<string>, rows: seq<ParsedRecord>, i: Issue, p: Platform)
    requires AreVerdicts(verdicts, header, rows, p) && Distinct(NormalizeHeaders(header, p))
    ensures i in IssuesUpTo(Outcomes(verdicts), |verdicts|) <==> IssueFollows(i, header, rows, p)
  {
    hide AreVerdicts, NormalizeHeaders, Distinct, IssuesUpTo, OutcomeOf, IssueOf, IssueFollows, Outcomes;
    Lengths(verdicts, header, rows, p);
    var outcomes := Outcomes(verdicts);
    var issues := IssuesUpTo(outcomes, |verdicts|);
    IssuesFollowRows(outcomes, |verdicts|);
    if i in issues {
      var m: nat :| m < |issues| && issues[m] == i;
      assert TellsOf(i, outcomes);
      OutcomesAre(verdicts, i.rowIndex - 2);
      OutcomeFollows(verdicts, header, rows, i.rowIndex - 2, i, p);
    }
    if IssueFollows(i, header, rows, p) {
      IssueIsInRange(i, header, rows, p);
      var k: nat := i.rowIndex - 2;
      OutcomeFollows(verdicts, header, rows, k, i, p);
      OutcomesAre(verdicts, k);
      NoIssueIfAccepted(i.rowIndex, outcomes[k]);
      EveryIssueIsListed(outcomes, |outcomes|, k);
    }
  }

  lemma {:induction false} OutcomesAre(verdicts: seq<Verdict>, k: nat)
    requires k < |verdicts|
    ensures |Outcomes(verdicts)| == |verdicts| && Outcomes(verdicts)[k] == OutcomeOf(verdicts, k)
  {
  }

  lemma {:induction false} NoIssueIfAccepted(rowIndex: nat, o: RowOutcome)
    ensures o.Accepted? <==> IssueOf(rowIndex, o) == []
  {
  }

  lemma {:induction false} IssueIsInRange(i: Issue, header: seq<string>, rows: seq<ParsedRecord>, p: Platform)
    requires IssueFollows(i, header, rows, p)
    ensures 2 <= i.rowIndex < |rows| + 2
  {
    hide FirstToOffer, Offers;
  }

  /**
   The analysis of any file, said without reference to how it is computed: it is refused for the first check of the
   whole file that fails; otherwise its entries are the rows that pass every check and are the first with their
   account, made of their cells, and its issues are those of all other rows.
   */
  lemma {:induction false} AnalysisFollowsTheRules(source: string, csv: string, body: string, p: Platform)
    returns (file: Result<seq<ParsedRecord>, ImportError>)
    requires IsBody(csv, body)
    ensures IsImport(source, csv, body, p, file)
    ensures match file
      case Err(e) => AnalysisOf(source, csv, p) == Err(e)
      case Ok(rows) =>
        && rows != [] && AnalysisOf(source, csv, p).Ok?
        && Follows(AnalysisOf(source, csv, p).value, source, rows[0].values, rows[1..], p)
  {
    hide Follows, Parsed, Entries, Outcomes, ReportOf, RepeatsAHeader, HasRequiredColumns, NormalizeHeaders, Distinct;
    assert WithoutBom(csv) == body;
    if Judged(source, csv, p).Err? && Parsed(body, IMPORT_LIMITS).Err? {
      file := Err(Judged(source, csv, p).error);
    } else if (source != "chrome" && source != "edge") || p.utf8ByteLength(csv) > MAX_CSV_BYTES || body == "" {
      file := Err(Judged(source, csv, p).error);
    } else {
      ParsedNonEmpty(body, IMPORT_LIMITS);
      var rows := Parsed(body, IMPORT_LIMITS).value;
      RepeatsExactly(rows[0].values, p);
      RequiredExactly(rows[0].values, p);
      if Judged(source, csv, p).Err? {
        file := Err(Judged(source, csv, p).error);
      } else {
        file := Ok(rows);
        RowsFollow(source, rows[0].values, rows[1..], p);
      }
    }
  }

  lemma {:induction false} RequiredExactly(header: seq<string>, p: Platform)
    ensures var headers := NormalizeHeaders(header, p);
      HasRequiredColumns(header, p) <==> "url" in headers && "username" in headers && "password" in headers
  {
    hide NormalizeHeaders, HasColumn;
    NormalizedIsColumn(header, "url", p);
    NormalizedIsColumn(header, "username", p);
    NormalizedIsColumn(header, "password", p);
  }

  lemma {:induction false} ListsAreInOrder(source: string, verdicts: seq<Verdict>)
    ensures InOrderAndCounted(Analysis(Entries(source, verdicts, |verdicts|), ReportOf(Outcomes(verdicts))))
  {
    hide Entries, Outcomes, Tally, IssuesUpTo;
    var entries := Entries(source, verdicts, |verdicts|);
    forall i, j | 0 <= i < j < |entries| ensures entries[i].rowIndex < entries[j].rowIndex {
      EntriesFollowRows(source, verdicts, |verdicts|, i, j);
    }
    IssuesFollowRows(Outcomes(verdicts), |Outcomes(verdicts)|);
    ReportCounts(source, verdicts);
  }

  lemma {:induction false} RowsFollow(source: string, header: seq<string>, rows: seq<ParsedRecord>, p: Platform)
    requires Distinct(NormalizeHeaders(header, p))
    ensures var verdicts := Verdicts(NormalizeHeaders(header, p), rows, p);
      Follows(Analysis(Entries(source, verdicts, |verdicts|), ReportOf(Outcomes(verdicts))), source, header, rows, p)
  {
    hide Entries, Outcomes, NormalizeHeaders, Distinct, EntryFollows, IssueFollows, Judge, Verdicts, Tally, IssuesUpTo;
    hide InOrderAndCounted;
    ListsAreInOrder(source, Verdicts(NormalizeHeaders(header, p), rows, p));
    var verdicts := Verdicts(NormalizeHeaders(header, p), rows, p);
    forall e ensures e in Entries(source, verdicts, |verdicts|) <==> EntryFollows(e, source, header, rows, p) {
      EntriesFollow(source, verdicts, header, rows, e, p);
    }
    forall i ensures i in IssuesUpTo(Outcomes(verdicts), |verdicts|) <==> IssueFollows(i, header, rows, p) {
      IssuesFollow(verdicts, header, rows, i, p);
    }
  }
}
