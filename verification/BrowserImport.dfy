/**
 The analysis of a browser password export (packages/domain/src/browser-import.ts): each data row is judged on its
 own, and a second row with an origin and username seen before is reported as a duplicate of the first.
 */
module BrowserImport {
  import opened Basics
  import opened Csv
  import opened ImportOutcomes

  const MAX_CSV_BYTES: nat := 10 * 1024 * 1024
  const MAX_DATA_ROWS: nat := 3000
  const MAX_HEADER_COLUMNS: nat := 256
  const MAX_URL_BYTES: nat := 8 * 1024
  const MAX_USERNAME_BYTES: nat := 4 * 1024
  const MAX_PASSWORD_BYTES: nat := 16 * 1024
  const MAX_NAME_BYTES: nat := 4 * 1024

  datatype Url = Url(protocol: string, origin: string)

  /** What the analysis takes from its host: text measures and URL parsing. */
  datatype Platform = Platform(
    utf8ByteLength: string -> nat,
    trim: string -> string,
    normalizeNfc: string -> string,
    parseUrl: string -> Option<Url>)

  /** A serialized origin never contains U+0000. */
  ghost predicate Lawful(p: Platform) {
    forall s :: p.parseUrl(s).Some? ==> '\0' !in p.parseUrl(s).value.origin
  }

  datatype Login = Login(name: string, websiteOrigin: string, username: string, password: string)

  datatype AcceptedEntry = AcceptedEntry(rowIndex: nat, source: string, login: Login)

  datatype Analysis = Analysis(acceptedEntries: seq<AcceptedEntry>, report: Report)

  // ---------------------------------------------------------------------------------------------
  // One row on its own.
  // ---------------------------------------------------------------------------------------------

  datatype Verdict = Refuse(reason: RowReason) | Candidate(login: Login)

  function AsciiLower(s: string): string {
    seq(|s|, k requires 0 <= k < |s| => if 'A' <= s[k] <= 'Z' then s[k] - 'A' + 'a' else s[k])
  }

  function NormalizeHeaders(raw: seq<string>, p: Platform): seq<string> {
    seq(|raw|, k requires 0 <= k < |raw| => AsciiLower(p.trim(raw[k])))
  }

  function IndexOf(headers: seq<string>, header: string): (i: nat)
    ensures i <= |headers|
    ensures i < |headers| ==> headers[i] == header
    ensures header !in headers[..i]
  {
    if headers == [] || headers[0] == header then 0 else 1 + IndexOf(headers[1..], header)
  }

  /** The value below a header, or the empty string when the header or the value is missing. */
  function ValueFor(headers: seq<string>, values: seq<string>, header: string): string {
    var i := IndexOf(headers, header);
    if i < |headers| && i < |values| then values[i] else ""
  }

  function Judge(headers: seq<string>, record: ParsedRecord, p: Platform): Verdict {
    var rawUrl := ValueFor(headers, record.values, "url");
    var rawUsername := ValueFor(headers, record.values, "username");
    var password := ValueFor(headers, record.values, "password");
    var rawName := ValueFor(headers, record.values, "name");
    var note := ValueFor(headers, record.values, "note");
    var url := p.trim(rawUrl);
    var username := p.normalizeNfc(p.trim(rawUsername));
    var name := p.trim(rawName);
    if (forall k :: 0 <= k < |record.values| ==> record.values[k] == "") && !record.discardedFieldHasContent then
      Refuse(EmptyRow)
    else if record.hasExtraFields then Refuse(MalformedRow)
    else if url == "" then Refuse(EmptyUrl)
    else if password == "" then Refuse(EmptyPassword)
    else if p.utf8ByteLength(rawUrl) > MAX_URL_BYTES || p.utf8ByteLength(url) > MAX_URL_BYTES then Refuse(UrlTooLong)
    else if p.utf8ByteLength(rawUsername) > MAX_USERNAME_BYTES || p.utf8ByteLength(username) > MAX_USERNAME_BYTES then
      Refuse(UsernameTooLong)
    else if p.utf8ByteLength(password) > MAX_PASSWORD_BYTES then Refuse(PasswordTooLong)
    else if p.utf8ByteLength(rawName) > MAX_NAME_BYTES || p.utf8ByteLength(name) > MAX_NAME_BYTES then
      Refuse(NameTooLong)
    else if note != "" then Refuse(UnsupportedNote)
    else
      match p.parseUrl(url)
      case None => Refuse(InvalidUrl)
      case Some(parsed) =>
        if parsed.protocol != "http:" && parsed.protocol != "https:" then Refuse(UnsupportedUrlScheme)
        else Candidate(Login(name, parsed.origin, username, password))
  }

  // ---------------------------------------------------------------------------------------------
  // The rule for duplicates, stated by comparing each row with all rows before it.
  // ---------------------------------------------------------------------------------------------

  predicate SameAccount(a: Verdict, b: Verdict) {
    a.Candidate? && b.Candidate?
    && a.login.websiteOrigin == b.login.websiteOrigin && a.login.username == b.login.username
  }

  /** The first row, from `j` up to `k`, for the same account as row `k`. */
  function FirstFor(verdicts: seq<Verdict>, k: nat, j: nat): (f: nat)
    requires j <= k < |verdicts|
    ensures j <= f <= k
    ensures verdicts[k].Candidate? ==> SameAccount(verdicts[f], verdicts[k])
    ensures forall i :: j <= i < f ==> !SameAccount(verdicts[i], verdicts[k])
    decreases k - j
  {
    if j == k || SameAccount(verdicts[j], verdicts[k]) then j else FirstFor(verdicts, k, j + 1)
  }

  function OutcomeOf(verdicts: seq<Verdict>, k: nat): RowOutcome
    requires k < |verdicts|
  {
    match verdicts[k]
    case Refuse(reason) => Malformed(reason)
    case Candidate(_) =>
      var first := FirstFor(verdicts, k, 0);
      if first == k then Accepted else Duplicate(first + FIRST_DATA_ROW)
  }

  /** The outcomes of the first `n` rows. */
  function OutcomesUpTo(verdicts: seq<Verdict>, n: nat): (outcomes: seq<RowOutcome>)
    requires n <= |verdicts|
    ensures |outcomes| == n
    ensures forall k :: 0 <= k < n ==> outcomes[k] == OutcomeOf(verdicts, k)
  {
    if n == 0 then [] else OutcomesUpTo(verdicts, n - 1) + [OutcomeOf(verdicts, n - 1)]
  }

  function Outcomes(verdicts: seq<Verdict>): (outcomes: seq<RowOutcome>)
    ensures |outcomes| == |verdicts|
  {
    OutcomesUpTo(verdicts, |verdicts|)
  }

  /** The accepted rows, in row order. */
  function Entries(source: string, verdicts: seq<Verdict>, n: nat): seq<AcceptedEntry>
    requires n <= |verdicts|
  {
    if n == 0 then []
    else
      Entries(source, verdicts, n - 1)
      + if OutcomeOf(verdicts, n - 1).Accepted?
        then [AcceptedEntry(n - 1 + FIRST_DATA_ROW, source, verdicts[n - 1].login)]
        else []
  }

  function Verdicts(headers: seq<string>, rows: seq<ParsedRecord>, p: Platform): (vs: seq<Verdict>)
    ensures |vs| == |rows|
    ensures forall k :: 0 <= k < |rows| ==> vs[k] == Judge(headers, rows[k], p)
  {
    if rows == [] then []
    else Verdicts(headers, rows[..|rows| - 1], p) + [Judge(headers, rows[|rows| - 1], p)]
  }

  /** A leading byte-order mark is not part of the first header. */
  function WithoutBom(csv: string): string {
    if csv != "" && csv[0] == '\U{FEFF}' then csv[1..] else csv
  }

  predicate Distinct(headers: seq<string>) {
    forall i, j :: 0 <= i < j < |headers| ==> headers[i] != headers[j]
  }

  /** The headers and verdicts of an export, or the reason the whole export is refused. */
  function Judged(source: string, csv: string, p: Platform): Result<seq<Verdict>, ImportError> {
    if source != "chrome" && source != "edge" then Err(UnsupportedSource)
    else if p.utf8ByteLength(csv) > MAX_CSV_BYTES then Err(FileTooLarge)
    else if WithoutBom(csv) == "" then Err(EmptyCsv)
    else
      match Parsed(WithoutBom(csv), Limits(MAX_DATA_ROWS, MAX_HEADER_COLUMNS))
      case Err(e) => Err(e)
      case Ok(rows) =>
        var headers := NormalizeHeaders(if rows == [] then [] else rows[0].values, p);
        if !Distinct(headers) then Err(DuplicateHeader)
        else if "url" !in headers || "username" !in headers || "password" !in headers then Err(MissingRequiredHeader)
        else Ok(Verdicts(headers, rows[1..], p))
  }

  /** The analysis by the quadratic rule. */
  function AnalysisOf(source: string, csv: string, p: Platform): Result<Analysis, ImportError> {
    match Judged(source, csv, p)
    case Err(e) => Err(e)
    case Ok(verdicts) => Ok(Analysis(Entries(source, verdicts, |verdicts|), ReportOf(Outcomes(verdicts))))
  }

  // ---------------------------------------------------------------------------------------------
  // The one-pass analysis, with its map from joined keys to rows.
  // ---------------------------------------------------------------------------------------------

  function Key(login: Login): string {
    login.websiteOrigin + ['\0'] + login.username
  }

  /** Joining with U+0000 loses nothing, because origins do not contain it; usernames may. */
  lemma {:induction false} KeyInjective(a: Login, b: Login)
    requires '\0' !in a.websiteOrigin && '\0' !in b.websiteOrigin
    requires Key(a) == Key(b)
    ensures a.websiteOrigin == b.websiteOrigin && a.username == b.username
  {
    var m, n := |a.websiteOrigin|, |b.websiteOrigin|;
    assert forall k :: 0 <= k < m ==> Key(a)[k] == a.websiteOrigin[k] != '\0';
    assert forall k :: 0 <= k < n ==> Key(b)[k] == b.websiteOrigin[k] != '\0';
    assert Key(a)[m] == '\0' && Key(b)[n] == '\0';
    assert a.websiteOrigin == Key(a)[..m] && b.websiteOrigin == Key(b)[..n];
    assert a.username == Key(a)[m + 1..] && b.username == Key(b)[n + 1..];
  }

  ghost predicate CleanOrigins(verdicts: seq<Verdict>) {
    forall k :: 0 <= k < |verdicts| && verdicts[k].Candidate? ==> '\0' !in verdicts[k].login.websiteOrigin
  }

  /** Some row among the first `n` has this key. */
  ghost predicate Seen(verdicts: seq<Verdict>, n: nat, key: string)
    requires n <= |verdicts|
  {
    exists k :: 0 <= k < n && verdicts[k].Candidate? && Key(verdicts[k].login) == key
  }

  lemma {:induction false} StillSeen(verdicts: seq<Verdict>, n: nat, key: string)
    requires n < |verdicts|
    requires Seen(verdicts, n, key) || (verdicts[n].Candidate? && Key(verdicts[n].login) == key)
    ensures Seen(verdicts, n + 1, key)
  {
    hide Key;
  }

  /** The map holds, for the first `n` rows, the first row of every account and nothing else. */
  ghost predicate FirstRows(m: map<string, nat>, verdicts: seq<Verdict>, n: nat)
    requires n <= |verdicts|
  {
    && (forall k :: 0 <= k < n && verdicts[k].Candidate? ==>
          Key(verdicts[k].login) in m && m[Key(verdicts[k].login)] == FirstFor(verdicts, k, 0) + FIRST_DATA_ROW)
    && (forall key :: key in m ==> Seen(verdicts, n, key))
  }

  lemma {:induction false} KnownKey(m: map<string, nat>, verdicts: seq<Verdict>, n: nat)
    requires n < |verdicts| && verdicts[n].Candidate?
    requires CleanOrigins(verdicts) && FirstRows(m, verdicts, n)
    requires Key(verdicts[n].login) in m
    ensures FirstFor(verdicts, n, 0) < n
    ensures m[Key(verdicts[n].login)] == FirstFor(verdicts, n, 0) + FIRST_DATA_ROW
  {
    assert Seen(verdicts, n, Key(verdicts[n].login));
    var k :| 0 <= k < n && verdicts[k].Candidate? && Key(verdicts[k].login) == Key(verdicts[n].login);
    KeyInjective(verdicts[k].login, verdicts[n].login);
    SameFirst(verdicts, k, n);
  }

  /** Rows for the same account have the same first row. */
  lemma {:induction false} SameFirst(verdicts: seq<Verdict>, k: nat, n: nat)
    requires k <= n < |verdicts| && SameAccount(verdicts[k], verdicts[n])
    ensures FirstFor(verdicts, k, 0) == FirstFor(verdicts, n, 0)
  {
    var first, firstOfK := FirstFor(verdicts, n, 0), FirstFor(verdicts, k, 0);
    assert SameAccount(verdicts[firstOfK], verdicts[n]);
    assert first <= firstOfK;
    assert SameAccount(verdicts[first], verdicts[k]);
  }

  lemma {:induction false} NewKey(m: map<string, nat>, verdicts: seq<Verdict>, n: nat)
    requires n < |verdicts| && verdicts[n].Candidate?
    requires FirstRows(m, verdicts, n)
    requires Key(verdicts[n].login) !in m
    ensures FirstFor(verdicts, n, 0) == n
  {
    var first := FirstFor(verdicts, n, 0);
    assert Key(verdicts[first].login) == Key(verdicts[n].login);
  }

  /** Looking a row's key up in the map decides the row as the quadratic rule does. */
  lemma {:induction false} LookupDecides(m: map<string, nat>, verdicts: seq<Verdict>, n: nat)
    requires n < |verdicts| && verdicts[n].Candidate?
    requires CleanOrigins(verdicts) && FirstRows(m, verdicts, n)
    ensures var key := Key(verdicts[n].login);
      OutcomeOf(verdicts, n) == if key in m then Duplicate(m[key]) else Accepted
  {
    if Key(verdicts[n].login) in m {
      KnownKey(m, verdicts, n);
    } else {
      NewKey(m, verdicts, n);
    }
  }

  lemma {:induction false} FirstRowsStep(m: map<string, nat>, verdicts: seq<Verdict>, n: nat, m': map<string, nat>)
    requires n < |verdicts|
    requires CleanOrigins(verdicts) && FirstRows(m, verdicts, n)
    requires m' == if OutcomeOf(verdicts, n).Accepted? then m[Key(verdicts[n].login) := n + FIRST_DATA_ROW] else m
    ensures FirstRows(m', verdicts, n + 1)
  {
    hide FirstRows, CleanOrigins, FirstFor, Key;
    if verdicts[n].Refuse? {
      RefusedStep(m, verdicts, n);
    } else if Key(verdicts[n].login) in m {
      KnownKey(m, verdicts, n);
      KnownKeyStep(m, verdicts, n);
    } else {
      NewKey(m, verdicts, n);
      NewKeyStep(m, verdicts, n);
    }
  }

  lemma {:induction false} RefusedStep(m: map<string, nat>, verdicts: seq<Verdict>, n: nat)
    requires n < |verdicts| && verdicts[n].Refuse? && FirstRows(m, verdicts, n)
    ensures FirstRows(m, verdicts, n + 1)
  {
    hide FirstFor, Key, Seen;
    forall key | key in m ensures Seen(verdicts, n + 1, key) { StillSeen(verdicts, n, key); }
  }

  lemma {:induction false} KnownKeyStep(m: map<string, nat>, verdicts: seq<Verdict>, n: nat)
    requires n < |verdicts| && verdicts[n].Candidate? && FirstRows(m, verdicts, n)
    requires Key(verdicts[n].login) in m && m[Key(verdicts[n].login)] == FirstFor(verdicts, n, 0) + FIRST_DATA_ROW
    ensures FirstRows(m, verdicts, n + 1)
  {
    hide FirstFor, Key, Seen;
    forall k | 0 <= k < n + 1 && verdicts[k].Candidate?
      ensures Key(verdicts[k].login) in m && m[Key(verdicts[k].login)] == FirstFor(verdicts, k, 0) + FIRST_DATA_ROW
    {
      assert k == n || k < n;
    }
    forall key | key in m ensures Seen(verdicts, n + 1, key) { StillSeen(verdicts, n, key); }
  }

  lemma {:induction false} NewKeyStep(m: map<string, nat>, verdicts: seq<Verdict>, n: nat)
    requires n < |verdicts| && verdicts[n].Candidate? && FirstRows(m, verdicts, n)
    requires Key(verdicts[n].login) !in m && FirstFor(verdicts, n, 0) == n
    ensures FirstRows(m[Key(verdicts[n].login) := n + FIRST_DATA_ROW], verdicts, n + 1)
  {
    hide FirstFor, Key, Seen;
    var m' := m[Key(verdicts[n].login) := n + FIRST_DATA_ROW];
    forall k | 0 <= k < n && verdicts[k].Candidate?
      ensures Key(verdicts[k].login) in m' && m'[Key(verdicts[k].login)] == FirstFor(verdicts, k, 0) + FIRST_DATA_ROW
    {
      assert Key(verdicts[k].login) in m;
    }
    forall key | key in m' ensures Seen(verdicts, n + 1, key) { StillSeen(verdicts, n, key); }
  }

  lemma {:induction false} JudgedOriginsAreClean(headers: seq<string>, rows: seq<ParsedRecord>, p: Platform)
    requires Lawful(p)
    ensures CleanOrigins(Verdicts(headers, rows, p))
  {
    hide Judge, Lawful;
    forall k | 0 <= k < |rows| && Judge(headers, rows[k], p).Candidate?
      ensures '\0' !in Judge(headers, rows[k], p).login.websiteOrigin
    {
      JudgedOriginIsClean(headers, rows[k], p);
    }
  }

  lemma {:induction false} JudgedOriginIsClean(headers: seq<string>, record: ParsedRecord, p: Platform)
    requires Lawful(p) && Judge(headers, record, p).Candidate?
    ensures '\0' !in Judge(headers, record, p).login.websiteOrigin
  {
    var url := p.trim(ValueFor(headers, record.values, "url"));
    assert p.parseUrl(url).Some?;
  }

  /** The report's counts, computed from the lengths of the two lists. */
  lemma {:induction false} ReportCounts(source: string, verdicts: seq<Verdict>)
    ensures var report := ReportOf(Outcomes(verdicts));
      && report.counts.totalRows == |verdicts|
      && report.counts.acceptedRows == |Entries(source, verdicts, |verdicts|)|
      && report.counts.duplicateRows == CountDuplicateIssues(report.issues)
      && report.counts.malformedRows == |report.issues| - CountDuplicateIssues(report.issues)
  {
    hide Tally, IssuesUpTo, Entries, CountDuplicateIssues;
    var outcomes := Outcomes(verdicts);
    OutcomesAddUp(outcomes, |outcomes|);
    IssuesAddUp(outcomes, |outcomes|);
    EntriesAreTheAccepted(source, verdicts, |verdicts|);
  }

  /** What one row adds to the entries and to the issues. */
  lemma {:induction false} RowAdds(source: string, verdicts: seq<Verdict>, k: nat)
    requires k < |verdicts|
    ensures var row, outcome := k + FIRST_DATA_ROW, OutcomeOf(verdicts, k);
      && (verdicts[k].Refuse? ==> outcome == Malformed(verdicts[k].reason))
      && IssuesUpTo(Outcomes(verdicts), k + 1) == IssuesUpTo(Outcomes(verdicts), k) + IssueOf(row, outcome)
      && Entries(source, verdicts, k + 1)
         == Entries(source, verdicts, k)
            + if outcome.Accepted? then [AcceptedEntry(row, source, verdicts[k].login)] else []
  {
  }

  /** What the loop has after the first `n` rows: the map of first rows, the entries and the issues. */
  ghost predicate SoFar(
    m: map<string, nat>, entries: seq<AcceptedEntry>, issues: seq<Issue>, source: string, verdicts: seq<Verdict>,
    n: nat)
    requires n <= |verdicts|
  {
    FirstRows(m, verdicts, n) && entries == Entries(source, verdicts, n) && issues == IssuesUpTo(Outcomes(verdicts), n)
  }

  lemma {:induction false} NothingYet(source: string, verdicts: seq<Verdict>)
    ensures SoFar(map[], [], [], source, verdicts, 0)
  {
  }

  lemma {:induction false} RefusedRow(
    m: map<string, nat>, entries: seq<AcceptedEntry>, issues: seq<Issue>, source: string, verdicts: seq<Verdict>,
    n: nat)
    requires n < |verdicts| && verdicts[n].Refuse?
    requires CleanOrigins(verdicts) && SoFar(m, entries, issues, source, verdicts, n)
    ensures SoFar(m, entries, issues + [RowIssue(n + FIRST_DATA_ROW, verdicts[n].reason)], source, verdicts, n + 1)
  {
    hide FirstRows, CleanOrigins, FirstFor, OutcomeOf, IssuesUpTo, Entries;
    RowAdds(source, verdicts, n);
    FirstRowsStep(m, verdicts, n, m);
  }

  lemma {:induction false} KnownRow(
    m: map<string, nat>, entries: seq<AcceptedEntry>, issues: seq<Issue>, source: string, verdicts: seq<Verdict>,
    n: nat)
    requires n < |verdicts| && verdicts[n].Candidate? && Key(verdicts[n].login) in m
    requires CleanOrigins(verdicts) && SoFar(m, entries, issues, source, verdicts, n)
    ensures SoFar(
      m, entries, issues + [DuplicateIssue(n + FIRST_DATA_ROW, m[Key(verdicts[n].login)])], source, verdicts, n + 1)
  {
    hide FirstRows, CleanOrigins, FirstFor, OutcomeOf, IssuesUpTo, Entries, Key;
    RowAdds(source, verdicts, n);
    LookupDecides(m, verdicts, n);
    FirstRowsStep(m, verdicts, n, m);
  }

  lemma {:induction false} NewRow(
    m: map<string, nat>, entries: seq<AcceptedEntry>, issues: seq<Issue>, source: string, verdicts: seq<Verdict>,
    n: nat)
    requires n < |verdicts| && verdicts[n].Candidate? && Key(verdicts[n].login) !in m
    requires CleanOrigins(verdicts) && SoFar(m, entries, issues, source, verdicts, n)
    ensures var row := n + FIRST_DATA_ROW;
      SoFar(m[Key(verdicts[n].login) := row], entries + [AcceptedEntry(row, source, verdicts[n].login)], issues,
            source, verdicts, n + 1)
  {
    hide FirstRows, CleanOrigins, FirstFor, OutcomeOf, IssuesUpTo, Entries, Key;
    RowAdds(source, verdicts, n);
    LookupDecides(m, verdicts, n);
    assert issues + [] == issues;
    FirstRowsStep(m, verdicts, n, m[Key(verdicts[n].login) := n + FIRST_DATA_ROW]);
  }

  /** After the last row the lists are the entries and the report. */
  lemma {:induction false} AllRows(
    m: map<string, nat>, entries: seq<AcceptedEntry>, issues: seq<Issue>, source: string, verdicts: seq<Verdict>)
    requires SoFar(m, entries, issues, source, verdicts, |verdicts|)
    ensures entries == Entries(source, verdicts, |verdicts|)
    ensures var duplicateRows := CountDuplicateIssues(issues);
      && duplicateRows <= |issues|
      && ReportOf(Outcomes(verdicts))
         == Report(Counts(|verdicts|, |entries|, |issues| - duplicateRows, duplicateRows), issues)
  {
    hide FirstRows, IssuesUpTo, Entries, CountDuplicateIssues, Tally;
    ReportCounts(source, verdicts);
  }

  /** The loop over the data rows. */
  method AnalyzeRows(
    source: string, headers: seq<string>, dataRows: seq<ParsedRecord>, p: Platform)
    returns (r: Analysis)
    requires Lawful(p)
    ensures var verdicts := Verdicts(headers, dataRows, p);
      r == Analysis(Entries(source, verdicts, |verdicts|), ReportOf(Outcomes(verdicts)))
  {
    ghost var verdicts := Verdicts(headers, dataRows, p);
    JudgedOriginsAreClean(headers, dataRows, p);
    NothingYet(source, verdicts);
    hide Judge, SoFar, CleanOrigins, Entries, ReportOf, Outcomes, Key, CountDuplicateIssues, Lawful;
    var acceptedEntries: seq<AcceptedEntry> := [];
    var issues: seq<Issue> := [];
    var firstRowByDuplicateKey: map<string, nat> := map[];
    for dataIndex := 0 to |dataRows|
      invariant SoFar(firstRowByDuplicateKey, acceptedEntries, issues, source, verdicts, dataIndex)
    {
      var rowIndex := dataIndex + FIRST_DATA_ROW;
      var verdict := Judge(headers, dataRows[dataIndex], p);
      assert verdict == verdicts[dataIndex];
      match verdict {
        case Refuse(reason) =>
          RefusedRow(firstRowByDuplicateKey, acceptedEntries, issues, source, verdicts, dataIndex);
          issues := issues + [RowIssue(rowIndex, reason)];
        case Candidate(login) =>
          var duplicateKey := Key(login);
          if duplicateKey in firstRowByDuplicateKey {
            KnownRow(firstRowByDuplicateKey, acceptedEntries, issues, source, verdicts, dataIndex);
            issues := issues + [DuplicateIssue(rowIndex, firstRowByDuplicateKey[duplicateKey])];
          } else {
            NewRow(firstRowByDuplicateKey, acceptedEntries, issues, source, verdicts, dataIndex);
            acceptedEntries := acceptedEntries + [AcceptedEntry(rowIndex, source, login)];
            firstRowByDuplicateKey := firstRowByDuplicateKey[duplicateKey := rowIndex];
          }
      }
    }
    AllRows(firstRowByDuplicateKey, acceptedEntries, issues, source, verdicts);
    var duplicateRows := CountDuplicateIssues(issues);
    r := Analysis(
      acceptedEntries,
      Report(Counts(|dataRows|, |acceptedEntries|, |issues| - duplicateRows, duplicateRows), issues));
  }

  lemma {:induction false} EntriesAreTheAccepted(source: string, verdicts: seq<Verdict>, n: nat)
    requires n <= |verdicts|
    ensures |Entries(source, verdicts, n)| == Tally(Outcomes(verdicts), n, IsAccepted)
  {
    if n > 0 {
      EntriesAreTheAccepted(source, verdicts, n - 1);
    }
  }

  method AnalyzeBrowserImport(source: string, csv: string, p: Platform) returns (r: Result<Analysis, ImportError>)
    requires Lawful(p)
    ensures r == AnalysisOf(source, csv, p)
  {
    if source != "chrome" && source != "edge" {
      return Err(UnsupportedSource);
    }
    if p.utf8ByteLength(csv) > MAX_CSV_BYTES {
      return Err(FileTooLarge);
    }
    var body := WithoutBom(csv);
    if |body| == 0 {
      return Err(EmptyCsv);
    }
    var parsed := ParseCsv(body, MAX_DATA_ROWS, MAX_HEADER_COLUMNS);
    if parsed.Err? {
      return Err(parsed.error);
    }
    var rows := parsed.value;
    ParsedNonEmpty(body, Limits(MAX_DATA_ROWS, MAX_HEADER_COLUMNS));
    var headers := NormalizeHeaders(rows[0].values, p);
    var dataRows := rows[1..];
    if |dataRows| > MAX_DATA_ROWS {
      return Err(TooManyRows);
    }
    if !Distinct(headers) {
      return Err(DuplicateHeader);
    }
    if "url" !in headers || "username" !in headers || "password" !in headers {
      return Err(MissingRequiredHeader);
    }
    var analysis := AnalyzeRows(source, headers, dataRows, p);
    return Ok(analysis);
  }

  /** Text that is not empty holds at least the header record, and never more data rows than allowed. */
  lemma {:induction false} ParsedNonEmpty(s: string, lim: Limits)
    requires s != ""
    ensures Parsed(s, lim).Ok? ==> 1 <= |Parsed(s, lim).value| <= lim.maxDataRows + 1
  {
    FileLength(s, 0, 0, lim);
  }

  lemma {:induction false} FileLength(s: string, i: nat, before: nat, lim: Limits)
    requires i <= |s| && before <= lim.maxDataRows + 1
    ensures var r := ScanFile(s, i, before, lim);
      r.Ok? ==> before + |r.value| <= lim.maxDataRows + 1 && (i < |s| ==> r.value != [])
    decreases |s| - i
  {
    if i < |s| && before <= lim.maxDataRows {
      var scan := ScanRecord(s, i, FileRoom(before, lim));
      if scan.Done? && scan.next < |s| {
        FileLength(s, AfterBreak(s, scan.next), before + 1, lim);
      }
    }
  }

  // ---------------------------------------------------------------------------------------------
  // What the analysis promises.
  // ---------------------------------------------------------------------------------------------

  /** The rule for duplicates only ever points back at accepted rows. */
  lemma {:induction false} OutcomesAreRealizable(verdicts: seq<Verdict>)
    ensures Realizable(Outcomes(verdicts))
  {
    forall k | 0 <= k < |verdicts| && OutcomeOf(verdicts, k).Duplicate?
      ensures OutcomeOf(verdicts, FirstFor(verdicts, k, 0)).Accepted?
    {
      SameFirst(verdicts, FirstFor(verdicts, k, 0), k);
    }
  }

  /** `e` is the entry of an accepted row among the first `n`. */
  predicate EntryOfRow(e: AcceptedEntry, source: string, verdicts: seq<Verdict>, n: nat)
    requires n <= |verdicts|
  {
    FIRST_DATA_ROW <= e.rowIndex < n + FIRST_DATA_ROW
    && verdicts[e.rowIndex - FIRST_DATA_ROW].Candidate?
    && OutcomeOf(verdicts, e.rowIndex - FIRST_DATA_ROW).Accepted?
    && e.source == source && e.login == verdicts[e.rowIndex - FIRST_DATA_ROW].login
  }

  lemma {:induction false} EntryIsOfRow(source: string, verdicts: seq<Verdict>, n: nat, i: nat)
    requires n <= |verdicts| && i < |Entries(source, verdicts, n)|
    ensures EntryOfRow(Entries(source, verdicts, n)[i], source, verdicts, n)
  {
    if i < |Entries(source, verdicts, n - 1)| {
      EntryIsOfRow(source, verdicts, n - 1, i);
    }
  }

  lemma {:induction false} EntriesFollowRows(source: string, verdicts: seq<Verdict>, n: nat, i: nat, j: nat)
    requires n <= |verdicts| && i < j < |Entries(source, verdicts, n)|
    ensures Entries(source, verdicts, n)[i].rowIndex < Entries(source, verdicts, n)[j].rowIndex
  {
    if j < |Entries(source, verdicts, n - 1)| {
      EntriesFollowRows(source, verdicts, n - 1, i, j);
    } else {
      EntryIsOfRow(source, verdicts, n - 1, i);
    }
  }

  lemma {:induction false} AcceptedIsListed(source: string, verdicts: seq<Verdict>, n: nat, k: nat)
    requires k < n <= |verdicts| && OutcomeOf(verdicts, k).Accepted?
    ensures AcceptedEntry(k + FIRST_DATA_ROW, source, verdicts[k].login) in Entries(source, verdicts, n)
  {
    if k < n - 1 {
      AcceptedIsListed(source, verdicts, n - 1, k);
    }
  }

  /** Two accepted entries never share both origin and username. */
  lemma {:induction false} AcceptedAccountsAreDistinct(source: string, csv: string, p: Platform)
    ensures match AnalysisOf(source, csv, p)
      case Err(_) => true
      case Ok(a) =>
        forall i, j :: 0 <= i < j < |a.acceptedEntries| ==> !SameLogin(a.acceptedEntries[i], a.acceptedEntries[j])
  {
    if AnalysisOf(source, csv, p).Ok? {
      hide Judged, OutcomeOf;
      var verdicts := Judged(source, csv, p).value;
      var entries := Entries(source, verdicts, |verdicts|);
      forall i, j | 0 <= i < j < |entries| ensures !SameLogin(entries[i], entries[j]) {
        EntryPair(source, verdicts, i, j);
      }
    }
  }

  lemma {:induction false} EntryPair(source: string, verdicts: seq<Verdict>, i: nat, j: nat)
    requires i < j < |Entries(source, verdicts, |verdicts|)|
    ensures !SameLogin(Entries(source, verdicts, |verdicts|)[i], Entries(source, verdicts, |verdicts|)[j])
  {
    var entries := Entries(source, verdicts, |verdicts|);
    EntryIsOfRow(source, verdicts, |verdicts|, i);
    EntryIsOfRow(source, verdicts, |verdicts|, j);
    EntriesFollowRows(source, verdicts, |verdicts|, i, j);
    AcceptedTwice(verdicts, entries[i].rowIndex - FIRST_DATA_ROW, entries[j].rowIndex - FIRST_DATA_ROW);
  }

  predicate SameLogin(a: AcceptedEntry, b: AcceptedEntry) {
    a.login.websiteOrigin == b.login.websiteOrigin && a.login.username == b.login.username
  }

  lemma {:induction false} AcceptedTwice(verdicts: seq<Verdict>, a: nat, b: nat)
    requires a < b < |verdicts|
    requires OutcomeOf(verdicts, a).Accepted? && OutcomeOf(verdicts, b).Accepted?
    ensures !SameAccount(verdicts[a], verdicts[b])
  {
    assert FirstFor(verdicts, b, 0) == b;
  }

  /**
   Every data row that could be a login is either accepted or reported as a duplicate of the earlier accepted row
   for the same account; every other row is reported with its reason. So the counts add up.
   */
  lemma {:induction false} EveryRowIsAccountedFor(source: string, csv: string, p: Platform)
    ensures match AnalysisOf(source, csv, p)
      case Err(_) => true
      case Ok(a) =>
        var verdicts := Judged(source, csv, p).value;
        && a.report.counts.totalRows == |verdicts| == |a.acceptedEntries| + |a.report.issues|
        && a.report.counts.totalRows
           == a.report.counts.acceptedRows + a.report.counts.malformedRows + a.report.counts.duplicateRows
        && forall k :: 0 <= k < |verdicts| ==>
             match verdicts[k]
             case Refuse(reason) => RowIssue(k + FIRST_DATA_ROW, reason) in a.report.issues
             case Candidate(login) =>
               || AcceptedEntry(k + FIRST_DATA_ROW, source, login) in a.acceptedEntries
               || exists j :: 0 <= j < k && SameAccount(verdicts[j], verdicts[k])
                    && AcceptedEntry(j + FIRST_DATA_ROW, source, verdicts[j].login) in a.acceptedEntries
                    && DuplicateIssue(k + FIRST_DATA_ROW, j + FIRST_DATA_ROW) in a.report.issues
  {
    if AnalysisOf(source, csv, p).Ok? {
      var a := AnalysisOf(source, csv, p).value;
      var verdicts := Judged(source, csv, p).value;
      var outcomes := Outcomes(verdicts);
      OutcomesAddUp(outcomes, |outcomes|);
      IssuesAddUp(outcomes, |outcomes|);
      EntriesAreTheAccepted(source, verdicts, |verdicts|);
      forall k | 0 <= k < |verdicts|
        ensures match verdicts[k]
          case Refuse(reason) => RowIssue(k + FIRST_DATA_ROW, reason) in a.report.issues
          case Candidate(login) =>
            || AcceptedEntry(k + FIRST_DATA_ROW, source, login) in a.acceptedEntries
            || exists j :: 0 <= j < k && SameAccount(verdicts[j], verdicts[k])
                 && AcceptedEntry(j + FIRST_DATA_ROW, source, verdicts[j].login) in a.acceptedEntries
                 && DuplicateIssue(k + FIRST_DATA_ROW, j + FIRST_DATA_ROW) in a.report.issues
      {
        RowAccountedFor(source, verdicts, k);
      }
    }
  }

  lemma {:induction false} RowAccountedFor(source: string, verdicts: seq<Verdict>, k: nat)
    requires k < |verdicts|
    ensures var entries := Entries(source, verdicts, |verdicts|);
      var issues := IssuesUpTo(Outcomes(verdicts), |verdicts|);
      match verdicts[k]
      case Refuse(reason) => RowIssue(k + FIRST_DATA_ROW, reason) in issues
      case Candidate(login) =>
        || AcceptedEntry(k + FIRST_DATA_ROW, source, login) in entries
        || exists j :: 0 <= j < k && SameAccount(verdicts[j], verdicts[k])
             && AcceptedEntry(j + FIRST_DATA_ROW, source, verdicts[j].login) in entries
             && DuplicateIssue(k + FIRST_DATA_ROW, j + FIRST_DATA_ROW) in issues
  {
    var outcomes := Outcomes(verdicts);
    assert outcomes[k] == OutcomeOf(verdicts, k);
    match outcomes[k]
    case Accepted =>
      AcceptedIsListed(source, verdicts, |verdicts|, k);
    case Malformed(_) =>
      EveryIssueIsListed(outcomes, |outcomes|, k);
    case Duplicate(_) =>
      var j := FirstFor(verdicts, k, 0);
      EveryIssueIsListed(outcomes, |outcomes|, k);
      OutcomesAreRealizable(verdicts);
      assert outcomes[j].Accepted?;
      AcceptedIsListed(source, verdicts, |verdicts|, j);
  }

  ghost predicate WithinLimits(login: Login, p: Platform) {
    && login.password != "" && p.utf8ByteLength(login.password) <= MAX_PASSWORD_BYTES
    && p.utf8ByteLength(login.username) <= MAX_USERNAME_BYTES
    && p.utf8ByteLength(login.name) <= MAX_NAME_BYTES
    && exists url :: OriginOf(url, login.websiteOrigin, p)
  }

  /** `url` is a web address within the limit, and `origin` is its origin. */
  predicate OriginOf(url: string, origin: string, p: Platform) {
    && p.utf8ByteLength(url) <= MAX_URL_BYTES
    && p.parseUrl(url).Some? && p.parseUrl(url).value.origin == origin
    && (p.parseUrl(url).value.protocol == "http:" || p.parseUrl(url).value.protocol == "https:")
  }

  /** What is accepted is a web login whose parts are within the limits. */
  lemma {:induction false} AcceptedEntriesAreWithinLimits(source: string, csv: string, p: Platform)
    ensures match AnalysisOf(source, csv, p)
      case Err(_) => true
      case Ok(a) =>
        |a.acceptedEntries| <= MAX_DATA_ROWS
        && forall e :: e in a.acceptedEntries ==> e.source == source && WithinLimits(e.login, p)
  {
    if AnalysisOf(source, csv, p).Ok? {
      var lim := Limits(MAX_DATA_ROWS, MAX_HEADER_COLUMNS);
      ParsedNonEmpty(WithoutBom(csv), lim);
      var rows := Parsed(WithoutBom(csv), lim).value;
      var headers := NormalizeHeaders(rows[0].values, p);
      var verdicts := Judged(source, csv, p).value;
      OutcomesAddUp(Outcomes(verdicts), |verdicts|);
      EntriesAreTheAccepted(source, verdicts, |verdicts|);
      var entries := Entries(source, verdicts, |verdicts|);
      forall i | 0 <= i < |entries| ensures entries[i].source == source && WithinLimits(entries[i].login, p) {
        EntryIsOfRow(source, verdicts, |verdicts|, i);
        JudgeKeepsLimits(headers, rows[1..][entries[i].rowIndex - FIRST_DATA_ROW], p);
      }
    }
  }

  lemma {:induction false} JudgeKeepsLimits(headers: seq<string>, record: ParsedRecord, p: Platform)
    ensures Judge(headers, record, p).Candidate? ==> WithinLimits(Judge(headers, record, p).login, p)
  {
    if Judge(headers, record, p).Candidate? {
      var url := p.trim(ValueFor(headers, record.values, "url"));
      assert OriginOf(url, p.parseUrl(url).value.origin, p);
    }
  }
}
