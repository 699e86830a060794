/**
 The CSV reader of the browser import (packages/domain/src/browser-import.ts).

 `ParseCsv` is the source's character loop, which cuts every data record to the width of the header while it
 reads. `ScanFile` is an independent description of the same language: a recursive-descent grammar with no
 cutting at all. `ParseCsv` is proved to be `ScanFile` followed by cutting.
 */
module Csv {
  import opened Basics

  datatype ImportError =
    | UnsupportedSource
    | FileTooLarge
    | EmptyCsv
    | MalformedCsv
    | MissingRequiredHeader
    | DuplicateHeader
    | TooManyColumns
    | TooManyRows

  datatype ParsedRecord = ParsedRecord(values: seq<string>, hasExtraFields: bool, discardedFieldHasContent: bool)

  datatype Limits = Limits(maxDataRows: nat, maxHeaderColumns: nat)

  // ---------------------------------------------------------------------------------------------
  // The grammar: fields, records and files, read whole.
  // ---------------------------------------------------------------------------------------------

  /** What was read from some position: a value and the position after it, or the reason it is refused. */
  datatype Scan<+T> = Done(value: T, next: nat) | Refused(error: ImportError)

  predicate IsBreak(c: char) {
    c == '\n' || c == '\r'
  }

  /** Position `i` is where a field may end: end of input, a comma or a line break. */
  predicate AtFieldEnd(s: string, i: nat)
    requires i <= |s|
  {
    i == |s| || s[i] == ',' || IsBreak(s[i])
  }

  /** The rest of a quoted field, after its opening quote; a doubled quote stands for one. */
  function ScanQuoted(s: string, i: nat): (r: Scan<string>)
    requires i <= |s|
    ensures r.Done? ==> i < r.next <= |s|
    ensures r.Refused? ==> r.error == MalformedCsv
    decreases |s| - i
  {
    if i == |s| then Refused(MalformedCsv)
    else if s[i] != '"' then Prepend(s[i], ScanQuoted(s, i + 1))
    else if i + 1 < |s| && s[i + 1] == '"' then Prepend('"', ScanQuoted(s, i + 2))
    else Done("", i + 1)
  }

  /** The rest of an unquoted field; a quote inside it is refused. */
  function ScanPlain(s: string, i: nat): (r: Scan<string>)
    requires i <= |s|
    ensures r.Done? ==> i <= r.next <= |s| && AtFieldEnd(s, r.next)
    ensures r.Refused? ==> r.error == MalformedCsv
    decreases |s| - i
  {
    if AtFieldEnd(s, i) then Done("", i)
    else if s[i] == '"' then Refused(MalformedCsv)
    else Prepend(s[i], ScanPlain(s, i + 1))
  }

  function Prepend(c: char, r: Scan<string>): Scan<string> {
    match r
    case Done(v, next) => Done([c] + v, next)
    case Refused(_) => r
  }

  function ScanField(s: string, i: nat): (r: Scan<string>)
    requires i <= |s|
    ensures r.Done? ==> i <= r.next <= |s| && AtFieldEnd(s, r.next)
    ensures r.Refused? ==> r.error == MalformedCsv
  {
    if i < |s| && s[i] == '"' then
      var q := ScanQuoted(s, i + 1);
      if q.Done? && !AtFieldEnd(s, q.next) then Refused(MalformedCsv) else q
    else
      ScanPlain(s, i)
  }

  /** Every field of one record. `room` is the number of columns still allowed, for the header only. */
  function ScanRecord(s: string, i: nat, room: Option<nat>): (r: Scan<seq<string>>)
    requires i <= |s|
    ensures r.Done? ==> i <= r.next <= |s| && (r.next == |s| || IsBreak(s[r.next]))
    ensures r.Done? ==> r.value != []
    decreases |s| - i
  {
    match ScanField(s, i)
    case Refused(e) => Refused(e)
    case Done(v, j) =>
      if room == Some(0) then Refused(TooManyColumns)
      else if j < |s| && s[j] == ',' then
        match ScanRecord(s, j + 1, if room.Some? then Some(room.value - 1) else None)
        case Refused(e) => Refused(e)
        case Done(vs, k) => Done([v] + vs, k)
      else
        Done([v], j)
  }

  /** The position after the line break at `i`: CR, LF and CRLF each count as one break. */
  function AfterBreak(s: string, i: nat): (j: nat)
    requires i <= |s|
    ensures i <= j <= |s| && (i < |s| ==> i < j)
  {
    if i == |s| then i
    else if s[i] == '\r' && i + 1 < |s| && s[i + 1] == '\n' then i + 2
    else i + 1
  }

  /** The columns allowed in the record that follows `before` others. */
  function FileRoom(before: nat, lim: Limits): Option<nat> {
    if before == 0 then Some(lim.maxHeaderColumns) else None
  }

  /** Every record from position `i` on, when `before` records precede it. */
  function ScanFile(s: string, i: nat, before: nat, lim: Limits): (r: Result<seq<seq<string>>, ImportError>)
    requires i <= |s|
    ensures r.Ok? ==> forall k :: 0 <= k < |r.value| ==> r.value[k] != []
    decreases |s| - i
  {
    if i == |s| then Ok([])
    else
      match ScanRecord(s, i, FileRoom(before, lim))
      case Refused(e) => Err(e)
      case Done(fields, j) =>
        if before > lim.maxDataRows then Err(TooManyRows)
        else if j == |s| then Ok([fields])
        else
          match ScanFile(s, AfterBreak(s, j), before + 1, lim)
          case Err(e) => Err(e)
          case Ok(rest) => Ok([fields] + rest)
  }

  // ---------------------------------------------------------------------------------------------
  // Cutting records to the header width.
  // ---------------------------------------------------------------------------------------------

  predicate HasContentFrom(fields: seq<string>, width: nat) {
    exists k :: width <= k < |fields| && fields[k] != ""
  }

  /** A record as the importer keeps it: the first `width` fields, and two facts about the others. */
  function Cut(fields: seq<string>, width: nat): ParsedRecord {
    ParsedRecord(fields[..Min(width, |fields|)], |fields| > width, HasContentFrom(fields, width))
  }

  /** All records cut to the width of the first. */
  function CutToHeader(records: seq<seq<string>>): seq<ParsedRecord> {
    seq(|records|, k requires 0 <= k < |records| => Cut(records[k], |records[0]|))
  }

  /** What the importer must read from `s`. */
  function Parsed(s: string, lim: Limits): Result<seq<ParsedRecord>, ImportError> {
    match ScanFile(s, 0, 0, lim)
    case Err(e) => Err(e)
    case Ok(records) => Ok(CutToHeader(records))
  }

  // ---------------------------------------------------------------------------------------------
  // The loop's state, and one iteration of it.
  // ---------------------------------------------------------------------------------------------

  datatype Reader = Reader(
    rows: seq<ParsedRecord>,
    row: seq<string>,
    field: string,
    inQuotes: bool,
    justClosedQuote: bool,
    fieldHasUnquotedContent: bool,
    hasExtraFields: bool,
    discardedFieldHasContent: bool)
  {
    predicate CapturesCurrentField() {
      rows == [] || |row| < |rows[0].values|
    }

    function Append(c: char): Reader {
      if CapturesCurrentField() then this.(field := field + [c]) else this.(discardedFieldHasContent := true)
    }

    function FinishField(lim: Limits): Result<Reader, ImportError> {
      if rows == [] && |row| >= lim.maxHeaderColumns then Err(TooManyColumns)
      else
        var taken :=
          if CapturesCurrentField() then this.(row := row + [field])
          else this.(hasExtraFields := true, discardedFieldHasContent := discardedFieldHasContent || |field| > 0);
        Ok(taken.(field := "", justClosedQuote := false, fieldHasUnquotedContent := false))
    }

    function FinishRow(lim: Limits): Result<Reader, ImportError> {
      match FinishField(lim)
      case Err(e) => Err(e)
      case Ok(r) =>
        var rows' := r.rows + [ParsedRecord(r.row, r.hasExtraFields, r.discardedFieldHasContent)];
        if |rows'| - 1 > lim.maxDataRows then Err(TooManyRows)
        else Ok(r.(rows := rows', row := [], hasExtraFields := false, discardedFieldHasContent := false))
    }

    /** A record is under way when the input ends. */
    predicate Pending() {
      |field| > 0 || fieldHasUnquotedContent || |row| > 0 || hasExtraFields || justClosedQuote
    }
  }

  /** The state between two records. */
  function Between(rows: seq<ParsedRecord>): Reader {
    Reader(rows, [], "", false, false, false, false, false)
  }

  /** One iteration of the loop at position `i`: the next state and the next position. */
  function Step(s: string, i: nat, st: Reader, lim: Limits): (r: Result<(Reader, nat), ImportError>)
    requires i < |s|
    ensures r.Ok? ==> i < r.value.1 <= |s|
  {
    var c := s[i];
    if st.inQuotes then
      if c != '"' then Ok((st.Append(c), i + 1))
      else if i + 1 < |s| && s[i + 1] == '"' then Ok((st.Append('"'), i + 2))
      else Ok((st.(inQuotes := false, justClosedQuote := true), i + 1))
    else if c == ',' then
      match st.FinishField(lim) case Err(e) => Err(e) case Ok(st') => Ok((st', i + 1))
    else if IsBreak(c) then
      match st.FinishRow(lim) case Err(e) => Err(e) case Ok(st') => Ok((st', AfterBreak(s, i)))
    else if st.justClosedQuote then Err(MalformedCsv)
    else if c == '"' then
      if st.fieldHasUnquotedContent then Err(MalformedCsv) else Ok((st.(inQuotes := true), i + 1))
    else Ok((st.Append(c).(fieldHasUnquotedContent := true), i + 1))
  }

  /** What the loop returns when it goes on from state `st` at position `i`. */
  function Run(s: string, i: nat, st: Reader, lim: Limits): Result<seq<ParsedRecord>, ImportError>
    requires i <= |s|
    decreases |s| - i
  {
    if i < |s| then
      match Step(s, i, st, lim)
      case Err(e) => Err(e)
      case Ok((st', j)) => Run(s, j, st', lim)
    else if st.inQuotes then Err(MalformedCsv)
    else if st.Pending() then
      match st.FinishRow(lim) case Err(e) => Err(e) case Ok(st') => Ok(st'.rows)
    else Ok(st.rows)
  }

  // ---------------------------------------------------------------------------------------------
  // The loop agrees with the grammar: one lemma per grammar rule.
  // ---------------------------------------------------------------------------------------------

  /** `st` after the characters `v` of the current field. */
  function Took(st: Reader, v: string): Reader {
    if st.CapturesCurrentField() then st.(field := st.field + v)
    else st.(discardedFieldHasContent := st.discardedFieldHasContent || v != "")
  }

  lemma {:induction false} TookCons(st: Reader, c: char, v: string)
    ensures Took(st.Append(c), v) == Took(st, [c] + v)
  {
    assert st.field + [c] + v == st.field + ([c] + v);
  }

  lemma {:induction false} RunQuoted(s: string, i: nat, st: Reader, lim: Limits)
    requires i <= |s| && st.inQuotes
    ensures match ScanQuoted(s, i)
      case Refused(e) => Run(s, i, st, lim) == Err(e)
      case Done(v, j) => Run(s, i, st, lim) == Run(s, j, Took(st, v).(inQuotes := false, justClosedQuote := true), lim)
    decreases |s| - i
  {
    if i == |s| {
    } else if s[i] != '"' {
      RunQuoted(s, i + 1, st.Append(s[i]), lim);
      if ScanQuoted(s, i + 1).Done? { TookCons(st, s[i], ScanQuoted(s, i + 1).value); }
    } else if i + 1 < |s| && s[i + 1] == '"' {
      RunQuoted(s, i + 2, st.Append('"'), lim);
      if ScanQuoted(s, i + 2).Done? { TookCons(st, '"', ScanQuoted(s, i + 2).value); }
    } else {
      assert st.field + "" == st.field;
    }
  }

  /** A field has not been opened by a quote. */
  predicate Unquoted(st: Reader) {
    !st.inQuotes && !st.justClosedQuote
  }

  lemma {:induction false} RunPlain(s: string, i: nat, st: Reader, lim: Limits)
    requires i <= |s| && Unquoted(st)
    requires st.fieldHasUnquotedContent || i == |s| || s[i] != '"'
    ensures match ScanPlain(s, i)
      case Refused(e) => Run(s, i, st, lim) == Err(e)
      case Done(v, j) =>
        Run(s, i, st, lim)
        == Run(s, j, Took(st, v).(fieldHasUnquotedContent := st.fieldHasUnquotedContent || v != ""), lim)
    decreases |s| - i
  {
    hide Reader.FinishField, Reader.FinishRow, AfterBreak;
    if AtFieldEnd(s, i) {
      assert st.field + "" == st.field;
    } else if s[i] == '"' {
    } else {
      var st' := st.Append(s[i]).(fieldHasUnquotedContent := true);
      RunPlain(s, i + 1, st', lim);
      if ScanPlain(s, i + 1).Done? {
        var v := ScanPlain(s, i + 1).value;
        TookCons(st, s[i], v);
      }
    }
  }

  /** At the start of a field nothing of it has been read. */
  predicate FieldStart(st: Reader) {
    Unquoted(st) && st.field == "" && !st.fieldHasUnquotedContent
  }

  /** `st` with the whole field `v` read and not yet finished. */
  function FieldRead(st: Reader, v: string, quoted: bool): Reader {
    Took(st, v).(justClosedQuote := quoted, fieldHasUnquotedContent := !quoted && v != "")
  }

  lemma {:induction false} RunField(s: string, i: nat, st: Reader, lim: Limits)
    requires i <= |s| && FieldStart(st)
    ensures match ScanField(s, i)
      case Refused(e) => Run(s, i, st, lim) == Err(e)
      case Done(v, j) => Run(s, i, st, lim) == Run(s, j, FieldRead(st, v, i < |s| && s[i] == '"'), lim)
  {
    if i < |s| && s[i] == '"' {
      RunQuoted(s, i + 1, st.(inQuotes := true), lim);
    } else {
      RunPlain(s, i, st, lim);
    }
  }

  /** The state inside a record whose fields so far are `fields`, after the full records `records`. */
  function Within(records: seq<seq<string>>, fields: seq<string>): Reader {
    var rows := CutToHeader(records);
    if records == [] then Between(rows).(row := fields)
    else
      var c := Cut(fields, |records[0]|);
      Between(rows).(row := c.values, hasExtraFields := c.hasExtraFields,
        discardedFieldHasContent := c.discardedFieldHasContent)
  }

  lemma {:induction false} FieldFinished(
    records: seq<seq<string>>, fields: seq<string>, v: string, quoted: bool, lim: Limits)
    ensures FieldRead(Within(records, fields), v, quoted).FinishField(lim)
         == if records == [] && |fields| >= lim.maxHeaderColumns then Err(TooManyColumns)
            else Ok(Within(records, fields + [v]))
  {
    var st := FieldRead(Within(records, fields), v, quoted);
    var fields' := fields + [v];
    assert "" + v == v;
    if records != [] {
      var width := |records[0]|;
      assert CutToHeader(records)[0] == Cut(records[0], width);
      assert st.CapturesCurrentField() <==> |fields| < width;
      if |fields| < width {
        assert !HasContentFrom(fields, width) && !HasContentFrom(fields', width);
        assert fields'[..Min(width, |fields'|)] == fields[..Min(width, |fields|)] + [v];
      } else {
        assert fields'[..width] == fields[..width];
        assert HasContentFrom(fields', width) <==> HasContentFrom(fields, width) || v != "" by {
          if HasContentFrom(fields, width) {
            var k :| width <= k < |fields| && fields[k] != "";
            assert fields'[k] != "";
          }
          if v != "" { assert fields'[|fields|] != ""; }
        }
      }
    }
  }

  lemma {:induction false} RowFinished(
    records: seq<seq<string>>, fields: seq<string>, v: string, quoted: bool, lim: Limits)
    ensures FieldRead(Within(records, fields), v, quoted).FinishRow(lim)
         == if records == [] && |fields| >= lim.maxHeaderColumns then Err(TooManyColumns)
            else if |records| > lim.maxDataRows then Err(TooManyRows)
            else Ok(Between(CutToHeader(records + [fields + [v]])))
  {
    FieldFinished(records, fields, v, quoted, lim);
    var records' := records + [fields + [v]];
    var before, after := CutToHeader(records), CutToHeader(records');
    if records == [] {
      var fields' := fields + [v];
      assert !HasContentFrom(fields', |fields'|);
      assert fields'[..|fields'|] == fields';
      assert records' == [fields'] && before == [];
      assert Cut(fields', |fields'|) == ParsedRecord(fields', false, false);
      assert before + [ParsedRecord(fields', false, false)] == after;
    } else {
      assert after == before + [Cut(fields + [v], |records[0]|)];
    }
  }

  /** The columns still allowed once `fields` have been read: bounded in the header only. */
  function Room(records: seq<seq<string>>, fields: seq<string>, lim: Limits): Option<nat>
    requires records == [] ==> |fields| <= lim.maxHeaderColumns
  {
    if records == [] then Some(lim.maxHeaderColumns - |fields|) else None
  }

  /** How the loop goes on once the grammar has found the rest of a record. */
  function AfterRecord(s: string, records: seq<seq<string>>, fields: seq<string>, rest: Scan<seq<string>>, lim: Limits)
    : Result<seq<ParsedRecord>, ImportError>
    requires rest.Done? ==> rest.next <= |s|
  {
    match rest
    case Refused(e) => Err(e)
    case Done(vs, j) =>
      if |records| > lim.maxDataRows then Err(TooManyRows)
      else Run(s, AfterBreak(s, j), Between(CutToHeader(records + [fields + vs])), lim)
  }

  /** One record: the loop finishes exactly the fields the grammar finds. */
  lemma {:induction false} RunRecord(s: string, i: nat, records: seq<seq<string>>, fields: seq<string>, lim: Limits)
    requires i <= |s|
    requires i < |s| || fields != []
    requires forall k :: 0 <= k < |records| ==> records[k] != []
    requires records == [] ==> |fields| <= lim.maxHeaderColumns
    ensures Run(s, i, Within(records, fields), lim)
         == AfterRecord(s, records, fields, ScanRecord(s, i, Room(records, fields, lim)), lim)
    decreases |s| - i
  {
    hide Run, ScanField, FieldRead, CutToHeader;
    assert FieldStart(Within(records, fields));
    hide Within;
    RunField(s, i, Within(records, fields), lim);
    if ScanField(s, i).Done? {
      var Done(v, j) := ScanField(s, i);
      if j < |s| && s[j] == ',' {
        RunComma(s, i, j, records, fields, v, lim);
        if !(records == [] && |fields| >= lim.maxHeaderColumns) {
          RunRecord(s, j + 1, records, fields + [v], lim);
          RecordCons(s, j + 1, records, fields, v, lim);
        }
      } else {
        RunRecordEnd(s, i, j, records, fields, v, lim);
      }
    }
  }

  lemma {:induction false} RecordCons(
    s: string, i: nat, records: seq<seq<string>>, fields: seq<string>, v: string, lim: Limits)
    requires i <= |s|
    requires records == [] ==> |fields| < lim.maxHeaderColumns
    ensures var rest := ScanRecord(s, i, Room(records, fields + [v], lim));
      rest.Done? ==> AfterRecord(s, records, fields + [v], rest, lim)
                     == AfterRecord(s, records, fields, Done([v] + rest.value, rest.next), lim)
  {
    var rest := ScanRecord(s, i, Room(records, fields + [v], lim));
    if rest.Done? {
      assert fields + [v] + rest.value == fields + ([v] + rest.value);
    }
  }

  /** A field followed by a comma. */
  lemma {:induction false} RunComma(
    s: string, i: nat, j: nat, records: seq<seq<string>>, fields: seq<string>, v: string, lim: Limits)
    requires i <= j < |s|
    requires ScanField(s, i) == Done(v, j) && s[j] == ','
    ensures Run(s, j, FieldRead(Within(records, fields), v, s[i] == '"'), lim)
         == if records == [] && |fields| >= lim.maxHeaderColumns then Err(TooManyColumns)
            else Run(s, j + 1, Within(records, fields + [v]), lim)
  {
    FieldFinished(records, fields, v, s[i] == '"', lim);
  }

  /** The last field of a record, followed by a line break or the end of the input. */
  lemma {:induction false} RunRecordEnd(
    s: string, i: nat, j: nat, records: seq<seq<string>>, fields: seq<string>, v: string, lim: Limits)
    requires i <= |s|
    requires i < |s| || fields != []
    requires forall k :: 0 <= k < |records| ==> records[k] != []
    requires ScanField(s, i) == Done(v, j) && (j == |s| || IsBreak(s[j]))
    ensures Run(s, j, FieldRead(Within(records, fields), v, i < |s| && s[i] == '"'), lim)
         == if records == [] && |fields| >= lim.maxHeaderColumns then Err(TooManyColumns)
            else if |records| > lim.maxDataRows then Err(TooManyRows)
            else Run(s, AfterBreak(s, j), Between(CutToHeader(records + [fields + [v]])), lim)
  {
    RowFinished(records, fields, v, i < |s| && s[i] == '"', lim);
    if j == |s| {
      PendingAtEnd(s, i, records, fields, v);
    }
  }

  lemma {:induction false} PendingAtEnd(s: string, i: nat, records: seq<seq<string>>, fields: seq<string>, v: string)
    requires i <= |s| && (i < |s| || fields != [])
    requires forall k :: 0 <= k < |records| ==> records[k] != []
    requires ScanField(s, i) == Done(v, |s|)
    ensures FieldRead(Within(records, fields), v, i < |s| && s[i] == '"').Pending()
  {
    var st := Within(records, fields);
    if records != [] {
      assert CutToHeader(records)[0] == Cut(records[0], |records[0]|);
    }
    if fields == [] && s[i] != '"' {
      assert v != "";
    }
  }

  lemma {:induction false} WithinNothing(records: seq<seq<string>>)
    ensures Within(records, []) == Between(CutToHeader(records))
  {
    if records != [] { assert !HasContentFrom([], |records[0]|); }
  }

  lemma {:induction false} RunAtEnd(s: string, records: seq<seq<string>>, lim: Limits)
    ensures Run(s, |s|, Between(CutToHeader(records)), lim) == Ok(CutToHeader(records))
  {
  }

  lemma {:induction false} RunFile(s: string, i: nat, records: seq<seq<string>>, lim: Limits)
    requires i <= |s|
    requires forall k :: 0 <= k < |records| ==> records[k] != []
    ensures Run(s, i, Between(CutToHeader(records)), lim)
         == match ScanFile(s, i, |records|, lim) case Err(e) => Err(e) case Ok(rest) => Ok(CutToHeader(records + rest))
    decreases |s| - i
  {
    hide Run, ScanRecord, Within, CutToHeader;
    if i == |s| {
      RunAtEnd(s, records, lim);
      assert records + [] == records;
    } else {
      WithinNothing(records);
      RunRecord(s, i, records, [], lim);
      var scan := ScanRecord(s, i, Room(records, [], lim));
      if scan.Done? && |records| <= lim.maxDataRows {
        var records', j := records + [scan.value], AfterBreak(s, scan.next);
        assert [] + scan.value == scan.value;
        RunFile(s, j, records', lim);
        assert records' + [] == records';
        if scan.next < |s| {
          var rest := ScanFile(s, j, |records'|, lim);
          if rest.Ok? { assert records' + rest.value == records + ([scan.value] + rest.value); }
        }
      }
    }
  }

  /** The header-bounded loop reads exactly what the grammar reads, cut to the header width. */
  lemma {:induction false} LoopRefinesGrammar(s: string, lim: Limits)
    ensures Run(s, 0, Between([]), lim) == Parsed(s, lim)
  {
    RunFile(s, 0, [], lim);
    assert CutToHeader([]) == [];
    if ScanFile(s, 0, 0, lim).Ok? {
      assert [] + ScanFile(s, 0, 0, lim).value == ScanFile(s, 0, 0, lim).value;
    }
  }

  // ---------------------------------------------------------------------------------------------
  // The source's loop, with its variables as fields.
  // ---------------------------------------------------------------------------------------------

  class CsvReader {
    const lim: Limits
    var rows: seq<ParsedRecord>
    var row: seq<string>
    var field: string
    var inQuotes: bool
    var justClosedQuote: bool
    var fieldHasUnquotedContent: bool
    var hasExtraFields: bool
    var discardedFieldHasContent: bool

    ghost function State(): Reader
      reads this
    {
      Reader(rows, row, field, inQuotes, justClosedQuote, fieldHasUnquotedContent,
        hasExtraFields, discardedFieldHasContent)
    }

    constructor (lim: Limits)
      ensures this.lim == lim && State() == Between([])
    {
      this.lim := lim;
      rows, row, field := [], [], "";
      inQuotes, justClosedQuote, fieldHasUnquotedContent := false, false, false;
      hasExtraFields, discardedFieldHasContent := false, false;
    }

    predicate CapturesCurrentField()
      reads this
    {
      |rows| == 0 || |row| < |rows[0].values|
    }

    method AppendFieldCharacter(c: char)
      modifies this
      ensures State() == old(State()).Append(c)
    {
      if CapturesCurrentField() {
        field := field + [c];
      } else {
        discardedFieldHasContent := true;
      }
    }

    method FinishField() returns (error: Option<ImportError>)
      modifies this
      ensures match old(State()).FinishField(lim)
        case Err(e) => error == Some(e)
        case Ok(st) => error == None && State() == st
    {
      if |rows| == 0 && |row| >= lim.maxHeaderColumns {
        return Some(TooManyColumns);
      }
      if CapturesCurrentField() {
        row := row + [field];
      } else {
        hasExtraFields := true;
        discardedFieldHasContent := discardedFieldHasContent || |field| > 0;
      }
      field := "";
      justClosedQuote := false;
      fieldHasUnquotedContent := false;
      return None;
    }

    method FinishRow() returns (error: Option<ImportError>)
      modifies this
      ensures match old(State()).FinishRow(lim)
        case Err(e) => error == Some(e)
        case Ok(st) => error == None && State() == st
    {
      error := FinishField();
      if error.Some? {
        return;
      }
      rows := rows + [ParsedRecord(row, hasExtraFields, discardedFieldHasContent)];
      row := [];
      hasExtraFields := false;
      discardedFieldHasContent := false;
      if |rows| - 1 > lim.maxDataRows {
        return Some(TooManyRows);
      }
    }
  }

  method ParseCsv(input: string, maxDataRows: nat, maxHeaderColumns: nat)
    returns (r: Result<seq<ParsedRecord>, ImportError>)
    ensures r == Parsed(input, Limits(maxDataRows, maxHeaderColumns))
  {
    hide Parsed, Reader.FinishField, Reader.FinishRow, Reader.Append, Reader.CapturesCurrentField;
    var lim := Limits(maxDataRows, maxHeaderColumns);
    LoopRefinesGrammar(input, lim);
    var reader := new CsvReader(lim);
    var index := 0;
    while index < |input|
      invariant reader.lim == lim
      invariant 0 <= index <= |input|
      invariant Run(input, index, reader.State(), lim) == Parsed(input, lim)
    {
      var character := input[index];
      if reader.inQuotes {
        if character == '"' {
          if index + 1 < |input| && input[index + 1] == '"' {
            reader.AppendFieldCharacter('"');
            index := index + 1;
          } else {
            reader.inQuotes := false;
            reader.justClosedQuote := true;
          }
        } else {
          reader.AppendFieldCharacter(character);
        }
        index := index + 1;
        continue;
      }

      if reader.justClosedQuote {
        if character == ',' {
          var error := reader.FinishField();
          if error.Some? { return Err(error.value); }
          index := index + 1;
          continue;
        }
        if character == '\n' || character == '\r' {
          var error := reader.FinishRow();
          if error.Some? { return Err(error.value); }
          if character == '\r' && index + 1 < |input| && input[index + 1] == '\n' {
            index := index + 1;
          }
          index := index + 1;
          continue;
        }
        return Err(MalformedCsv);
      }

      if character == '"' {
        if reader.fieldHasUnquotedContent {
          return Err(MalformedCsv);
        }
        reader.inQuotes := true;
        index := index + 1;
        continue;
      }
      if character == ',' {
        var error := reader.FinishField();
        if error.Some? { return Err(error.value); }
        index := index + 1;
        continue;
      }
      if character == '\n' || character == '\r' {
        var error := reader.FinishRow();
        if error.Some? { return Err(error.value); }
        if character == '\r' && index + 1 < |input| && input[index + 1] == '\n' {
          index := index + 1;
        }
        index := index + 1;
        continue;
      }
      reader.AppendFieldCharacter(character);
      reader.fieldHasUnquotedContent := true;
      index := index + 1;
    }

    if reader.inQuotes {
      return Err(MalformedCsv);
    }
    if |reader.field| > 0 || reader.fieldHasUnquotedContent || |reader.row| > 0
       || reader.hasExtraFields || reader.justClosedQuote {
      var error := reader.FinishRow();
      if error.Some? { return Err(error.value); }
    }
    return Ok(reader.rows);
  }
}
