/**
 Which texts the reader accepts: exactly the printings of tables within the limits. The converse of `CsvPrinting`: from
 any text that is read, the cells, the quoting and the line breaks it is a printing of are recovered.
 */
module CsvLanguage {
  import opened Basics
  import opened Csv
  import opened CsvPrinting

  // ---------------------------------------------------------------------------------------------
  // What was scanned is what would be printed.
  // ---------------------------------------------------------------------------------------------

  lemma {:induction false} SliceCons(s: string, i: nat, j: nat)
    requires i < j <= |s|
    ensures s[i..j] == [s[i]] + s[i + 1..j]
  {
  }

  lemma {:induction false} ScannedQuoted(s: string, i: nat)
    requires i <= |s| && ScanQuoted(s, i).Done?
    ensures var (v, j) := (ScanQuoted(s, i).value, ScanQuoted(s, i).next); s[i..j] == Escape(v) + "\""
    decreases |s| - i
  {
    var v, j := ScanQuoted(s, i).value, ScanQuoted(s, i).next;
    SliceCons(s, i, j);
    if s[i] != '"' {
      ScannedQuoted(s, i + 1);
      assert v == [s[i]] + v[1..] && Escape(v) == [s[i]] + Escape(v[1..]);
    } else if i + 1 < |s| && s[i + 1] == '"' {
      ScannedQuoted(s, i + 2);
      SliceCons(s, i + 1, j);
      assert v == ['"'] + v[1..] && Escape(v) == "\"\"" + Escape(v[1..]);
    }
  }

  lemma {:induction false} ScannedPlain(s: string, i: nat)
    requires i <= |s| && ScanPlain(s, i).Done?
    ensures var (v, j) := (ScanPlain(s, i).value, ScanPlain(s, i).next); s[i..j] == v && Printable(Cell(v, false))
    decreases |s| - i
  {
    if !AtFieldEnd(s, i) {
      ScannedPlain(s, i + 1);
      SliceCons(s, i, ScanPlain(s, i).next);
    }
  }

  lemma {:induction false} ScannedField(s: string, i: nat) returns (c: Cell)
    requires i <= |s| && ScanField(s, i).Done?
    ensures c.value == ScanField(s, i).value && Printable(c) && s[i..ScanField(s, i).next] == PrintCell(c)
  {
    hide ScanQuoted, ScanPlain, Escape;
    if i < |s| && s[i] == '"' {
      c := Cell(ScanField(s, i).value, true);
      ScannedQuoted(s, i + 1);
      SliceCons(s, i, ScanField(s, i).next);
    } else {
      c := Cell(ScanField(s, i).value, false);
      ScannedPlain(s, i);
    }
  }

  lemma {:induction false} ScannedRecord(s: string, i: nat, room: Option<nat>) returns (cells: seq<Cell>)
    requires i <= |s| && ScanRecord(s, i, room).Done?
    ensures PrintableRecord(cells) && Values(cells) == ScanRecord(s, i, room).value
    ensures s[i..ScanRecord(s, i, room).next] == PrintRecord(cells)
    ensures room.Some? ==> |cells| <= room.value
    decreases |s| - i
  {
    hide ScanField, PrintCell, Printable;
    var c := ScannedField(s, i);
    var j := ScanField(s, i).next;
    if j < |s| && s[j] == ',' {
      var room': Option<nat> := if room.Some? then Some(room.value - 1) else None;
      var rest := ScannedRecord(s, j + 1, room');
      cells := [c] + rest;
      var k := ScanRecord(s, i, room).next;
      assert cells[1..] == rest;
      assert s[i..k] == s[i..j] + ([','] + s[j + 1..k]);
    } else {
      cells := [c];
      assert Values(cells) == [c.value] + Values([]);
    }
  }

  lemma {:induction false} ScannedBreak(s: string, j: nat) returns (b: Break)
    requires j < |s| && IsBreak(s[j])
    ensures s[j..AfterBreak(s, j)] == PrintBreak(b)
    ensures b.CR? && AfterBreak(s, j) < |s| ==> s[AfterBreak(s, j)] != '\n'
  {
    b := if s[j] == '\n' then LF else if AfterBreak(s, j) == j + 1 then CR else CRLF;
  }

  lemma {:induction false} Glue(s: string, i: nat, j: nat, k: nat)
    requires i <= j <= k <= |s|
    ensures s[i..] == s[i..j] + s[j..k] + s[k..]
  {
  }

  lemma {:induction false} LineFeedStarts(s: string, i: nat, lines: seq<Line>, last: Option<seq<Cell>>)
    requires i <= |s| && lines != [] && PrintFile(lines, last) == s[i..]
    requires Blank(lines[0].cells) && lines[0].ending.LF?
    ensures i < |s| && s[i] == '\n'
  {
    assert PrintRecord(lines[0].cells) == "";
    assert s[i..][0] == '\n';
  }

  /** A file that is read is the printing of the table it is read as. */
  lemma {:induction false} ScannedFile(s: string, i: nat, before: nat, lim: Limits)
    returns (lines: seq<Line>, last: Option<seq<Cell>>)
    requires i <= |s| && ScanFile(s, i, before, lim).Ok?
    ensures PrintableFile(lines, last) && PrintFile(lines, last) == s[i..]
    ensures Table(lines, last) == ScanFile(s, i, before, lim).value
    ensures RecordCount(lines, last) > 0 ==> before + RecordCount(lines, last) <= lim.maxDataRows + 1
    ensures before == 0 ==> HeaderWidth(lines, last) <= lim.maxHeaderColumns
    decreases |s| - i
  {
    hide ScanRecord, PrintRecord, Values, PrintableFile, Blank;
    if i == |s| {
      lines, last := [], None;
      assert PrintableFile(lines, last) by { EmptyIsPrintable(); }
    } else {
      var cells := ScannedRecord(s, i, FileRoom(before, lim));
      var j := ScanRecord(s, i, FileRoom(before, lim)).next;
      if j == |s| {
        lines, last := [], Some(cells);
        assert s[i..] == s[i..j];
        RecordStart(cells);
        LastIsPrintable(cells);
      } else {
        var n := AfterBreak(s, j);
        var b := ScannedBreak(s, j);
        var rest;
        rest, last := ScannedFile(s, n, before + 1, lim);
        var line := Line(cells, b);
        lines := [line] + rest;
        assert lines[1..] == rest;
        Glue(s, i, j, n);
        if rest != [] && Blank(rest[0].cells) && rest[0].ending.LF? { LineFeedStarts(s, n, rest, last); }
        LineIsPrintable(line, rest, last);
      }
    }
  }

  lemma {:induction false} EmptyIsPrintable()
    ensures PrintableFile([], None)
  {
  }

  lemma {:induction false} LastIsPrintable(cells: seq<Cell>)
    requires PrintableRecord(cells) && !Blank(cells)
    ensures PrintableFile([], Some(cells))
  {
  }

  lemma {:induction false} LineIsPrintable(line: Line, rest: seq<Line>, last: Option<seq<Cell>>)
    requires PrintableRecord(line.cells) && PrintableFile(rest, last)
    requires rest != [] ==> Apart(line, rest[0])
    ensures PrintableFile([line] + rest, last)
  {
    hide Apart, PrintableRecord;
    var lines := [line] + rest;
    forall k | 0 < k < |lines| ensures Apart(lines[k - 1], lines[k]) {
      if k > 1 { assert Apart(rest[k - 2], rest[k - 1]); }
    }
  }

  // ---------------------------------------------------------------------------------------------
  // Files beyond the limits.
  // ---------------------------------------------------------------------------------------------

  lemma {:induction false} TooWide(s: string, i: nat, cells: seq<Cell>, rest: string, room: nat)
    requires PrintableRecord(cells) && |cells| > room
    requires i <= |s| && s[i..] == PrintRecord(cells) + rest
    requires rest == "" || IsBreak(rest[0])
    ensures ScanRecord(s, i, Some(room)) == Refused(TooManyColumns)
    decreases |cells|
  {
    hide PrintRecord;
    if |cells| > 1 {
      var j := RecordFirstBack(s, i, cells, rest);
      if room > 0 { TooWide(s, j + 1, cells[1..], rest, room - 1); }
    } else {
      assert PrintRecord(cells) == PrintCell(cells[0]) by { OneCell(cells); }
      FieldBack(s, i, cells[0], rest);
    }
  }

  lemma {:induction false} OneCell(cells: seq<Cell>)
    requires |cells| == 1
    ensures PrintRecord(cells) == PrintCell(cells[0])
  {
  }

  /** The first record of a file and what follows it. */
  lemma {:induction false} FirstRecord(lines: seq<Line>, last: Option<seq<Cell>>)
    returns (cells: seq<Cell>, rest: string)
    requires PrintableFile(lines, last) && RecordCount(lines, last) > 0
    ensures PrintableRecord(cells) && |cells| == HeaderWidth(lines, last)
    ensures PrintFile(lines, last) == PrintRecord(cells) + rest != "" && (rest == "" || IsBreak(rest[0]))
  {
    if lines == [] {
      cells, rest := last.value, "";
      RecordStart(cells);
    } else {
      cells, rest := lines[0].cells, PrintBreak(lines[0].ending) + PrintFile(lines[1..], last);
      FileCons(lines, last);
      BreakStarts(lines[0].ending, PrintFile(lines[1..], last));
    }
  }

  lemma {:induction false} HeaderTooWide(s: string, lines: seq<Line>, last: Option<seq<Cell>>, lim: Limits)
    requires PrintableFile(lines, last) && s == PrintFile(lines, last)
    requires HeaderWidth(lines, last) > lim.maxHeaderColumns
    ensures ScanFile(s, 0, 0, lim) == Err(TooManyColumns)
  {
    hide PrintableFile, PrintFile, PrintRecord, ScanRecord;
    var cells, rest := FirstRecord(lines, last);
    assert s[0..] == s;
    TooWide(s, 0, cells, rest, lim.maxHeaderColumns);
  }

  lemma {:induction false} TooLong(
    s: string, i: nat, lines: seq<Line>, last: Option<seq<Cell>>, before: nat, lim: Limits)
    requires PrintableFile(lines, last)
    requires i <= |s| && s[i..] == PrintFile(lines, last)
    requires before <= lim.maxDataRows + 1 < before + RecordCount(lines, last)
    requires before == 0 ==> HeaderWidth(lines, last) <= lim.maxHeaderColumns
    ensures ScanFile(s, i, before, lim) == Err(TooManyRows)
    decreases |lines|
  {
    hide PrintRecord, ScanRecord, PrintFile, PrintableFile;
    var cells, rest := FirstRecord(lines, last);
    RecordBack(s, i, cells, rest, FileRoom(before, lim));
    if before <= lim.maxDataRows {
      FirstLine(lines, last);
      var j := LineBack(s, i, lines, last, FileRoom(before, lim));
      TooLong(s, AfterBreak(s, j), lines[1..], last, before + 1, lim);
    }
  }

  // ---------------------------------------------------------------------------------------------
  // The language.
  // ---------------------------------------------------------------------------------------------

  predicate PrintsAs(s: string, lines: seq<Line>, last: Option<seq<Cell>>) {
    PrintableFile(lines, last) && PrintFile(lines, last) == s
  }

  function RecordAt(lines: seq<Line>, last: Option<seq<Cell>>, k: nat): seq<Cell>
    requires k < RecordCount(lines, last)
  {
    if k < |lines| then lines[k].cells else last.value
  }

  /**
   What is kept of a record: its values up to the header's width, whether it has more, and whether any cell beyond is
   not empty.
   */
  predicate KeptOf(kept: ParsedRecord, cells: seq<Cell>, width: nat) {
    && |kept.values| == Min(width, |cells|)
    && (forall c :: 0 <= c < |kept.values| ==> kept.values[c] == cells[c].value)
    && (kept.hasExtraFields <==> |cells| > width)
    && (kept.discardedFieldHasContent <==> exists c :: width <= c < |cells| && cells[c].value != "")
  }

  lemma {:induction false} ValuesAt(cells: seq<Cell>)
    ensures |Values(cells)| == |cells| && forall c :: 0 <= c < |cells| ==> Values(cells)[c] == cells[c].value
  {
    if cells != [] { ValuesAt(cells[1..]); }
  }

  lemma {:induction false} TableAt(lines: seq<Line>, last: Option<seq<Cell>>, k: nat)
    requires k < RecordCount(lines, last)
    ensures |Table(lines, last)| == RecordCount(lines, last)
      && Table(lines, last)[k] == Values(RecordAt(lines, last, k))
  {
    TableShape(lines, last);
    if lines != [] && k > 0 { TableAt(lines[1..], last, k - 1); }
  }

  lemma {:induction false} RowIsKept(lines: seq<Line>, last: Option<seq<Cell>>, k: nat)
    requires k < RecordCount(lines, last)
    ensures var rows := CutToHeader(Table(lines, last));
      k < |rows| && KeptOf(rows[k], RecordAt(lines, last, k), HeaderWidth(lines, last))
  {
    hide Table, Values;
    TableAt(lines, last, k);
    TableShape(lines, last);
    var cells, width := RecordAt(lines, last, k), HeaderWidth(lines, last);
    ValuesAt(cells);
    if c :| width <= c < |cells| && cells[c].value != "" { assert Values(cells)[c] != ""; }
  }

  lemma {:induction false} RowCount(lines: seq<Line>, last: Option<seq<Cell>>)
    ensures |CutToHeader(Table(lines, last))| == RecordCount(lines, last)
  {
    TableShape(lines, last);
  }

  /** How the printing of any table is read: refused for its width, then for its length, and otherwise as itself. */
  lemma {:induction false} PrintedFileIsRead(s: string, lines: seq<Line>, last: Option<seq<Cell>>, lim: Limits)
    requires PrintsAs(s, lines, last)
    ensures Parsed(s, lim)
      == if HeaderWidth(lines, last) > lim.maxHeaderColumns then Err(TooManyColumns)
         else if RecordCount(lines, last) > lim.maxDataRows + 1 then Err(TooManyRows)
         else Ok(CutToHeader(Table(lines, last)))
    ensures Parsed(s, lim).Ok? ==>
      && |Parsed(s, lim).value| == RecordCount(lines, last)
      && forall k :: 0 <= k < RecordCount(lines, last) ==>
           KeptOf(Parsed(s, lim).value[k], RecordAt(lines, last, k), HeaderWidth(lines, last))
  {
    hide PrintFile, PrintableFile, ScanFile, Table, CutToHeader;
    forall k | 0 <= k < RecordCount(lines, last)
      ensures k < |CutToHeader(Table(lines, last))|
        && KeptOf(CutToHeader(Table(lines, last))[k], RecordAt(lines, last, k), HeaderWidth(lines, last))
    {
      RowIsKept(lines, last, k);
    }
    RowCount(lines, last);
    assert s[0..] == s;
    if HeaderWidth(lines, last) > lim.maxHeaderColumns {
      HeaderTooWide(s, lines, last, lim);
    } else if RecordCount(lines, last) > lim.maxDataRows + 1 {
      TooLong(s, 0, lines, last, 0, lim);
    } else {
      FileBack(s, 0, lines, last, 0, lim);
    }
  }

  /**
   The reader accepts exactly the printings of tables within the limits: every other text is malformed, or exceeds a
   limit before its fault is met.
   */
  lemma {:induction false} AcceptsExactlyThePrintings(s: string, lim: Limits)
    ensures Parsed(s, lim).Ok? <==> exists lines, last ::
      && PrintsAs(s, lines, last)
      && HeaderWidth(lines, last) <= lim.maxHeaderColumns && RecordCount(lines, last) <= lim.maxDataRows + 1
    ensures Parsed(s, lim) == Err(MalformedCsv) ==> !exists lines, last :: PrintsAs(s, lines, last)
  {
    hide ScanFile, CutToHeader, PrintFile, PrintableFile;
    forall lines, last | PrintsAs(s, lines, last)
      ensures Parsed(s, lim).Ok? <==>
        HeaderWidth(lines, last) <= lim.maxHeaderColumns && RecordCount(lines, last) <= lim.maxDataRows + 1
      ensures Parsed(s, lim) != Err(MalformedCsv)
    {
      PrintedFileIsRead(s, lines, last, lim);
    }
    if Parsed(s, lim).Ok? {
      var lines, last := ScannedFile(s, 0, 0, lim);
      assert s[0..] == s;
      assert PrintsAs(s, lines, last);
    }
  }
}
