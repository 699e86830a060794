/**
 Printing a table as CSV and reading it back. A cell may be printed quoted, with its quotes doubled, or bare when
 it holds no comma, quote or line break; records end in any mix of CR, LF and CRLF, and the last record may go without
 a line break. Only two printings read back as something else and are ruled out: a last record that prints as nothing,
 and a record that prints as nothing between CR and LF.
 */
module CsvPrinting {
  import opened Basics
  import opened Csv

  datatype Cell = Cell(value: string, quoted: bool)

  datatype Break = CR | LF | CRLF

  datatype Line = Line(cells: seq<Cell>, ending: Break)

  predicate Special(c: char) {
    c == ',' || c == '"' || IsBreak(c)
  }

  predicate Printable(c: Cell) {
    c.quoted || forall k :: 0 <= k < |c.value| ==> !Special(c.value[k])
  }

  /** The record that prints as nothing: a single empty cell printed bare. */
  predicate Blank(cells: seq<Cell>) {
    cells == [Cell("", false)]
  }

  predicate PrintableRecord(cells: seq<Cell>) {
    cells != [] && forall k :: 0 <= k < |cells| ==> Printable(cells[k])
  }

  function Escape(v: string): string {
    if v == "" then "" else (if v[0] == '"' then "\"\"" else [v[0]]) + Escape(v[1..])
  }

  function PrintCell(c: Cell): string {
    if c.quoted then "\"" + Escape(c.value) + "\"" else c.value
  }

  function PrintRecord(cells: seq<Cell>): string {
    if cells == [] then "" else if |cells| == 1 then PrintCell(cells[0])
    else PrintCell(cells[0]) + "," + PrintRecord(cells[1..])
  }

  function PrintBreak(b: Break): string {
    match b case CR => "\r" case LF => "\n" case CRLF => "\r\n"
  }

  /** Whole lines, then an optional last record without a line break. */
  function PrintFile(lines: seq<Line>, last: Option<seq<Cell>>): string {
    if lines == [] then (if last.Some? then PrintRecord(last.value) else "")
    else PrintRecord(lines[0].cells) + PrintBreak(lines[0].ending) + PrintFile(lines[1..], last)
  }

  function Values(cells: seq<Cell>): seq<string> {
    if cells == [] then [] else [cells[0].value] + Values(cells[1..])
  }

  function Table(lines: seq<Line>, last: Option<seq<Cell>>): seq<seq<string>> {
    if lines == [] then (if last.Some? then [Values(last.value)] else [])
    else [Values(lines[0].cells)] + Table(lines[1..], last)
  }

  // `s[i..]` is the text under the reader; `rest` is what follows the printed part.

  lemma {:induction false} Regroup(a: string, b: string, c: string, d: string)
    ensures a + b + c + d == a + (b + (c + d))
  {
  }

  /** Moving past the text `a` under the reader leaves the text `b`. */
  lemma {:induction false} Skip(s: string, i: nat, a: string, b: string)
    requires i <= |s| && s[i..] == a + b
    ensures i + |a| == |s| - |b| && s[i + |a|..] == b
    ensures b != "" ==> i + |a| < |s| && s[i + |a|] == b[0]
  {
    assert s[i + |a|..] == s[i..][|a|..] == b;
  }

  lemma {:induction false} QuotedBack(s: string, i: nat, v: string, rest: string)
    requires i <= |s| && s[i..] == Escape(v) + "\"" + rest
    requires rest == "" || rest[0] != '"'
    ensures ScanQuoted(s, i) == Done(v, |s| - |rest|)
    decreases |v|
  {
    if v == "" {
      assert s[i..][0] == '"';
      if rest != "" { assert s[i..][1] == rest[0]; }
    } else {
      var head := if v[0] == '"' then "\"\"" else [v[0]];
      assert s[i..] == head + (Escape(v[1..]) + "\"" + rest);
      assert s[i..][0] == s[i] == v[0];
      if v[0] == '"' { assert s[i..][1] == s[i + 1]; }
      assert s[i + |head|..] == s[i..][|head|..];
      QuotedBack(s, i + |head|, v[1..], rest);
      assert [v[0]] + v[1..] == v;
    }
  }

  lemma {:induction false} PlainBack(s: string, i: nat, v: string, rest: string)
    requires i <= |s| && s[i..] == v + rest
    requires forall k :: 0 <= k < |v| ==> !Special(v[k])
    requires rest == "" || rest[0] == ',' || IsBreak(rest[0])
    ensures ScanPlain(s, i) == Done(v, |s| - |rest|)
    decreases |v|
  {
    if v == "" {
      if rest != "" { assert s[i..][0] == rest[0]; }
    } else {
      assert s[i..][0] == v[0];
      assert s[i + 1..] == s[i..][1..] == v[1..] + rest;
      PlainBack(s, i + 1, v[1..], rest);
      assert [v[0]] + v[1..] == v;
    }
  }

  lemma {:induction false} FieldBack(s: string, i: nat, c: Cell, rest: string)
    requires i <= |s| && s[i..] == PrintCell(c) + rest && Printable(c)
    requires rest == "" || rest[0] == ',' || IsBreak(rest[0])
    ensures ScanField(s, i) == Done(c.value, |s| - |rest|)
  {
    hide ScanQuoted, ScanPlain, Escape;
    if c.quoted {
      assert s[i..][0] == s[i];
      assert s[i + 1..] == s[i..][1..] == Escape(c.value) + "\"" + rest;
      QuotedBack(s, i + 1, c.value, rest);
      if rest != "" { assert s[|s| - |rest|..] == rest; }
    } else {
      assert i < |s| ==> s[i] == s[i..][0];
      PlainBack(s, i, c.value, rest);
    }
  }

  lemma {:induction false} RecordBack(s: string, i: nat, cells: seq<Cell>, rest: string, room: Option<nat>)
    requires PrintableRecord(cells)
    requires i <= |s| && s[i..] == PrintRecord(cells) + rest
    requires rest == "" || IsBreak(rest[0])
    requires room.Some? ==> |cells| <= room.value
    ensures ScanRecord(s, i, room) == Done(Values(cells), |s| - |rest|)
    decreases |cells|
  {
    hide ScanRecord, PrintRecord, Values;
    if |cells| == 1 {
      RecordLastBack(s, i, cells, rest, room);
    } else {
      var j := RecordFirstBack(s, i, cells, rest);
      var room': Option<nat> := if room.Some? then Some(room.value - 1) else None;
      RecordBack(s, j + 1, cells[1..], rest, room');
      RecordCommaBack(s, i, j, cells, |s| - |rest|, room, room');
    }
  }

  lemma {:induction false} RecordLastBack(s: string, i: nat, cells: seq<Cell>, rest: string, room: Option<nat>)
    requires |cells| == 1 && Printable(cells[0])
    requires i <= |s| && s[i..] == PrintRecord(cells) + rest
    requires rest == "" || IsBreak(rest[0])
    requires room != Some(0)
    ensures ScanRecord(s, i, room) == Done(Values(cells), |s| - |rest|)
  {
    FieldBack(s, i, cells[0], rest);
    Skip(s, i, PrintCell(cells[0]), rest);
    assert Values(cells) == [cells[0].value];
  }

  lemma {:induction false} RecordFirstBack(s: string, i: nat, cells: seq<Cell>, rest: string) returns (j: nat)
    requires |cells| > 1 && Printable(cells[0])
    requires i <= |s| && s[i..] == PrintRecord(cells) + rest
    ensures i <= j < |s| && s[j] == ',' && ScanField(s, i) == Done(cells[0].value, j)
    ensures s[j + 1..] == PrintRecord(cells[1..]) + rest
  {
    hide PrintCell, ScanField, Printable;
    var tail := PrintRecord(cells[1..]) + rest;
    Regroup(PrintCell(cells[0]), ",", PrintRecord(cells[1..]), rest);
    hide PrintRecord;
    FieldBack(s, i, cells[0], "," + tail);
    Skip(s, i, PrintCell(cells[0]), "," + tail);
    j := |s| - |"," + tail|;
    Skip(s, j, ",", tail);
  }

  lemma {:induction false} RecordCommaBack(
    s: string, i: nat, j: nat, cells: seq<Cell>, k: nat, room: Option<nat>, room': Option<nat>)
    requires |cells| > 1 && i <= j < |s| && s[j] == ','
    requires room != Some(0) && room' == if room.Some? then Some(room.value - 1) else None
    requires ScanField(s, i) == Done(cells[0].value, j)
    requires ScanRecord(s, j + 1, room') == Done(Values(cells[1..]), k)
    ensures ScanRecord(s, i, room) == Done(Values(cells), k)
  {
    assert Values(cells) == [cells[0].value] + Values(cells[1..]);
  }

  lemma {:induction false} CellStart(c: Cell)
    requires Printable(c)
    ensures PrintCell(c) != "" ==> !IsBreak(PrintCell(c)[0])
    ensures PrintCell(c) == "" <==> c == Cell("", false)
  {
    hide Escape;
    assert c.quoted ==> PrintCell(c)[0] == '"';
  }

  lemma {:induction false} RecordStart(cells: seq<Cell>)
    requires PrintableRecord(cells)
    ensures Blank(cells) <==> PrintRecord(cells) == ""
    ensures !Blank(cells) ==> !IsBreak(PrintRecord(cells)[0])
  {
    hide PrintCell, Printable;
    var c := cells[0];
    CellStart(c);
    if |cells| == 1 {
      assert Blank(cells) <==> c == Cell("", false);
    } else {
      var rest := PrintRecord(cells[1..]);
      assert PrintRecord(cells) == PrintCell(c) + ("," + rest);
    }
  }

  /** The break of a line and the line after it do not run together into one break. */
  predicate Apart(line: Line, next: Line) {
    !(line.ending.CR? && Blank(next.cells) && next.ending.LF?)
  }

  predicate PrintableFile(lines: seq<Line>, last: Option<seq<Cell>>) {
    && (forall k :: 0 <= k < |lines| ==> PrintableRecord(lines[k].cells))
    && (forall k :: 0 < k < |lines| ==> Apart(lines[k - 1], lines[k]))
    && (last.Some? ==> PrintableRecord(last.value) && !Blank(last.value))
  }

  lemma {:induction false} RestIsPrintable(lines: seq<Line>, last: Option<seq<Cell>>)
    requires PrintableFile(lines, last) && lines != []
    ensures PrintableFile(lines[1..], last)
  {
    forall k | 0 < k < |lines| - 1 ensures Apart(lines[1..][k - 1], lines[1..][k]) {
      assert Apart(lines[k], lines[k + 1]);
    }
  }

  function RecordCount(lines: seq<Line>, last: Option<seq<Cell>>): nat {
    |lines| + if last.Some? then 1 else 0
  }

  /** The number of columns of the first record. */
  function HeaderWidth(lines: seq<Line>, last: Option<seq<Cell>>): nat {
    if lines != [] then |lines[0].cells| else if last.Some? then |last.value| else 0
  }

  lemma {:induction false} FileBack(
    s: string, i: nat, lines: seq<Line>, last: Option<seq<Cell>>, before: nat, lim: Limits)
    requires PrintableFile(lines, last)
    requires i <= |s| && s[i..] == PrintFile(lines, last)
    requires before + RecordCount(lines, last) <= lim.maxDataRows + 1
    requires before == 0 ==> HeaderWidth(lines, last) <= lim.maxHeaderColumns
    ensures ScanFile(s, i, before, lim) == Ok(Table(lines, last))
    decreases |lines|, 1
  {
    if lines == [] {
      LastBack(s, i, last, before, lim);
    } else {
      FileLinesBack(s, i, lines, last, before, lim);
    }
  }

  lemma {:induction false} FileLinesBack(
    s: string, i: nat, lines: seq<Line>, last: Option<seq<Cell>>, before: nat, lim: Limits)
    requires PrintableFile(lines, last) && lines != []
    requires i <= |s| && s[i..] == PrintFile(lines, last)
    requires before + RecordCount(lines, last) <= lim.maxDataRows + 1
    requires before == 0 ==> HeaderWidth(lines, last) <= lim.maxHeaderColumns
    ensures ScanFile(s, i, before, lim) == Ok(Table(lines, last))
    decreases |lines|, 0
  {
    hide ScanFile, PrintFile, Table;
    RestIsPrintable(lines, last);
    var n := FileLineBack(s, i, lines, last, before, lim);
    FileBack(s, n, lines[1..], last, before + 1, lim);
  }

  lemma {:induction false} ValuesLength(cells: seq<Cell>)
    ensures |Values(cells)| == |cells|
  {
    if cells != [] { ValuesLength(cells[1..]); }
  }

  lemma {:induction false} LastBack(s: string, i: nat, last: Option<seq<Cell>>, before: nat, lim: Limits)
    requires last.Some? ==> PrintableRecord(last.value) && !Blank(last.value)
    requires i <= |s| && s[i..] == PrintFile([], last)
    requires last.Some? ==> before <= lim.maxDataRows && (before == 0 ==> |last.value| <= lim.maxHeaderColumns)
    ensures ScanFile(s, i, before, lim) == Ok(Table([], last))
  {
    if last.Some? {
      RecordStart(last.value);
      ValuesLength(last.value);
      assert s[i..] == PrintRecord(last.value) + "";
      RecordBack(s, i, last.value, "", FileRoom(before, lim));
    }
  }

  /** One line read: the rest of the file, when it reads back from `n` on, completes the table. */
  lemma {:induction false} FileLineBack(
    s: string, i: nat, lines: seq<Line>, last: Option<seq<Cell>>, before: nat, lim: Limits)
    returns (n: nat)
    requires PrintableFile(lines, last) && lines != []
    requires i <= |s| && s[i..] == PrintFile(lines, last)
    requires before <= lim.maxDataRows && (before == 0 ==> |lines[0].cells| <= lim.maxHeaderColumns)
    ensures n <= |s| && s[n..] == PrintFile(lines[1..], last)
    ensures ScanFile(s, n, before + 1, lim) == Ok(Table(lines[1..], last)) ==>
      ScanFile(s, i, before, lim) == Ok(Table(lines, last))
  {
    var j := LineBack(s, i, lines, last, FileRoom(before, lim));
    n := AfterBreak(s, j);
  }

  lemma {:induction false} FileCons(lines: seq<Line>, last: Option<seq<Cell>>)
    requires lines != []
    ensures PrintFile(lines, last)
      == PrintRecord(lines[0].cells) + (PrintBreak(lines[0].ending) + PrintFile(lines[1..], last))
  {
    hide PrintRecord;
  }

  lemma {:induction false} FirstLine(lines: seq<Line>, last: Option<seq<Cell>>)
    requires PrintableFile(lines, last) && lines != []
    ensures PrintableRecord(lines[0].cells) && PrintableFile(lines[1..], last)
    ensures |lines| > 1 ==> Apart(lines[0], lines[1..][0])
  {
    RestIsPrintable(lines, last);
  }

  lemma {:induction false} BreakStarts(b: Break, rest: string)
    ensures PrintBreak(b) + rest != "" && IsBreak((PrintBreak(b) + rest)[0]) && PrintBreak(b) != ""
  {
  }

  lemma {:induction false} LineBack(s: string, i: nat, lines: seq<Line>, last: Option<seq<Cell>>, room: Option<nat>)
    returns (j: nat)
    requires PrintableFile(lines, last) && lines != []
    requires i <= |s| && s[i..] == PrintFile(lines, last)
    requires room.Some? ==> |lines[0].cells| <= room.value
    ensures i <= j < |s| && ScanRecord(s, i, room) == Done(Values(lines[0].cells), j)
    ensures s[AfterBreak(s, j)..] == PrintFile(lines[1..], last)
  {
    hide *;
    var after := PrintFile(lines[1..], last);
    var br := PrintBreak(lines[0].ending);
    FirstLine(lines, last);
    FileCons(lines, last);
    BreakStarts(lines[0].ending, after);
    RecordBack(s, i, lines[0].cells, br + after, room);
    Skip(s, i, PrintRecord(lines[0].cells), br + after);
    j := |s| - |br + after|;
    BreakBack(s, j, lines[0], lines[1..], last);
    Skip(s, j, br, after);
  }

  /** What is printed after a line does not start with a line feed that would run into a carriage return. */
  lemma {:induction false} NoRunIn(line: Line, lines: seq<Line>, last: Option<seq<Cell>>)
    requires PrintableFile(lines, last) && (lines != [] ==> Apart(line, lines[0]))
    ensures line.ending.CR? && PrintFile(lines, last) != "" ==> PrintFile(lines, last)[0] != '\n'
  {
    hide PrintRecord;
    if lines == [] {
      if last.Some? { RecordStart(last.value); }
    } else {
      var record, br := PrintRecord(lines[0].cells), PrintBreak(lines[0].ending);
      RecordStart(lines[0].cells);
      assert PrintFile(lines, last) == record + (br + PrintFile(lines[1..], last));
    }
  }

  /** A line break is never swallowed by, nor swallows, what is printed after it. */
  lemma {:induction false} BreakBack(s: string, j: nat, line: Line, lines: seq<Line>, last: Option<seq<Cell>>)
    requires PrintableFile(lines, last) && (lines != [] ==> Apart(line, lines[0]))
    requires j <= |s| && s[j..] == PrintBreak(line.ending) + PrintFile(lines, last)
    ensures j < |s| && AfterBreak(s, j) == j + |PrintBreak(line.ending)|
  {
    hide PrintFile, PrintableFile, Apart;
    NoRunIn(line, lines, last);
    assert s[j] == s[j..][0];
    if j + 1 < |s| {
      assert s[j + 1] == s[j..][1];
    }
  }

  /** The two printings that are ruled out: a lone blank is no record, and a blank between CR and LF runs into them. */
  lemma {:induction false} RuledOutPrintingsReadOtherwise(lim: Limits)
    requires lim.maxHeaderColumns > 0
    ensures var blank := [Cell("", false)];
      && Parsed(PrintFile([], Some(blank)), lim) == Ok([]) && |Table([], Some(blank))| == 1
      && var lines := [Line(blank, CR), Line(blank, LF)];
         && Parsed(PrintFile(lines, None), lim) == Ok(CutToHeader([[""]])) && |Table(lines, None)| == 2
  {
    var blank := [Cell("", false)];
    var lines := [Line(blank, CR), Line(blank, LF)];
    assert lines[1..] == [Line(blank, LF)] && lines[1..][1..] == [];
    assert PrintRecord(blank) == "" && PrintFile([], Some(blank)) == "" && CutToHeader([]) == [];
    assert PrintFile(lines[1..][1..], None) == "";
    assert PrintFile(lines[1..], None) == "" + "\n" + "" == "\n";
    var s := PrintFile(lines, None);
    assert s == "" + "\r" + "\n" == "\r\n";
    assert |Table(lines[1..][1..], None)| == 0 && |Table(lines[1..], None)| == 1;
    assert ScanPlain(s, 0) == Done("", 0);
    assert ScanRecord(s, 0, Some(lim.maxHeaderColumns)) == Done([""], 0);
    assert AfterBreak(s, 0) == 2;
    assert FileRoom(0, lim) == Some(lim.maxHeaderColumns) && ScanFile(s, 2, 1, lim) == Ok([]);
    assert [[""]] + [] == [[""]];
  }

  lemma {:induction false} TableShape(lines: seq<Line>, last: Option<seq<Cell>>)
    ensures |Table(lines, last)| == RecordCount(lines, last)
    ensures Table(lines, last) != [] ==> |Table(lines, last)[0]| == HeaderWidth(lines, last)
  {
    if lines != [] {
      TableShape(lines[1..], last);
      ValuesLength(lines[0].cells);
    } else if last.Some? {
      ValuesLength(last.value);
    }
  }

  /** Reading back a printed table gives the table, cut to the header width; and uncut when no row is wider. */
  lemma {:induction false} PrintedTableReadsBack(lines: seq<Line>, last: Option<seq<Cell>>, lim: Limits)
    requires PrintableFile(lines, last)
    requires |Table(lines, last)| <= lim.maxDataRows + 1
    requires Table(lines, last) != [] ==> |Table(lines, last)[0]| <= lim.maxHeaderColumns
    ensures Parsed(PrintFile(lines, last), lim) == Ok(CutToHeader(Table(lines, last)))
    ensures var t := Table(lines, last);
      (forall k :: 0 <= k < |t| ==> |t[k]| <= |t[0]|) ==>
        CutToHeader(t) == seq(|t|, k requires 0 <= k < |t| => ParsedRecord(t[k], false, false))
  {
    var s := PrintFile(lines, last);
    TableShape(lines, last);
    FileBack(s, 0, lines, last, 0, lim);
    var t := Table(lines, last);
    if forall k :: 0 <= k < |t| ==> |t[k]| <= |t[0]| {
      forall k | 0 <= k < |t| ensures Cut(t[k], |t[0]|) == ParsedRecord(t[k], false, false) {
        assert t[k][..|t[k]|] == t[k];
      }
    }
  }
}
