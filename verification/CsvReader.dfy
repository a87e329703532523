/**
 The CSV reader of the import script (scripts/firebase-import/import.mjs:127-164),
 up to the list of records, against the quoting rules of section 2 of RFC 4180.
 */
module CsvReader {
  datatype Scanner = Scanner(field: string, record: seq<string>, quoted: bool, records: seq<seq<string>>)

  const START := Scanner("", [], false, [])

  function EndField(s: Scanner): Scanner {
    s.(record := s.record + [s.field], field := "")
  }

  function EndRecord(s: Scanner): Scanner {
    s.(records := s.records + [s.record + [s.field]], field := "", record := [])
  }

  /** The state after the rest of the text. */
  function Scan(text: string, s: Scanner): Scanner
    decreases |text|
  {
    if text == "" then s
    else
      var c := text[0];
      if s.quoted then
        if c == '"' then
          if |text| > 1 && text[1] == '"' then Scan(text[2..], s.(field := s.field + ['"']))
          else Scan(text[1..], s.(quoted := false))
        else Scan(text[1..], s.(field := s.field + [c]))
      else if c == '"' then Scan(text[1..], s.(quoted := true))
      else if c == ',' then Scan(text[1..], EndField(s))
      else if c == '\n' || c == '\r' then
        Scan(if c == '\r' && |text| > 1 && text[1] == '\n' then text[2..] else text[1..], EndRecord(s))
      else Scan(text[1..], s.(field := s.field + [c]))
  }

  /** An unfinished last record counts when it holds anything. */
  function Finish(s: Scanner): seq<seq<string>> {
    if s.field != "" || s.record != [] then s.records + [s.record + [s.field]] else s.records
  }

  function Records(text: string): seq<seq<string>> {
    Finish(Scan(text, START))
  }

  /** The index loop of `readCsv`. */
  method ReadCsv(text: string) returns (records: seq<seq<string>>)
    ensures records == Records(text)
  {
    records := [];
    var field := "";
    var record: seq<string> := [];
    var quoted := false;
    var i := 0;
    while i < |text|
      invariant 0 <= i <= |text|
      invariant Scan(text[i..], Scanner(field, record, quoted, records)) == Scan(text, START)
      decreases |text| - i
    {
      var c := text[i];
      ghost var rest := text[i..];
      assert rest[1..] == text[i + 1..];
      assert |rest| > 1 ==> rest[1] == text[i + 1] && rest[2..] == text[i + 2..];
      if quoted {
        if c == '"' {
          if i + 1 < |text| && text[i + 1] == '"' {
            field := field + ['"'];
            i := i + 1;
          } else {
            quoted := false;
          }
        } else {
          field := field + [c];
        }
      } else if c == '"' {
        quoted := true;
      } else if c == ',' {
        record, field := record + [field], "";
      } else if c == '\n' || c == '\r' {
        if c == '\r' && i + 1 < |text| && text[i + 1] == '\n' {
          i := i + 1;
        }
        record := record + [field];
        records := records + [record];
        field, record := "", [];
      } else {
        field := field + [c];
      }
      i := i + 1;
    }
    if field != "" || |record| > 0 {
      record := record + [field];
      records := records + [record];
    }
  }

  // ----- printing -----

  datatype Cell = Cell(value: string, quote: bool)

  /** The reader takes a lone carriage return as well, which RFC 4180 does not have. */
  datatype Ending = Lf | CrLf | Cr

  datatype Line = Line(cells: seq<Cell>, ending: Ending)

  predicate Plain(v: string) {
    forall i :: 0 <= i < |v| ==> v[i] != ',' && v[i] != '"' && v[i] != '\n' && v[i] != '\r'
  }

  /** A field may always be quoted, and must be when it holds a special character. */
  predicate LegalCell(cell: Cell) {
    cell.quote || Plain(cell.value)
  }

  predicate LegalCells(cells: seq<Cell>) {
    cells != [] && forall i :: 0 <= i < |cells| ==> LegalCell(cells[i])
  }

  /** A line that is printed as a line feed and nothing else. */
  predicate BareLf(line: Line) {
    line.cells == [Cell("", false)] && line.ending.Lf?
  }

  /** A carriage return and a line feed of the next line would read as one line break. */
  predicate LegalLines(lines: seq<Line>) {
    && (forall i :: 0 <= i < |lines| ==> LegalCells(lines[i].cells))
    && (forall i :: 0 < i < |lines| && lines[i - 1].ending.Cr? ==> !BareLf(lines[i]))
  }

  function Doubled(v: string): string {
    if v == "" then "" else (if v[0] == '"' then ['"', '"'] else [v[0]]) + Doubled(v[1..])
  }

  function PrintCell(cell: Cell): string {
    if cell.quote then "\"" + Doubled(cell.value) + "\"" else cell.value
  }

  function PrintCells(cells: seq<Cell>): string
    requires cells != []
  {
    if |cells| == 1 then PrintCell(cells[0]) else PrintCell(cells[0]) + "," + PrintCells(cells[1..])
  }

  function PrintEnding(e: Ending): string {
    match e case Lf => "\n" case CrLf => "\r\n" case Cr => "\r"
  }

  function PrintLines(lines: seq<Line>): string
    requires LegalLines(lines)
  {
    if lines == [] then ""
    else PrintCells(lines[0].cells) + PrintEnding(lines[0].ending) + PrintLines(lines[1..])
  }

  function Values(cells: seq<Cell>): seq<string> {
    seq(|cells|, i requires 0 <= i < |cells| => cells[i].value)
  }

  function AllValues(lines: seq<Line>): seq<seq<string>> {
    seq(|lines|, i requires 0 <= i < |lines| => Values(lines[i].cells))
  }

  // ----- reading back what was printed -----

  lemma Regrouped(a: string, b: string, c: string, d: string)
    ensures a + b + c + d == a + (b + (c + d)) == a + b + (c + d)
  {
  }

  lemma {:induction false} ScanPlain(v: string, rest: string, s: Scanner)
    requires Plain(v) && !s.quoted
    ensures Scan(v + rest, s) == Scan(rest, s.(field := s.field + v))
    decreases |v|
  {
    if v == "" {
      assert v + rest == rest && s.field + v == s.field;
    } else {
      assert (v + rest)[1..] == v[1..] + rest;
      ScanPlain(v[1..], rest, s.(field := s.field + [v[0]]));
      assert s.field + [v[0]] + v[1..] == s.field + v;
    }
  }

  /** No quote follows, so the closing quote is not taken for a doubled one. */
  predicate NoQuoteNext(rest: string) {
    rest == "" || rest[0] != '"'
  }

  lemma {:induction false} ScanQuoted(v: string, rest: string, s: Scanner)
    requires s.quoted && NoQuoteNext(rest)
    ensures Scan(Doubled(v) + "\"" + rest, s) == Scan(rest, s.(field := s.field + v, quoted := false))
    decreases |v|
  {
    var text := Doubled(v) + "\"" + rest;
    if v == "" {
      assert text == "\"" + rest;
      assert text[1..] == rest && s.field + v == s.field;
    } else {
      var step := if v[0] == '"' then 2 else 1;
      assert text[step..] == Doubled(v[1..]) + "\"" + rest;
      ScanQuoted(v[1..], rest, s.(field := s.field + [v[0]]));
      assert s.field + [v[0]] + v[1..] == s.field + v;
    }
  }

  lemma ScanCell(cell: Cell, rest: string, s: Scanner)
    requires LegalCell(cell) && s.field == "" && !s.quoted && NoQuoteNext(rest)
    ensures Scan(PrintCell(cell) + rest, s) == Scan(rest, s.(field := cell.value))
  {
    assert "" + cell.value == cell.value;
    if cell.quote {
      var text := PrintCell(cell) + rest;
      assert text[1..] == Doubled(cell.value) + "\"" + rest;
      ScanQuoted(cell.value, rest, s.(quoted := true));
    } else {
      ScanPlain(cell.value, rest, s);
    }
  }

  lemma ScanCellComma(cell: Cell, more: string, s: Scanner)
    requires LegalCell(cell) && s.field == "" && !s.quoted
    ensures Scan(PrintCell(cell) + ("," + more), s) == Scan(more, s.(record := s.record + [cell.value]))
  {
    ScanCell(cell, "," + more, s);
    assert ("," + more)[1..] == more;
  }

  /** All fields but the last are complete; the last one is still being read. */
  function AfterCells(s: Scanner, cells: seq<Cell>): Scanner
    requires cells != []
  {
    s.(record := s.record + Values(cells)[..|cells| - 1], field := cells[|cells| - 1].value)
  }

  lemma AfterCellsCons(s: Scanner, cells: seq<Cell>)
    requires |cells| >= 2
    ensures AfterCells(s.(record := s.record + [cells[0].value]), cells[1..]) == AfterCells(s, cells)
  {
    assert [cells[0].value] + Values(cells[1..])[..|cells| - 2] == Values(cells)[..|cells| - 1];
    assert s.record + [cells[0].value] + Values(cells[1..])[..|cells| - 2] == s.record + Values(cells)[..|cells| - 1];
  }

  lemma {:induction false} ScanCells(cells: seq<Cell>, rest: string, s: Scanner)
    requires LegalCells(cells) && s.field == "" && !s.quoted && NoQuoteNext(rest)
    ensures Scan(PrintCells(cells) + rest, s) == Scan(rest, AfterCells(s, cells))
    decreases |cells|
  {
    if |cells| == 1 {
      assert PrintCells(cells) == PrintCell(cells[0]);
      assert Scan(PrintCell(cells[0]) + rest, s) == Scan(rest, AfterCells(s, cells)) by {
        ScanCell(cells[0], rest, s);
        assert s.record + Values(cells)[..0] == s.record;
      }
    } else {
      var more := PrintCells(cells[1..]) + rest;
      var next := s.(record := s.record + [cells[0].value]);
      assert Scan(PrintCell(cells[0]) + ("," + more), s) == Scan(more, next) by {
        ScanCellComma(cells[0], more, s);
      }
      assert Scan(more, next) == Scan(rest, AfterCells(s, cells)) by {
        ScanCells(cells[1..], rest, next);
        AfterCellsCons(s, cells);
      }
      assert PrintCells(cells) + rest == PrintCell(cells[0]) + ("," + more) by {
        Regrouped(PrintCell(cells[0]), ",", PrintCells(cells[1..]), rest);
      }
    }
  }

  /** No line feed follows, so that a carriage return stands alone. */
  predicate NoLfNext(rest: string) {
    rest == "" || rest[0] != '\n'
  }

  lemma CellsStart(cells: seq<Cell>, rest: string)
    requires LegalCells(cells) && (cells == [Cell("", false)] ==> NoLfNext(rest))
    ensures NoLfNext(PrintCells(cells) + rest)
  {
    var first := PrintCell(cells[0]);
    if first == "" {
      assert |cells| > 1 ==> PrintCells(cells) + rest == "," + (PrintCells(cells[1..]) + rest);
      assert |cells| == 1 ==> PrintCells(cells) + rest == rest;
    } else {
      assert (PrintCells(cells) + rest)[0] == first[0];
    }
  }

  lemma ScanEnding(e: Ending, rest: string, s: Scanner)
    requires !s.quoted && (e.Cr? ==> NoLfNext(rest))
    ensures Scan(PrintEnding(e) + rest, s) == Scan(rest, EndRecord(s))
    ensures NoQuoteNext(PrintEnding(e) + rest)
  {
    var text := PrintEnding(e) + rest;
    assert text[|PrintEnding(e)|..] == rest;
  }

  lemma EndAfterCells(s: Scanner, cells: seq<Cell>)
    requires cells != [] && s.field == "" && s.record == []
    ensures EndRecord(AfterCells(s, cells)) == s.(records := s.records + [Values(cells)])
  {
    assert [] + Values(cells)[..|cells| - 1] + [cells[|cells| - 1].value] == Values(cells);
  }

  lemma ScanLine(line: Line, rest: string, s: Scanner)
    requires LegalCells(line.cells) && s.field == "" && s.record == [] && !s.quoted
    requires line.ending.Cr? ==> NoLfNext(rest)
    ensures Scan(PrintCells(line.cells) + PrintEnding(line.ending) + rest, s) ==
            Scan(rest, s.(records := s.records + [Values(line.cells)]))
  {
    var cells, end := line.cells, PrintEnding(line.ending) + rest;
    assert PrintCells(cells) + PrintEnding(line.ending) + rest == PrintCells(cells) + end;
    assert Scan(PrintCells(cells) + end, s) == Scan(rest, s.(records := s.records + [Values(cells)])) by {
      ScanEnding(line.ending, rest, AfterCells(s, cells));
      ScanCells(cells, end, s);
      EndAfterCells(s, cells);
    }
  }

  lemma LineStart(lines: seq<Line>, rest: string)
    requires LegalLines(lines) && lines != [] && NoLfNext(rest)
    ensures LegalLines(lines[1..])
    ensures lines[0].ending.Cr? ==> NoLfNext(PrintLines(lines[1..]) + rest)
  {
    if |lines| == 1 {
      assert PrintLines(lines[1..]) + rest == rest;
    } else if lines[0].ending.Cr? {
      var next, more := lines[1], lines[1..][1..];
      assert !BareLf(next);
      Regrouped(PrintCells(next.cells), PrintEnding(next.ending), PrintLines(more), rest);
      CellsStart(next.cells, PrintEnding(next.ending) + (PrintLines(more) + rest));
    }
  }

  lemma ValuesCons(lines: seq<Line>, records: seq<seq<string>>)
    requires lines != []
    ensures records + [Values(lines[0].cells)] + AllValues(lines[1..]) == records + AllValues(lines)
  {
    assert AllValues(lines) == [Values(lines[0].cells)] + AllValues(lines[1..]);
  }

  lemma {:induction false} ScanLines(lines: seq<Line>, rest: string, s: Scanner)
    requires LegalLines(lines) && s.field == "" && s.record == [] && !s.quoted && NoLfNext(rest)
    ensures Scan(PrintLines(lines) + rest, s) == Scan(rest, s.(records := s.records + AllValues(lines)))
    decreases |lines|
  {
    if lines == [] {
      assert PrintLines(lines) + rest == rest && s.records + AllValues(lines) == s.records;
    } else {
      var more := PrintLines(lines[1..]) + rest;
      var next := s.(records := s.records + [Values(lines[0].cells)]);
      assert PrintLines(lines) + rest == PrintCells(lines[0].cells) + PrintEnding(lines[0].ending) + more by {
        Regrouped(PrintCells(lines[0].cells), PrintEnding(lines[0].ending), PrintLines(lines[1..]), rest);
      }
      LineStart(lines, rest);
      assert Scan(PrintLines(lines) + rest, s) == Scan(more, next) by { ScanLine(lines[0], more, s); }
      assert Scan(more, next) == Scan(rest, next.(records := next.records + AllValues(lines[1..]))) by {
        ScanLines(lines[1..], rest, next);
      }
      ValuesCons(lines, s.records);
    }
  }

  /** Any file printed by the rules, every record terminated, is read back exactly. */
  lemma RoundTrip(lines: seq<Line>)
    requires LegalLines(lines)
    ensures Records(PrintLines(lines)) == AllValues(lines)
  {
    ScanLines(lines, "", START);
    assert PrintLines(lines) + "" == PrintLines(lines);
    assert [] + AllValues(lines) == AllValues(lines);
  }

  /** What becomes of a last record that no line break ends. */
  lemma FinishCells(records: seq<seq<string>>, last: seq<Cell>)
    requires last != []
    ensures Finish(AfterCells(START.(records := records), last)) ==
            records + if Values(last) == [""] then [] else [Values(last)]
  {
    var n := |last| - 1;
    assert [] + Values(last)[..n] == Values(last)[..n];
    assert Values(last)[..n] + [last[n].value] == Values(last);
    if n == 0 {
      assert Values(last) == [last[0].value];
    }
  }

  /** Without a final line break the last record is kept, unless it is a single empty field. */
  lemma RoundTripUnterminated(lines: seq<Line>, last: seq<Cell>)
    requires LegalLines(lines) && LegalCells(last)
    ensures Records(PrintLines(lines) + PrintCells(last)) ==
            AllValues(lines) + if Values(last) == [""] then [] else [Values(last)]
  {
    var s := START.(records := AllValues(lines));
    assert PrintCells(last) + "" == PrintCells(last);
    assert Scan(PrintLines(lines) + PrintCells(last), START) == Scan(PrintCells(last), s) by {
      CellsStart(last, "");
      ScanLines(lines, PrintCells(last), START);
      assert [] + AllValues(lines) == AllValues(lines);
    }
    ScanCells(last, "", s);
    FinishCells(AllValues(lines), last);
  }

  /** With such a line after a lone carriage return, one of two empty records is lost. */
  lemma CrThenLf()
    ensures var empty := [Cell("", false)];
            Records(PrintCells(empty) + PrintEnding(Cr) + PrintCells(empty) + PrintEnding(Lf)) == [[""]]
  {
    assert "\r\n"[2..] == "";
    assert PrintCells([Cell("", false)]) + PrintEnding(Cr) + PrintCells([Cell("", false)]) + PrintEnding(Lf) == "\r\n";
    assert [] + [""] == [""] && [] + [[""]] == [[""]];
  }
}
