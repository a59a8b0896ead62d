/** `toCSV` and `esc` of scripts/export_lingua.mjs: the rows of an exported table as comma
    separated text, with a header line naming the columns of the first row.

    A row is a JSON object: its properties in insertion order, each a name and a value,
    `None` for null. A value stands for its `String(v)` form. The reader below is a
    reference reading of the format of RFC 4180 (records separated by a line feed, fields
    by commas, a field in double quotes when it holds one of them, with its quotes doubled);
    it is not part of the program and is here only to state what the writer produces. */
module Csv {
  import opened Base
  import Like

  type Row = seq<(string, Option<string>)>

  // ---- The writer ----

  /** `Object.keys(row)`. */
  function Keys(r: Row): (ks: seq<string>)
    ensures |ks| == |r|
    ensures forall i :: 0 <= i < |r| ==> ks[i] == r[i].0
  {
    if r == [] then [] else [r[0].0] + Keys(r[1..])
  }

  /** `row[c]`: the value of the first property named `c`, `None` when it has none. */
  function Cell(r: Row, c: string): (v: Option<string>)
    ensures v.Some? ==> exists i :: 0 <= i < |r| && r[i] == (c, v)
    ensures (forall i :: 0 <= i < |r| ==> r[i].0 != c) ==> v.None?
    ensures forall i :: 0 <= i < |r| && r[i].0 == c && (forall j :: 0 <= j < i ==> r[j].0 != c)
                        ==> v == r[i].1
  {
    if r == [] then None
    else if r[0].0 == c then r[0].1
    else Cell(r[1..], c)
  }

  /** True when the text must be put in quotes. */
  predicate NeedsQuotes(s: string) {
    '"' in s || ',' in s || '\n' in s
  }

  /** `esc` of a non-null value. */
  function EscText(s: string): (e: string)
    ensures !NeedsQuotes(s) ==> e == s
    ensures NeedsQuotes(s) ==> |e| >= 2 && e[0] == '"' && e[|e| - 1] == '"'
  {
    if NeedsQuotes(s) then "\"" + Like.ReplaceChar(s, '"', "\"\"") + "\"" else s
  }

  /** The text a value stands for: empty for null. */
  function Text(v: Option<string>): string {
    if v.None? then "" else v.value
  }

  /** `esc`: nothing for null, otherwise the value, quoted when it must be. */
  function Esc(v: Option<string>): (e: string)
    ensures e == EscText(Text(v))
    ensures v.None? ==> e == ""
  {
    if v.None? then "" else EscText(v.value)
  }

  /** `parts.join(sep)`. */
  function Join(parts: seq<string>, sep: char): string {
    if parts == [] then ""
    else if |parts| == 1 then parts[0]
    else parts[0] + [sep] + Join(parts[1..], sep)
  }

  /** The cells of a row under the given columns. */
  function Cells(r: Row, cols: seq<string>): (vs: seq<string>)
    ensures |vs| == |cols|
    ensures forall j :: 0 <= j < |cols| ==> vs[j] == Text(Cell(r, cols[j]))
  {
    seq(|cols|, j requires 0 <= j < |cols| => Text(Cell(r, cols[j])))
  }

  /** Joining two non-empty lists of parts puts one separator between their joins. */
  lemma {:induction false} JoinAppend(a: seq<string>, b: seq<string>, sep: char)
    requires a != [] && b != []
    ensures Join(a + b, sep) == Join(a, sep) + [sep] + Join(b, sep)
  {
    if |a| == 1 {
      assert (a + b)[1..] == b;
    } else {
      assert (a + b)[1..] == a[1..] + b;
      JoinAppend(a[1..], b, sep);
    }
  }

  /** `cols.map(c => esc(r[c])).join(',')`, where `esc(r[c])` is `esc` of the text of the
      cell (`esc` gives the same empty field for null as for ""). Read back, the line gives
      the text of the row's value under each column. */
  function Line(r: Row, cols: seq<string>): (line: string)
    ensures |cols| >= 1 ==> ReadFields(line) == Some((Cells(r, cols), ""))
  {
    LineReadsBack(Cells(r, cols));
    Join(EscAll(Cells(r, cols)), ',')
  }

  lemma LineReadsBack(vs: seq<string>)
    ensures |vs| >= 1 ==> ReadFields(Join(EscAll(vs), ',')) == Some((vs, ""))
  {
    if |vs| >= 1 {
      ReadFieldsOfLine(vs, []);
      assert Join(EscAll(vs), ',') + [] == Join(EscAll(vs), ',');
    }
  }

  /** `toCSV(rows)`: the empty text for no rows. Otherwise, when the first row has a
      property and its names need no quoting, the text reads back as the header and, for
      every row in order, the text of its value under each column of the first row (empty
      for a null or missing value). */
  function ToCsv(rows: seq<Row>): (text: string)
    ensures rows == [] ==> text == ""
    ensures rows != [] && |rows[0]| >= 1
            && (forall i :: 0 <= i < |rows[0]| ==> !NeedsQuotes(rows[0][i].0))
            ==> ReadRecords(text) == Some(Table(rows))
  {
    if rows == [] then ""
    else
      var cols := Keys(rows[0]);
      var lines := seq(|rows|, i requires 0 <= i < |rows| => Line(rows[i], cols));
      var text := Join([Join(cols, ',')] + lines, '\n');
      if |rows[0]| >= 1 && (forall i :: 0 <= i < |rows[0]| ==> !NeedsQuotes(rows[0][i].0)) then
        TableReadsBack(rows, lines);
        text
      else text
  }

  // ---- A reference reader ----

  /** The rest of a quoted field after its opening quote: its text and what follows the
      closing quote; `None` when the quote is never closed. */
  function ReadQuoted(s: string): (r: Option<(string, string)>)
    ensures r.Some? ==> |r.value.1| < |s|
  {
    if s == [] then None
    else if s[0] == '"' then
      if |s| >= 2 && s[1] == '"' then
        match ReadQuoted(s[2..])
        case None => None
        case Some(p) => Some((['"'] + p.0, p.1))
      else Some(("", s[1..]))
    else
      match ReadQuoted(s[1..])
      case None => None
      case Some(p) => Some(([s[0]] + p.0, p.1))
  }

  /** An unquoted field: everything up to the next comma or line feed. */
  function ReadPlain(s: string): (r: (string, string))
    ensures |r.1| <= |s|
  {
    if s == [] || s[0] == ',' || s[0] == '\n' then ("", s)
    else
      var p := ReadPlain(s[1..]);
      ([s[0]] + p.0, p.1)
  }

  function ReadField(s: string): (r: Option<(string, string)>)
    ensures r.Some? ==> |r.value.1| <= |s|
  {
    if s != [] && s[0] == '"' then ReadQuoted(s[1..]) else Some(ReadPlain(s))
  }

  /** The fields of one record, and the text from the line feed that ends it on. */
  function ReadFields(s: string): (r: Option<(seq<string>, string)>)
    ensures r.Some? ==> |r.value.1| <= |s| && (r.value.1 == [] || r.value.1[0] == '\n')
    decreases |s|
  {
    match ReadField(s)
    case None => None
    case Some(p) =>
      if p.1 == [] || p.1[0] == '\n' then Some(([p.0], p.1))
      else if p.1[0] == ',' then
        match ReadFields(p.1[1..])
        case None => None
        case Some(q) => Some(([p.0] + q.0, q.1))
      else None
  }

  /** All records of a text. */
  function ReadRecords(s: string): Option<seq<seq<string>>>
    decreases |s|
  {
    match ReadFields(s)
    case None => None
    case Some(p) =>
      if p.1 == [] then Some([p.0])
      else
        match ReadRecords(p.1[1..])
        case None => None
        case Some(rs) => Some([p.0] + rs)
  }

  // ---- Reading back what was written ----

  function EscAll(vs: seq<string>): (es: seq<string>)
    ensures |es| == |vs|
    ensures forall i :: 0 <= i < |vs| ==> es[i] == EscText(vs[i])
  {
    if vs == [] then [] else [EscText(vs[0])] + EscAll(vs[1..])
  }

  function Lines(records: seq<seq<string>>): (ls: seq<string>)
    ensures |ls| == |records|
    ensures forall i :: 0 <= i < |records| ==> ls[i] == Join(EscAll(records[i]), ',')
  {
    if records == [] then [] else [Join(EscAll(records[0]), ',')] + Lines(records[1..])
  }

  predicate EndsField(rest: string) {
    rest == [] || rest[0] == ',' || rest[0] == '\n'
  }

  lemma {:induction false} ReadPlainOfPlain(v: string, rest: string)
    requires ',' !in v && '\n' !in v
    requires EndsField(rest)
    ensures ReadPlain(v + rest) == (v, rest)
  {
    if v == [] {
      assert v + rest == rest;
    } else {
      assert (v + rest)[1..] == v[1..] + rest;
      ReadPlainOfPlain(v[1..], rest);
      assert [v[0]] + v[1..] == v;
    }
  }

  lemma {:induction false} ReadQuotedOfDoubled(v: string, rest: string)
    requires rest == [] || rest[0] != '"'
    ensures ReadQuoted(Like.ReplaceChar(v, '"', "\"\"") + "\"" + rest) == Some((v, rest))
  {
    var d := Like.ReplaceChar(v, '"', "\"\"");
    if v == [] {
      var s := d + "\"" + rest;
      assert s == "\"" + rest;
      assert s[1..] == rest;
      assert !(|s| >= 2 && s[1] == '"');
    } else {
      var tailD := Like.ReplaceChar(v[1..], '"', "\"\"");
      var tail := tailD + "\"" + rest;
      ReadQuotedOfDoubled(v[1..], rest);
      assert ReadQuoted(tail) == Some((v[1..], rest));
      var head := if v[0] == '"' then "\"\"" else [v[0]];
      assert d == head + tailD;
      var s := d + "\"" + rest;
      assert s == head + tail;
      if v[0] == '"' {
        assert s[0] == '"' && s[1] == '"' && s[2..] == tail;
        assert ReadQuoted(s) == Some((['"'] + v[1..], rest));
      } else {
        assert s[0] == v[0] && s[1..] == tail;
        assert ReadQuoted(s) == Some(([v[0]] + v[1..], rest));
      }
      assert [v[0]] + v[1..] == v;
    }
  }

  /** A field written by `esc` reads back as its text. */
  lemma ReadFieldOfEscaped(v: string, rest: string)
    requires EndsField(rest)
    ensures ReadField(EscText(v) + rest) == Some((v, rest))
  {
    if NeedsQuotes(v) {
      var d := Like.ReplaceChar(v, '"', "\"\"");
      var s := EscText(v) + rest;
      assert s == "\"" + (d + "\"" + rest);
      assert s[0] == '"' && s[1..] == d + "\"" + rest;
      ReadQuotedOfDoubled(v, rest);
      assert rest == [] || rest[0] != '"';
    } else {
      assert EscText(v) == v;
      var s := v + rest;
      assert !(s != [] && s[0] == '"') by {
        if v != [] {
          assert s[0] == v[0];
        } else {
          assert s == rest;
        }
      }
      ReadPlainOfPlain(v, rest);
      assert ReadField(s) == Some(ReadPlain(s));
    }
  }

  /** A line of escaped fields reads back as the fields. */
  lemma {:induction false} ReadFieldsOfLine(vs: seq<string>, rest: string)
    requires |vs| >= 1
    requires rest == [] || rest[0] == '\n'
    ensures ReadFields(Join(EscAll(vs), ',') + rest) == Some((vs, rest))
  {
    var es := EscAll(vs);
    if |vs| == 1 {
      ReadFieldOfEscaped(vs[0], rest);
      assert [vs[0]] == vs;
    } else {
      var after := Join(es[1..], ',') + rest;
      assert es[1..] == EscAll(vs[1..]);
      assert Join(es, ',') + rest == EscText(vs[0]) + ([','] + after);
      ReadFieldOfEscaped(vs[0], [','] + after);
      assert ([','] + after)[1..] == after;
      ReadFieldsOfLine(vs[1..], rest);
      assert [vs[0]] + vs[1..] == vs;
    }
  }

  /** Lines of escaped fields joined by line feeds read back as the records, provided every
      record has a field. */
  lemma {:induction false} ReadRecordsOfLines(records: seq<seq<string>>)
    requires |records| >= 1
    requires forall i :: 0 <= i < |records| ==> |records[i]| >= 1
    ensures ReadRecords(Join(Lines(records), '\n')) == Some(records)
  {
    if |records| == 1 {
      LastRecord(records);
    } else {
      ReadRecordsOfLines(records[1..]);
      LinesSplit(records);
      ReadRecordsCons(records[0], Join(Lines(records[1..]), '\n'), records[1..]);
      assert [records[0]] + records[1..] == records;
    }
  }

  lemma LastRecord(records: seq<seq<string>>)
    requires |records| == 1 && |records[0]| >= 1
    ensures ReadRecords(Join(Lines(records), '\n')) == Some(records)
  {
    var line := Join(EscAll(records[0]), ',');
    assert Join(Lines(records), '\n') == line;
    ReadFieldsOfLine(records[0], []);
    assert line + [] == line;
    assert [records[0]] == records;
  }

  lemma LinesSplit(records: seq<seq<string>>)
    requires |records| >= 2
    ensures Join(Lines(records), '\n')
            == Join(EscAll(records[0]), ',') + (['\n'] + Join(Lines(records[1..]), '\n'))
  {
    var ls := Lines(records);
    assert ls[1..] == Lines(records[1..]);
    JoinCons(ls, '\n');
  }

  lemma JoinCons(parts: seq<string>, sep: char)
    requires |parts| >= 2
    ensures Join(parts, sep) == parts[0] + ([sep] + Join(parts[1..], sep))
  {
  }

  /** A line of escaped fields before a line feed and the records after it reads back as
      that record followed by those records. */
  lemma ReadRecordsCons(r: seq<string>, after: string, rs: seq<seq<string>>)
    requires |r| >= 1
    requires ReadRecords(after) == Some(rs)
    ensures ReadRecords(Join(EscAll(r), ',') + (['\n'] + after)) == Some([r] + rs)
  {
    ReadFieldsOfLine(r, ['\n'] + after);
    assert (['\n'] + after)[1..] == after;
  }

  /** The header and the cells of every row, as text. */
  function Table(rows: seq<Row>): seq<seq<string>>
    requires rows != []
  {
    var cols := Keys(rows[0]);
    [cols] + seq(|rows|, i requires 0 <= i < |rows| => Cells(rows[i], cols))
  }

  /** The header line and the row lines, joined by line feeds, read back as the table. */
  lemma TableReadsBack(rows: seq<Row>, lines: seq<string>)
    requires rows != []
    requires |lines| == |rows|
    requires forall i :: 0 <= i < |rows| ==> lines[i] == Line(rows[i], Keys(rows[0]))
    requires |rows[0]| >= 1 && forall i :: 0 <= i < |rows[0]| ==> !NeedsQuotes(rows[0][i].0)
    ensures ReadRecords(Join([Join(Keys(rows[0]), ',')] + lines, '\n')) == Some(Table(rows))
  {
    EscAllOfPlain(Keys(rows[0]));
    LinesOfTable(rows, lines);
    TableRecordsHaveFields(rows);
    ReadRecordsOfLines(Table(rows));
  }

  lemma EscAllOfPlain(vs: seq<string>)
    requires forall i :: 0 <= i < |vs| ==> !NeedsQuotes(vs[i])
    ensures EscAll(vs) == vs
  {
  }

  lemma LinesOfTable(rows: seq<Row>, lines: seq<string>)
    requires rows != []
    requires |lines| == |rows|
    requires forall i :: 0 <= i < |rows| ==> lines[i] == Line(rows[i], Keys(rows[0]))
    requires EscAll(Keys(rows[0])) == Keys(rows[0])
    ensures Lines(Table(rows)) == [Join(Keys(rows[0]), ',')] + lines
  {
    var cols := Keys(rows[0]);
    var records := Table(rows);
    var ls := Lines(records);
    var expected := [Join(cols, ',')] + lines;
    forall i | 0 <= i < |ls| ensures ls[i] == expected[i] {
      if i > 0 {
        RowLine(rows, i - 1);
      }
    }
  }

  /** The line of the table's record for row `i` is that row's line. */
  lemma RowLine(rows: seq<Row>, i: nat)
    requires i < |rows|
    ensures Join(EscAll(Table(rows)[i + 1]), ',') == Line(rows[i], Keys(rows[0]))
  {
    RowRecord(rows, i);
    LineIs(rows[i], Keys(rows[0]));
  }

  lemma RowRecord(rows: seq<Row>, i: nat)
    requires i < |rows|
    ensures Table(rows)[i + 1] == Cells(rows[i], Keys(rows[0]))
  {
  }

  lemma LineIs(r: Row, cols: seq<string>)
    ensures Line(r, cols) == Join(EscAll(Cells(r, cols)), ',')
  {
  }

  lemma TableRecordsHaveFields(rows: seq<Row>)
    requires rows != [] && |rows[0]| >= 1
    ensures forall i :: 0 <= i < |Table(rows)| ==> |Table(rows)[i]| >= 1
  {
  }
}
