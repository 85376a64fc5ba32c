/** Reading CSV text back the way spreadsheet programs do (section 2 of RFC 4180): records
    end at a newline, fields at a comma; a field that starts with `"` runs to the next lone
    `"`, and `""` inside it stands for one quote. The export's read-back properties are stated
    against this reader. */
module CsvReader {

  import opened Wrappers
  import opened Text

  // ---------------------------------------------------------------------------------------
  // The reader
  // ---------------------------------------------------------------------------------------

  /** The body of a quoted field, read after its opening quote: the unescaped text and what
      follows the closing quote; `None` when the quote is never closed. */
  function ReadQuoted(s: string): (r: Option<(string, string)>)
    ensures r.Some? ==> |r.value.1| < |s|
    decreases |s|
  {
    if |s| == 0 then None
    else if s[0] == '"' then
      if |s| >= 2 && s[1] == '"' then
        match ReadQuoted(s[2..])
        case Some(p) => Some(("\"" + p.0, p.1))
        case None => None
      else Some(([], s[1..]))
    else
      match ReadQuoted(s[1..])
      case Some(p) => Some(([s[0]] + p.0, p.1))
      case None => None
  }

  /** An unquoted field: everything up to the next comma or newline. */
  function ReadBare(s: string): (r: (string, string))
    ensures r.0 + r.1 == s
    ensures FreeOf(r.0, {',', '\n'})
    ensures |r.1| == 0 || r.1[0] == ',' || r.1[0] == '\n'
    decreases |s|
  {
    if |s| == 0 || s[0] == ',' || s[0] == '\n' then ([], s)
    else
      var p := ReadBare(s[1..]);
      assert [s[0]] + p.0 + p.1 == s;
      ([s[0]] + p.0, p.1)
  }

  /** One field and the text after it. */
  function ReadField(s: string): (r: Option<(string, string)>)
    ensures r.Some? ==> |r.value.1| <= |s|
  {
    if |s| > 0 && s[0] == '"' then ReadQuoted(s[1..]) else Some(ReadBare(s))
  }

  /** The fields of one record and the text after it, which is empty or starts with the
      newline ending the record; `None` when a closing quote is followed by anything else. */
  function ReadRecord(s: string): (r: Option<(seq<string>, string)>)
    ensures r.Some? ==> |r.value.0| >= 1 && |r.value.1| <= |s|
    ensures r.Some? ==> |r.value.1| == 0 || r.value.1[0] == '\n'
    decreases |s|
  {
    match ReadField(s)
    case None => None
    case Some(p) =>
      if |p.1| > 0 && p.1[0] == ',' then
        match ReadRecord(p.1[1..])
        case Some(q) => Some(([p.0] + q.0, q.1))
        case None => None
      else if |p.1| == 0 || p.1[0] == '\n' then Some(([p.0], p.1))
      else None
  }

  /** The records of a whole text; an empty text is one record of one empty field. */
  function ReadCsv(s: string): (r: Option<seq<seq<string>>>)
    ensures r.Some? ==> |r.value| >= 1
    decreases |s|
  {
    match ReadRecord(s)
    case None => None
    case Some(p) =>
      if |p.1| == 0 then Some([p.0])
      else
        match ReadCsv(p.1[1..])
        case Some(rest) => Some([p.0] + rest)
        case None => None
  }

  // ---------------------------------------------------------------------------------------
  // Cells the reader gets back
  // ---------------------------------------------------------------------------------------

  /** A cell written without quotes reads back only when it holds no comma, newline or quote. */
  predicate BareCell(c: string) {
    FreeOf(c, {',', '\n', '"'})
  }

  /** A cell is either a well-formed quoted field or a clean bare one. */
  predicate Readable(c: string) {
    ReadQuotedField(c).Some? || BareCell(c)
  }

  /** The text a spreadsheet shows for a readable cell. */
  function CellValue(c: string): string {
    if ReadQuotedField(c).Some? then ReadQuotedField(c).value else c
  }

  predicate ReadableRow(row: seq<string>) {
    forall c | 0 <= c < |row| :: Readable(row[c])
  }

  predicate ReadableRows(rows: seq<seq<string>>) {
    forall k | 0 <= k < |rows| :: ReadableRow(rows[k])
  }

  /** Five readable cells in front of a readable row make a readable row. */
  lemma ReadableFiveThen(a: string, b: string, c: string, d: string, e: string, more: seq<string>)
    requires Readable(a) && Readable(b) && Readable(c) && Readable(d) && Readable(e)
    requires ReadableRow(more)
    ensures ReadableRow([a, b, c, d, e] + more)
  {
    var row := [a, b, c, d, e] + more;
    assert forall k | 5 <= k < |row| :: row[k] == more[k - 5];
  }

  /** Six readable cells in front of a readable row make a readable row. */
  lemma ReadableSixThen(a: string, b: string, c: string, d: string, e: string, f: string, more: seq<string>)
    requires Readable(a) && Readable(b) && Readable(c) && Readable(d) && Readable(e) && Readable(f)
    requires ReadableRow(more)
    ensures ReadableRow([a, b, c, d, e, f] + more)
  {
    ReadableFiveThen(b, c, d, e, f, more);
    var row := [a, b, c, d, e, f] + more;
    assert row == [a] + ([b, c, d, e, f] + more);
  }

  /** What a spreadsheet shows for every cell of the rows. */
  function Values(rows: seq<seq<string>>): (r: seq<seq<string>>)
    ensures |r| == |rows|
    ensures forall k | 0 <= k < |rows| :: |r[k]| == |rows[k]| &&
              forall c | 0 <= c < |rows[k]| :: r[k][c] == CellValue(rows[k][c])
  {
    seq(|rows|, k requires 0 <= k < |rows| => seq(|rows[k]|, c requires 0 <= c < |rows[k]| => CellValue(rows[k][c])))
  }

  // ---------------------------------------------------------------------------------------
  // Read-back
  // ---------------------------------------------------------------------------------------

  /** The unescaping that reads a quoted field accepts only what escaping produces. */
  lemma {:induction false} UnescapeCanonical(x: string, t: string)
    requires UnescapeQuotes(x) == Some(t)
    ensures EscapeQuotes(t) == x
    decreases |x|
  {
    if |x| > 0 {
      if x[0] == '"' {
        var rest := UnescapeQuotes(x[2..]).value;
        assert t == "\"" + rest;
        UnescapeCanonical(x[2..], rest);
        assert t[1..] == rest;
        assert x == "\"\"" + x[2..];
      } else {
        var rest := UnescapeQuotes(x[1..]).value;
        assert t == [x[0]] + rest;
        UnescapeCanonical(x[1..], rest);
        assert t[1..] == rest;
        assert x == [x[0]] + x[1..];
      }
    }
  }

  /** A well-formed quoted cell is the quoting of the text it reads back as. */
  lemma QuotedCellCanonical(c: string)
    requires ReadQuotedField(c).Some?
    ensures c == QuoteField(ReadQuotedField(c).value)
  {
    var body := QuotedBody(c);
    UnescapeCanonical(body, ReadQuotedField(c).value);
  }

  /** The text between the enclosing quotes of a quoted cell. */
  lemma QuotedBody(c: string) returns (body: string)
    requires |c| >= 2 && c[0] == '"' && c[|c| - 1] == '"'
    ensures body == c[1..|c| - 1]
    ensures c == "\"" + body + "\""
  {
    body := c[1..|c| - 1];
    assert c == [c[0]] + body + [c[|c| - 1]];
  }

  /** The escaped body of a field, its closing quote and anything not starting with a quote
      read back as the text and that remainder. */
  lemma {:induction false} ReadEscaped(t: string, rest: string)
    requires |rest| == 0 || rest[0] != '"'
    ensures ReadQuoted(EscapeQuotes(t) + "\"" + rest) == Some((t, rest))
    decreases |t|
  {
    var s := EscapeQuotes(t) + "\"" + rest;
    if |t| == 0 {
      assert s == "\"" + rest;
      assert s[1..] == rest;
    } else {
      ReadEscaped(t[1..], rest);
      var tail := EscapeQuotes(t[1..]) + "\"" + rest;
      if t[0] == '"' {
        assert s == "\"\"" + tail;
        assert s[2..] == tail;
        assert "\"" + t[1..] == t;
      } else {
        assert s == [t[0]] + tail;
        assert s[1..] == tail;
        assert [t[0]] + t[1..] == t;
      }
    }
  }

  /** A bare cell followed by a field end reads back whole. */
  lemma {:induction false} ReadBareCell(c: string, rest: string)
    requires FreeOf(c, {',', '\n'})
    requires |rest| == 0 || rest[0] == ',' || rest[0] == '\n'
    ensures ReadBare(c + rest) == (c, rest)
    decreases |c|
  {
    if |c| > 0 {
      ReadBareCell(c[1..], rest);
      assert (c + rest)[1..] == c[1..] + rest;
      assert [c[0]] + c[1..] == c;
    } else {
      assert c + rest == rest;
    }
  }

  /** A readable cell followed by a field end reads back as the text it shows. */
  lemma ReadCell(c: string, rest: string)
    requires Readable(c)
    requires |rest| == 0 || rest[0] == ',' || rest[0] == '\n'
    ensures ReadField(c + rest) == Some((CellValue(c), rest))
  {
    if ReadQuotedField(c).Some? {
      var t := ReadQuotedField(c).value;
      QuotedCellCanonical(c);
      ReadEscaped(t, rest);
      assert (c + rest)[1..] == EscapeQuotes(t) + "\"" + rest;
    } else {
      assert FreeOf(c, {',', '\n'});
      ReadBareCell(c, rest);
      if |c| > 0 {
        assert c[0] != '"';
        assert (c + rest)[0] == c[0];
      }
    }
  }

  /** The values a spreadsheet shows for the cells of one record. */
  function CellValues(cells: seq<string>): (r: seq<string>)
    ensures |r| == |cells| && forall c | 0 <= c < |cells| :: r[c] == CellValue(cells[c])
  {
    seq(|cells|, c requires 0 <= c < |cells| => CellValue(cells[c]))
  }

  /** The lines of rows written as comma-joined cells. */
  function Lines(rows: seq<seq<string>>): (r: seq<string>)
    ensures |r| == |rows| && forall k | 0 <= k < |rows| :: r[k] == Join(rows[k], ",")
  {
    seq(|rows|, k requires 0 <= k < |rows| => Join(rows[k], ","))
  }

  /** A record written as its cells joined by commas reads back as the cells' values. */
  lemma {:induction false} ReadJoinedRecord(cells: seq<string>, rest: string)
    requires |cells| >= 1
    requires forall c | 0 <= c < |cells| :: Readable(cells[c])
    requires |rest| == 0 || rest[0] == '\n'
    ensures ReadRecord(Join(cells, ",") + rest) == Some((CellValues(cells), rest))
    decreases |cells|
  {
    if |cells| == 1 {
      ReadCell(cells[0], rest);
      assert Join(cells, ",") == cells[0];
      assert CellValues(cells) == [CellValue(cells[0])];
    } else {
      var tail := Join(cells[1..], ",") + rest;
      ReadJoinedRecord(cells[1..], rest);
      JoinStep(cells, ",", rest);
      ReadCell(cells[0], "," + tail);
      assert ("," + tail)[1..] == tail;
      assert CellValues(cells) == [CellValue(cells[0])] + CellValues(cells[1..]);
    }
  }

  /** Joining at least two parts puts the first, the separator, then the rest joined. */
  lemma JoinStep(parts: seq<string>, sep: string, rest: string)
    requires |parts| >= 2
    ensures Join(parts, sep) + rest == parts[0] + (sep + (Join(parts[1..], sep) + rest))
  {
  }

  /** The lines after the first are the lines of the rows after the first. */
  lemma LinesTail(rows: seq<seq<string>>)
    requires |rows| >= 1
    ensures Lines(rows)[1..] == Lines(rows[1..])
  {
  }

  /** The values of the first row, then those of the rest. */
  lemma ValuesStep(rows: seq<seq<string>>)
    requires |rows| >= 1
    ensures Values(rows) == [CellValues(rows[0])] + Values(rows[1..])
  {
    assert Values(rows)[0] == CellValues(rows[0]);
  }

  /** Rows written as comma-joined lines separated by newlines read back as the values of
      their cells: the quoting makes commas, newlines and quotes inside quoted cells safe. */
  lemma {:induction false} ReadJoinedRows(rows: seq<seq<string>>)
    requires |rows| >= 1
    requires forall k | 0 <= k < |rows| :: |rows[k]| >= 1
    requires ReadableRows(rows)
    ensures ReadCsv(Join(Lines(rows), "\n")) == Some(Values(rows))
    decreases |rows|
  {
    if |rows| == 1 {
      ReadOneRow(rows);
    } else {
      ReadJoinedRows(rows[1..]);
      ReadRowThenRest(rows);
    }
  }

  /** A single row reads back as its values. */
  lemma ReadOneRow(rows: seq<seq<string>>)
    requires |rows| == 1 && |rows[0]| >= 1 && ReadableRow(rows[0])
    ensures ReadCsv(Join(Lines(rows), "\n")) == Some(Values(rows))
  {
    var lines := Lines(rows);
    ValuesStep(rows);
    ReadJoinedRecord(rows[0], []);
    assert Join(lines, "\n") == Join(rows[0], ",") + [];
    assert Values(rows[1..]) == [];
    assert Values(rows) == [CellValues(rows[0])];
  }

  /** The first row read, then the newline, then the rest read as before. */
  lemma ReadRowThenRest(rows: seq<seq<string>>)
    requires |rows| >= 2 && |rows[0]| >= 1 && ReadableRow(rows[0])
    requires ReadCsv(Join(Lines(rows[1..]), "\n")) == Some(Values(rows[1..]))
    ensures ReadCsv(Join(Lines(rows), "\n")) == Some(Values(rows))
  {
    var lines := Lines(rows);
    ValuesStep(rows);
    LinesTail(rows);
    var tail := Join(lines[1..], "\n");
    JoinStep(lines, "\n", []);
    assert Join(lines, "\n") == lines[0] + ("\n" + tail);
    ReadJoinedRecord(rows[0], "\n" + tail);
    assert ("\n" + tail)[1..] == tail;
  }
}
