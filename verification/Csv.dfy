/** CSV documents, and the reader of RFC 4180 section 2 that recovers them. */
module Csv {

  /** A cell value; numbers come as the text `String` gives them. */
  datatype Cell = Null | Undefined | Text(text: string) | Flag(value: bool) | Number(shown: string)

  function StringForm(cell: Cell): string {
    match cell
    case Null => ""
    case Undefined => ""
    case Text(text) => text
    case Flag(value) => if value then "true" else "false"
    case Number(shown) => shown
  }

  predicate Special(c: char) {
    c == '"' || c == ',' || c == '\r' || c == '\n'
  }

  predicate NeedsQuotes(field: string) {
    exists i :: 0 <= i < |field| && Special(field[i])
  }

  /** Every quote doubled. */
  function Doubled(field: string): string {
    if field == "" then ""
    else (if field[0] == '"' then "\"\"" else [field[0]]) + Doubled(field[1..])
  }

  function Escape(field: string): string {
    if NeedsQuotes(field) then "\"" + Doubled(field) + "\"" else field
  }

  function Join(parts: seq<string>, separator: string): string {
    if parts == [] then "" else if |parts| == 1 then parts[0] else parts[0] + separator + Join(parts[1..], separator)
  }

  function EscapeAll(fields: seq<string>): (r: seq<string>)
    ensures |r| == |fields|
  {
    seq(|fields|, i requires 0 <= i < |fields| => Escape(fields[i]))
  }

  function Line(fields: seq<string>): string {
    Join(EscapeAll(fields), ",")
  }

  function Lines(rows: seq<seq<string>>): (r: seq<string>)
    ensures |r| == |rows|
  {
    seq(|rows|, i requires 0 <= i < |rows| => Line(rows[i]))
  }

  function StringForms(row: seq<Cell>): (r: seq<string>)
    ensures |r| == |row|
  {
    seq(|row|, i requires 0 <= i < |row| => StringForm(row[i]))
  }

  /** The header and every row, as the text each field stands for. */
  function Table(headers: seq<string>, rows: seq<seq<Cell>>): seq<seq<string>> {
    [headers] + seq(|rows|, i requires 0 <= i < |rows| => StringForms(rows[i]))
  }

  function ToCsv(headers: seq<string>, rows: seq<seq<Cell>>): string {
    Join(Lines(Table(headers, rows)), "\r\n")
  }

  // ---- the reader ------------------------------------------------------------------------------

  datatype Mode = Start | Plain | Quoted | Closing

  /** Reads `s` with `field` and `record` already collected; CRLF separates records, a comma fields. */
  function Read(s: string, mode: Mode, field: string, record: seq<string>): seq<seq<string>>
    decreases |s|
  {
    if s == "" then [record + [field]]
    else if mode == Quoted then
      if s[0] == '"' then Read(s[1..], Closing, field, record) else Read(s[1..], Quoted, field + [s[0]], record)
    else if mode == Closing && s[0] == '"' then Read(s[1..], Quoted, field + ['"'], record)
    else if mode == Start && s[0] == '"' then Read(s[1..], Quoted, field, record)
    else if s[0] == ',' then Read(s[1..], Start, "", record + [field])
    else if |s| >= 2 && s[0] == '\r' && s[1] == '\n' then [record + [field]] + Read(s[2..], Start, "", [])
    else Read(s[1..], Plain, field + [s[0]], record)
  }

  function Parse(s: string): seq<seq<string>> {
    Read(s, Start, "", [])
  }

  /** What may follow a written field: nothing, a comma, or a record separator. */
  predicate EndsField(rest: string) {
    rest == "" || rest[0] == ',' || (|rest| >= 2 && rest[0] == '\r' && rest[1] == '\n')
  }

  /** A field is complete: how reading goes on at the separator, if there is one. */
  function AfterField(rest: string, field: string, record: seq<string>): seq<seq<string>>
    requires EndsField(rest)
  {
    if rest == "" then [record + [field]]
    else if rest[0] == ',' then Read(rest[1..], Start, "", record + [field])
    else [record + [field]] + Read(rest[2..], Start, "", [])
  }

  lemma SeparatorEndsField(rest: string, mode: Mode, field: string, record: seq<string>)
    requires EndsField(rest) && mode != Quoted
    ensures Read(rest, mode, field, record) == AfterField(rest, field, record)
  {
  }

  lemma {:induction false} ReadPlain(f: string, rest: string, mode: Mode, acc: string, record: seq<string>)
    requires mode == Plain || (mode == Start && f != "")
    requires !NeedsQuotes(f)
    ensures Read(f + rest, mode, acc, record) == Read(rest, Plain, acc + f, record)
    decreases |f|
  {
    if f == "" {
      assert f + rest == rest && acc + f == acc;
    } else {
      assert !Special(f[0]);
      assert (f + rest)[1..] == f[1..] + rest;
      assert acc + [f[0]] + f[1..] == acc + f;
      assert forall i :: 0 <= i < |f[1..]| ==> f[1..][i] == f[i + 1];
      ReadPlain(f[1..], rest, Plain, acc + [f[0]], record);
    }
  }

  lemma {:induction false} ReadQuoted(f: string, rest: string, acc: string, record: seq<string>)
    ensures Read(Doubled(f) + "\"" + rest, Quoted, acc, record) == Read(rest, Closing, acc + f, record)
    decreases |f|
  {
    var s := Doubled(f) + "\"" + rest;
    if f == "" {
      assert s[1..] == rest && acc + f == acc;
    } else {
      var tail := Doubled(f[1..]) + "\"" + rest;
      assert acc + [f[0]] + f[1..] == acc + f;
      ReadQuoted(f[1..], rest, acc + [f[0]], record);
      if f[0] == '"' {
        assert s == "\"\"" + tail;
        assert s[1..][1..] == tail;
      } else {
        assert s == [f[0]] + tail;
        assert s[1..] == tail;
      }
    }
  }

  lemma OpenQuote(body: string, record: seq<string>)
    ensures Read("\"" + body, Start, "", record) == Read(body, Quoted, "", record)
  {
    assert ("\"" + body)[1..] == body;
  }

  /** A written field reads back as itself, whatever it contains. */
  lemma ReadField(f: string, rest: string, record: seq<string>)
    requires EndsField(rest)
    ensures Read(Escape(f) + rest, Start, "", record) == AfterField(rest, f, record)
  {
    hide Read, AfterField, Doubled;
    if NeedsQuotes(f) {
      assert Escape(f) + rest == "\"" + (Doubled(f) + "\"" + rest);
      OpenQuote(Doubled(f) + "\"" + rest, record);
      ReadQuoted(f, rest, "", record);
      assert "" + f == f;
      SeparatorEndsField(rest, Closing, f, record);
    } else if f == "" {
      assert Escape(f) + rest == rest;
      SeparatorEndsField(rest, Start, f, record);
    } else {
      ReadPlain(f, rest, Start, "", record);
      assert "" + f == f;
      SeparatorEndsField(rest, Plain, f, record);
    }
  }

  lemma LineOfMany(fields: seq<string>)
    requires |fields| > 1
    ensures Line(fields) == Escape(fields[0]) + "," + Line(fields[1..])
  {
    assert EscapeAll(fields)[1..] == EscapeAll(fields[1..]);
  }

  lemma {:induction false} ReadLine(fields: seq<string>, rest: string, record: seq<string>)
    requires fields != [] && (rest == "" || (|rest| >= 2 && rest[0] == '\r' && rest[1] == '\n'))
    ensures Read(Line(fields) + rest, Start, "", record)
            == AfterField(rest, fields[|fields| - 1], record + fields[..|fields| - 1])
    decreases |fields|
  {
    hide Read, Escape;
    if |fields| == 1 {
      assert Line(fields) == Escape(fields[0]);
      ReadField(fields[0], rest, record);
      assert record + fields[..0] == record;
    } else {
      var tail := fields[1..];
      LineOfMany(fields);
      var after := "," + Line(tail) + rest;
      assert Line(fields) + rest == Escape(fields[0]) + after;
      ReadField(fields[0], after, record);
      assert after[1..] == Line(tail) + rest;
      ReadLine(tail, rest, record + [fields[0]]);
      assert record + [fields[0]] + tail[..|tail| - 1] == record + fields[..|fields| - 1];
    }
  }

  lemma {:induction false} ReadLines(rows: seq<seq<string>>)
    requires rows != [] && forall i :: 0 <= i < |rows| ==> rows[i] != []
    ensures Parse(Join(Lines(rows), "\r\n")) == rows
    decreases |rows|
  {
    var first := rows[0];
    assert [] + first[..|first| - 1] == first[..|first| - 1];
    assert first[..|first| - 1] + [first[|first| - 1]] == first;
    if |rows| == 1 {
      assert Join(Lines(rows), "\r\n") == Line(first) + "";
      ReadLine(first, "", []);
    } else {
      var tail := rows[1..];
      assert Lines(rows)[1..] == Lines(tail);
      var after := "\r\n" + Join(Lines(tail), "\r\n");
      assert Join(Lines(rows), "\r\n") == Line(first) + after;
      ReadLine(first, after, []);
      assert after[2..] == Join(Lines(tail), "\r\n");
      ReadLines(tail);
      assert [first] + tail == rows;
    }
  }

  /** The reader never produces a record without fields. */
  lemma {:induction false} RecordsHaveFields(s: string, mode: Mode, field: string, record: seq<string>)
    ensures Read(s, mode, field, record) != []
    ensures forall i :: 0 <= i < |Read(s, mode, field, record)| ==> Read(s, mode, field, record)[i] != []
    decreases |s|
  {
    if s == "" {
    } else if mode == Quoted {
      if s[0] == '"' {
        RecordsHaveFields(s[1..], Closing, field, record);
      } else {
        RecordsHaveFields(s[1..], Quoted, field + [s[0]], record);
      }
    } else if mode == Closing && s[0] == '"' {
      RecordsHaveFields(s[1..], Quoted, field + ['"'], record);
    } else if mode == Start && s[0] == '"' {
      RecordsHaveFields(s[1..], Quoted, field, record);
    } else if s[0] == ',' {
      RecordsHaveFields(s[1..], Start, "", record + [field]);
    } else if |s| >= 2 && s[0] == '\r' && s[1] == '\n' {
      RecordsHaveFields(s[2..], Start, "", []);
    } else {
      RecordsHaveFields(s[1..], Plain, field + [s[0]], record);
    }
  }

  /**
   The round trip: reading a document recovers its header and the text of every field, for any
   mix of commas, quotes and line breaks, exactly when neither the header nor any row is without
   fields (such a row is written like a row holding one empty field).
   */
  lemma RoundTrip(headers: seq<string>, rows: seq<seq<Cell>>)
    ensures Parse(ToCsv(headers, rows)) == Table(headers, rows)
            <==> headers != [] && forall i :: 0 <= i < |rows| ==> rows[i] != []
  {
    var table := Table(headers, rows);
    assert table[0] == headers;
    assert forall i :: 0 <= i < |rows| ==> table[i + 1] == StringForms(rows[i]);
    if Parse(ToCsv(headers, rows)) == table {
      RecordsHaveFields(ToCsv(headers, rows), Start, "", []);
      forall i | 0 <= i < |rows| ensures rows[i] != [] {
        assert table[i + 1] != [];
      }
    }
    if headers != [] && forall i :: 0 <= i < |rows| ==> rows[i] != [] {
      forall i | 0 <= i < |table| ensures table[i] != [] {
        if i > 0 { assert table[i] == StringForms(rows[i - 1]); }
      }
      ReadLines(table);
    }
  }

  /** What the reader finds in each place: the header as given, texts as they are, flags as words, nothing for null. */
  lemma FieldsAreRecovered(headers: seq<string>, rows: seq<seq<Cell>>, i: nat, j: nat)
    requires headers != [] && forall k :: 0 <= k < |rows| ==> rows[k] != []
    requires i < |rows| && j < |rows[i]|
    ensures var table := Parse(ToCsv(headers, rows));
            && |table| == |rows| + 1 && table[0] == headers && |table[i + 1]| == |rows[i]|
            && (rows[i][j].Text? ==> table[i + 1][j] == rows[i][j].text)
            && (rows[i][j].Number? ==> table[i + 1][j] == rows[i][j].shown)
            && (rows[i][j] == Flag(true) ==> table[i + 1][j] == "true")
            && (rows[i][j] == Flag(false) ==> table[i + 1][j] == "false")
            && (rows[i][j] == Null || rows[i][j] == Undefined ==> table[i + 1][j] == "")
  {
    RoundTrip(headers, rows);
    assert Table(headers, rows)[i + 1] == StringForms(rows[i]);
  }

  function QuotesIn(field: string): nat {
    if field == "" then 0 else (if field[0] == '"' then 1 else 0) + QuotesIn(field[1..])
  }

  lemma {:induction false} DoubledLength(field: string)
    ensures |Doubled(field)| == |field| + QuotesIn(field)
  {
    if field != "" {
      DoubledLength(field[1..]);
    }
  }

  /** Fields are quoted only where needed, and then grow by the two quotes and one more per quote inside. */
  lemma EscapesOnlyWhereNeeded(field: string)
    ensures if ',' in field || '"' in field || '\r' in field || '\n' in field then
              && |Escape(field)| == |field| + 2 + QuotesIn(field)
              && Escape(field)[0] == '"' && Escape(field)[|Escape(field)| - 1] == '"'
            else Escape(field) == field
  {
    DoubledLength(field);
    if NeedsQuotes(field) {
      var i :| 0 <= i < |field| && Special(field[i]);
      assert field[i] in field;
    }
    if c :| c in field && Special(c) {
      var i :| 0 <= i < |field| && field[i] == c;
      assert NeedsQuotes(field);
    }
  }
}
