/** The JSON-lines text of an inventory, as captures write it and every tool reads it back. */
module InventoryText {
  import opened Bytes
  import opened Inventory

  const DIGITS := "0123456789"

  function Decimal(n: nat): (s: string)
    ensures s != ""
  {
    if n < 10 then [DIGITS[n]] else Decimal(n / 10) + [DIGITS[n % 10]]
  }

  /** A block id of the lake with a positive size. */
  predicate Writable(row: Row) {
    ValidCid(row.cid) && row.size >= 1
  }

  /** One row without its line end. */
  function RowLine(row: Row): string {
    "{\"cid\":\"" + row.cid + "\",\"bytes\":" + (if row.size < 0 then "-" + Decimal(-row.size) else Decimal(row.size)) + "}"
  }

  function RowText(row: Row): string {
    RowLine(row) + "\n"
  }

  function Render(rows: seq<Row>): string {
    if rows == [] then "" else Render(rows[..|rows| - 1]) + RowText(rows[|rows| - 1])
  }

  // ----- inventory-rows

  datatype TextRefusal = InvalidRow | InvalidOrderOrSize

  function LineEnd(text: string): (n: nat)
    ensures n <= |text|
    ensures forall i :: 0 <= i < n ==> text[i] != '\n'
    ensures n < |text| ==> text[n] == '\n'
  {
    if text == "" || text[0] == '\n' then 0 else 1 + LineEnd(text[1..])
  }

  function Lines(text: string): seq<string> {
    if text == "" then []
    else
      var n := LineEnd(text);
      [text[..n]] + if n == |text| then [] else Lines(text[n + 1..])
  }

  predicate Blank(line: string) {
    forall i :: 0 <= i < |line| ==> line[i] in " \t\r"
  }

  function CheckLines(json: string -> Line, lines: seq<string>, prev: string): Result<seq<Row>, TextRefusal>
    decreases |lines|
  {
    if lines == [] then Ok([])
    else if Blank(lines[0]) then CheckLines(json, lines[1..], prev)
    else
      match json(lines[0])
      case None => Err(InvalidRow)
      case Some(row) =>
        if !ValidCid(row.cid) || !Before(prev, row.cid) || row.size < 1 then Err(InvalidOrderOrSize)
        else
          var rest :- CheckLines(json, lines[1..], row.cid);
          Ok([row] + rest)
  }

  function InventoryRows(json: string -> Line, text: string): Result<seq<Row>, TextRefusal> {
    CheckLines(json, Lines(text), "")
  }

  /** JSON.parse reads back what a row line says. */
  ghost predicate ReadsRows(json: string -> Line) {
    forall row :: Writable(row) ==> json(RowLine(row)) == Some(row)
  }

  // ----- reading back what was written

  predicate OneLine(text: string) {
    forall i :: 0 <= i < |text| ==> text[i] != '\n'
  }

  lemma {:induction false} DecimalIsOneLine(n: nat)
    ensures OneLine(Decimal(n))
  {
    if n >= 10 {
      DecimalIsOneLine(n / 10);
    }
  }

  lemma RowLineIsOneLine(row: Row)
    requires Writable(row)
    ensures OneLine(RowLine(row)) && !Blank(RowLine(row))
  {
    DecimalIsOneLine(row.size);
    assert OneLine(row.cid);
    assert RowLine(row)[0] == '{';
  }

  lemma {:induction false} LineEndOf(line: string, rest: string)
    requires OneLine(line)
    ensures LineEnd(line + "\n" + rest) == |line|
  {
    var text := line + "\n" + rest;
    assert text[|line|] == '\n';
    assert forall i :: 0 <= i < |line| ==> text[i] == line[i];
  }

  lemma LinesOf(line: string, rest: string)
    requires OneLine(line)
    ensures Lines(line + "\n" + rest) == [line] + Lines(rest)
  {
    LineEndOf(line, rest);
    var text := line + "\n" + rest;
    assert text[..|line|] == line && text[|line| + 1..] == rest;
  }

  /** Rendering from the front. */
  lemma {:induction false} RenderFirst(rows: seq<Row>)
    requires rows != []
    ensures Render(rows) == RowText(rows[0]) + Render(rows[1..])
    decreases |rows|
  {
    hide RowText;
    var n := |rows| - 1;
    if n > 0 {
      RenderFirst(rows[..n]);
      var tail := rows[1..];
      assert |tail| == n && tail[..n - 1] == rows[..n][1..] && tail[n - 1] == rows[n];
      assert Render(tail) == Render(tail[..n - 1]) + RowText(tail[n - 1]);
      assert Render(rows) == Render(rows[..n]) + RowText(rows[n]);
    } else {
      assert rows[1..] == [] && rows[..0] == [];
    }
  }

  lemma {:induction false} RenderConcat(a: seq<Row>, b: seq<Row>)
    ensures Render(a + b) == Render(a) + Render(b)
    decreases |b|
  {
    hide RowText;
    if b == [] {
      assert a + b == a;
    } else {
      var n := |b| - 1;
      assert (a + b)[..|a| + n] == a + b[..n];
      RenderConcat(a, b[..n]);
    }
  }

  lemma TakeLine(json: string -> Line, row: Row, lines: seq<string>, prev: string)
    requires ReadsRows(json) && Writable(row) && Before(prev, row.cid) && CheckLines(json, lines, row.cid).Ok?
    ensures CheckLines(json, [RowLine(row)] + lines, prev) == Ok([row] + CheckLines(json, lines, row.cid).value)
  {
    hide RowLine, ValidCid, Before;
    RowLineIsOneLine(row);
    assert ([RowLine(row)] + lines)[1..] == lines;
  }

  /** Lines of a rendering, after any row that comes before them. */
  lemma {:induction false} ReadBackFrom(json: string -> Line, rows: seq<Row>, prev: string)
    requires ReadsRows(json) && Increasing(rows) && forall row :: row in rows ==> Writable(row)
    requires rows != [] ==> Before(prev, rows[0].cid)
    ensures CheckLines(json, Lines(Render(rows)), prev) == Ok(rows)
    decreases |rows|
  {
    if rows != [] {
      hide Render, Lines, RowLine, ValidCid, Before, CheckLines;
      var row := rows[0];
      assert row in rows;
      RowLineIsOneLine(row);
      RenderFirst(rows);
      LinesOf(RowLine(row), Render(rows[1..]));
      ReadBackFrom(json, rows[1..], row.cid);
      TakeLine(json, row, Lines(Render(rows[1..])), prev);
      assert [row] + rows[1..] == rows;
    }
  }

  /** Reading back a rendered inventory gives its rows. */
  lemma ReadBack(json: string -> Line, rows: seq<Row>)
    requires ReadsRows(json) && Increasing(rows) && forall row :: row in rows ==> Writable(row)
    ensures InventoryRows(json, Render(rows)) == Ok(rows)
  {
    if rows != [] {
      assert rows[0] in rows;
      assert Before("", rows[0].cid);
    }
    ReadBackFrom(json, rows, "");
  }

  /** Whatever the text, accepted rows are writable and in strictly increasing order. */
  lemma {:induction false} AcceptedRows(json: string -> Line, lines: seq<string>, prev: string)
    requires CheckLines(json, lines, prev).Ok?
    ensures var rows := CheckLines(json, lines, prev).value;
            && Increasing(rows) && (forall row :: row in rows ==> Writable(row))
            && (rows != [] ==> Before(prev, rows[0].cid))
    decreases |lines|
  {
    if lines != [] {
      hide Before, ValidCid;
      if Blank(lines[0]) {
        AcceptedRows(json, lines[1..], prev);
      } else {
        AcceptedRows(json, lines[1..], json(lines[0]).value.cid);
      }
    }
  }

  // ----- what a row line says

  predicate AllDigits(s: string) {
    forall i :: 0 <= i < |s| ==> '0' <= s[i] <= '9'
  }

  /** The number decimal digits name. */
  function Number(s: string): nat
    requires AllDigits(s)
  {
    if s == "" then 0 else 10 * Number(s[..|s| - 1]) + (s[|s| - 1] as int - '0' as int)
  }

  lemma {:induction false} DecimalExact(n: nat)
    ensures AllDigits(Decimal(n)) && Number(Decimal(n)) == n && (|Decimal(n)| > 1 ==> Decimal(n)[0] != '0')
  {
    if n >= 10 {
      DecimalExact(n / 10);
      var s := Decimal(n);
      assert s[..|s| - 1] == Decimal(n / 10);
    } else {
      assert Decimal(n)[..0] == "";
    }
    assert forall k :: 0 <= k < 10 ==> DIGITS[k] as int - '0' as int == k;
  }

  function Quote(text: string): (n: nat)
    ensures n <= |text|
  {
    if text == "" || text[0] == '"' then 0 else 1 + Quote(text[1..])
  }

  lemma {:induction false} QuoteOf(text: string, rest: string)
    requires forall i :: 0 <= i < |text| ==> text[i] != '"'
    ensures Quote(text + "\"" + rest) == |text|
  {
    if text != "" {
      assert (text + "\"" + rest)[1..] == text[1..] + "\"" + rest;
      QuoteOf(text[1..], rest);
    }
  }

  /** An object with a "cid" string without escapes and then a decimal "bytes". */
  function ReadRow(line: string): Line {
    if !("{\"cid\":\"" <= line) then None
    else
      var rest := line[8..];
      var n := Quote(rest);
      if !("\",\"bytes\":" <= rest[n..]) then None
      else
        var number := rest[n + 10..];
        if |number| < 2 || number[|number| - 1] != '}' || !AllDigits(number[..|number| - 1]) then None
        else Some(Row(rest[..n], Number(number[..|number| - 1])))
  }

  /** A row line is that object, with the row's CID and its size. */
  lemma ReadRowReads()
    ensures ReadsRows(ReadRow)
  {
    forall row | Writable(row)
      ensures ReadRow(RowLine(row)) == Some(row)
    {
      ReadOne(row);
    }
  }

  lemma ReadOne(row: Row)
    requires Writable(row)
    ensures ReadRow(RowLine(row)) == Some(row)
  {
    hide Decimal, Number, Quote, ValidCid;
    NoQuote(row.cid);
    DecimalExact(row.size);
    var number := Decimal(row.size) + "}";
    var after := ",\"bytes\":" + number;
    var rest := row.cid + "\"" + after;
    QuoteOf(row.cid, after);
    assert RowLine(row) == "{\"cid\":\"" + rest;
    assert RowLine(row)[8..] == rest && rest[..|row.cid|] == row.cid;
    assert rest[|row.cid|..] == "\",\"bytes\":" + number;
    assert rest[|row.cid| + 10..] == number;
    assert number[..|number| - 1] == Decimal(row.size);
  }

  lemma NoQuote(cid: string)
    requires ValidCid(cid)
    ensures forall i :: 0 <= i < |cid| ==> cid[i] != '"'
  {
  }

  /** One line, byte by byte. */
  lemma KnownRow()
    ensures RowText(Row("bafy", 12)) == "{\"cid\":\"bafy\",\"bytes\":12}\n"
  {
    assert Decimal(12) == Decimal(1) + "2" == "12";
    hide Decimal;
    assert RowText(Row("bafy", 12)) == "{\"cid\":\"" + "bafy" + "\",\"bytes\":" + "12" + "}" + "\n";
  }
}
