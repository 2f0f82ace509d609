/** Which inventory rows go into one CAR: selected_rows of the exporter and of the shipper. */
module Selection {
  import opened Bytes
  import opened Inventory

  const MAX_CAR_BLOCK: nat := 8_000_000
  const ROW_OVERHEAD: nat := 1024

  /** The snapshot a caller names: the row count, and whether the file's digest is the expected one. */
  datatype Identity = Identity(count: nat, digestMatches: bool)

  datatype SelectError = InvalidRow | FirstTooLarge | WrongIdentity | EmptyRange | SingleTooLarge

  datatype Reason = VerifiedRawBlockStore | OversizedForCar

  /** What the shipper does next: one CAR of rows, one skip record, or nothing. */
  datatype Choice = Rows(rows: seq<Row>) | Skip(row: nat, cid: string, size: int, reason: Reason) | Nothing

  /** One more row of this size fits behind `rows` in the byte budget. */
  predicate Fits(rows: seq<Row>, size: int, maxBytes: int) {
    1 <= size <= MAX_CAR_BLOCK && Sum(rows) + size + ROW_OVERHEAD * (|rows| + 1) <= maxBytes
  }

  /** `rows` are the lines from `start`, each fits behind the ones before it, and none is in `skip`. */
  ghost predicate Chosen(lines: seq<Line>, start: nat, rows: seq<Row>, maxBytes: int, skip: set<string>) {
    && (rows != [] ==> start + |rows| <= |lines|)
    && forall i :: 0 <= i < |rows| ==>
         lines[start + i] == Some(rows[i]) && rows[i].cid !in skip && Fits(rows[..i], rows[i].size, maxBytes)
  }

  /** A line that cannot be put behind `rows`. */
  predicate Blocks(line: Line, rows: seq<Row>, maxBytes: int, skip: set<string>) {
    line.None? || line.value.cid in skip || !Fits(rows, line.value.size, maxBytes)
  }

  /** Of the lines from `start` up to `end`, `rows` are as many as fit: the next one blocks. */
  ghost predicate Selected(lines: seq<Line>, start: nat, end: nat, rows: seq<Row>, maxBytes: int, skip: set<string>) {
    && end <= |lines|
    && Chosen(lines, start, rows, maxBytes, skip)
    && start + |rows| <= Max(start, end)
    && (start + |rows| < end ==> Blocks(lines[start + |rows|], rows, maxBytes, skip))
  }

  /** Every line of the window can be read and names a CID. */
  ghost predicate Readable(lines: seq<Line>, start: nat, end: nat) {
    end <= |lines| && forall i :: start <= i < end ==> lines[i].Some? && ValidCid(lines[i].value.cid)
  }

  /** The lines a call looks at: at most `maxBlocks` from `start`. */
  function WindowEnd(count: nat, start: nat, maxBlocks: nat): nat {
    Min(start + maxBlocks, count)
  }

  /** Before the window nothing is selected. */
  lemma SelectNothing(lines: seq<Line>, start: nat, end: nat, maxBytes: int, skip: set<string>)
    requires end <= |lines| && end <= start
    ensures Selected(lines, start, end, [], maxBytes, skip)
    ensures forall rows :: Selected(lines, start, end, rows, maxBytes, skip) ==> rows == []
    ensures Sum([]) == 0
  {
  }

  lemma SelectedWithin(lines: seq<Line>, start: nat, end: nat, rows: seq<Row>, maxBytes: int, skip: set<string>)
    requires Selected(lines, start, end, rows, maxBytes, skip) && start <= end
    ensures start + |rows| <= end
    ensures rows != [] ==> !Blocks(lines[start], [], maxBytes, skip)
  {
    assert rows[..0] == [];
    assert rows != [] ==> lines[start + 0] == Some(rows[0]);
  }

  lemma TakeRow(lines: seq<Line>, start: nat, end: nat, rows: seq<Row>, row: Row, maxBytes: int, skip: set<string>)
    requires Selected(lines, start, end, rows, maxBytes, skip) && start <= end < |lines|
    requires start + |rows| == end && lines[end] == Some(row) && !Blocks(lines[end], rows, maxBytes, skip)
    ensures Selected(lines, start, end + 1, rows + [row], maxBytes, skip)
    ensures Sum(rows + [row]) == Sum(rows) + row.size
  {
    hide Fits, Sum;
    SumAppend(rows, row);
    var all := rows + [row];
    assert all[..|rows|] == rows;
    forall i | 0 <= i < |rows|
      ensures lines[start + i] == Some(all[i]) && all[i].cid !in skip && Fits(all[..i], all[i].size, maxBytes)
    {
      assert all[..i] == rows[..i];
      assert lines[start + i] == Some(rows[i]);
    }
  }

  lemma PassRow(lines: seq<Line>, start: nat, end: nat, rows: seq<Row>, maxBytes: int, skip: set<string>)
    requires Selected(lines, start, end, rows, maxBytes, skip) && start <= end < |lines|
    requires start + |rows| == end ==> Blocks(lines[end], rows, maxBytes, skip)
    ensures Selected(lines, start, end + 1, rows, maxBytes, skip)
  {
    hide Fits;
  }

  /** The exporter's selected_rows. */
  method ExportRows(lines: seq<Line>, identity: Identity, start: nat, maxBlocks: nat, maxBytes: int)
    returns (r: Result<seq<Row>, SelectError>)
    ensures r.Ok? ==>
            r.value != [] && Selected(lines, start, WindowEnd(|lines|, start, maxBlocks), r.value, maxBytes, {})
    ensures r.Ok? <==>
            && identity.digestMatches && identity.count == |lines|
            && start < WindowEnd(|lines|, start, maxBlocks)
            && Readable(lines, start, WindowEnd(|lines|, start, maxBlocks))
            && !Blocks(lines[start], [], maxBytes, {})
  {
    hide Selected, Fits, ValidCid, Sum;
    var rows: seq<Row> := [];
    var total := 0;
    SelectNothing(lines, start, 0, maxBytes, {});
    for count := 0 to |lines|
      invariant total == Sum(rows)
      invariant Selected(lines, start, WindowEnd(count, start, maxBlocks), rows, maxBytes, {})
      invariant Readable(lines, start, WindowEnd(count, start, maxBlocks))
      invariant start < WindowEnd(count, start, maxBlocks) <==> rows != []
      invariant rows != [] ==> !Blocks(lines[start], [], maxBytes, {})
    {
      if start <= count < start + maxBlocks {
        SelectedWithin(lines, start, count, rows, maxBytes, {});
        var line := lines[count];
        if line.None? || !ValidCid(line.value.cid) {
          return Err(InvalidRow);
        }
        var row := line.value;
        FitsSize(rows, row.size, maxBytes);
        if row.size > MAX_CAR_BLOCK || row.size < 1 || total + row.size + ROW_OVERHEAD * (|rows| + 1) > maxBytes {
          if rows == [] {
            return Err(FirstTooLarge);
          }
          PassRow(lines, start, count, rows, maxBytes, {});
        } else if |rows| == count - start {
          TakeRow(lines, start, count, rows, row, maxBytes, {});
          SelectedWithin(lines, start, count + 1, rows + [row], maxBytes, {});
          rows := rows + [row];
          total := total + row.size;
        } else {
          PassRow(lines, start, count, rows, maxBytes, {});
        }
      } else if count < start {
        SelectNothing(lines, start, count, maxBytes, {});
        SelectNothing(lines, start, count + 1, maxBytes, {});
      }
    }
    if !identity.digestMatches || identity.count != |lines| {
      return Err(WrongIdentity);
    }
    if rows == [] {
      return Err(EmptyRange);
    }
    return Ok(rows);
  }

  lemma FitsSize(rows: seq<Row>, size: int, maxBytes: int)
    ensures Fits(rows, size, maxBytes) <==>
            !(size > MAX_CAR_BLOCK || size < 1 || Sum(rows) + size + ROW_OVERHEAD * (|rows| + 1) > maxBytes)
  {
  }

  /** The shipper also refuses a row of the window without a positive size. */
  ghost predicate Shippable(lines: seq<Line>, start: nat, end: nat) {
    Readable(lines, start, end) && forall i :: start <= i < end ==> lines[i].value.size >= 1
  }

  /** What the first row allows, when the window is shippable. */
  function FirstChoice(lines: seq<Line>, start: nat, maxBytes: int, raw: set<string>): Result<Option<Choice>, SelectError> {
    if start >= |lines| then Ok(Some(Nothing))
    else if lines[start].None? then Err(InvalidRow)
    else
      var row := lines[start].value;
      if !Blocks(lines[start], [], maxBytes, raw) then Ok(None)
      else if row.cid in raw then Ok(Some(Skip(start, row.cid, row.size, VerifiedRawBlockStore)))
      else if row.size > MAX_CAR_BLOCK then Ok(Some(Skip(start, row.cid, row.size, OversizedForCar)))
      else Err(SingleTooLarge)
  }

  /** A row is skipped exactly when the raw store has it or it is above 8,000,000 bytes, and the record says which. */
  lemma SkipExact(lines: seq<Line>, start: nat, maxBytes: int, raw: set<string>, record: Choice)
    requires record.Skip?
    ensures FirstChoice(lines, start, maxBytes, raw) == Ok(Some(record)) <==>
            && start < |lines| && lines[start].Some? && record.row == start
            && record.cid == lines[start].value.cid && record.size == lines[start].value.size
            && if record.cid in raw then record.reason.VerifiedRawBlockStore?
               else record.size > 8_000_000 && record.reason.OversizedForCar?
  {
    hide Sum;
    if start < |lines| && lines[start].Some? {
      FitsSize([], lines[start].value.size, maxBytes);
    }
  }

  /** The shipper's selected_rows: rows in the raw store or too large for a CAR end the range. */
  method ShipRows(lines: seq<Line>, identity: Identity, start: nat, maxBlocks: nat, maxBytes: int, raw: set<string>)
    returns (r: Result<Choice, SelectError>)
    requires maxBlocks >= 1 && maxBytes >= 1
    ensures r.Ok? && r.value.Rows? ==>
            && r.value.rows != []
            && Selected(lines, start, WindowEnd(|lines|, start, maxBlocks), r.value.rows, maxBytes, raw)
    ensures var good := && identity.digestMatches && identity.count == |lines|
                        && Shippable(lines, start, WindowEnd(|lines|, start, maxBlocks));
            var first := FirstChoice(lines, start, maxBytes, raw);
            && (r.Ok? <==> good && first.Ok?)
            && (r.Ok? ==> if first.value.Some? then r.value == first.value.value else r.value.Rows?)
  {
    hide Selected, Fits, ValidCid, Sum;
    var rows: seq<Row> := [];
    var total := 0;
    SelectNothing(lines, start, 0, maxBytes, raw);
    for count := 0 to |lines|
      invariant total == Sum(rows)
      invariant total < maxBytes
      invariant Selected(lines, start, WindowEnd(count, start, maxBlocks), rows, maxBytes, raw)
      invariant Shippable(lines, start, WindowEnd(count, start, maxBlocks))
      invariant start < WindowEnd(count, start, maxBlocks) ==> (rows == [] <==> Blocks(lines[start], [], maxBytes, raw))
      invariant WindowEnd(count, start, maxBlocks) <= start ==> rows == []
    {
      if start <= count < start + maxBlocks && total < maxBytes {
        SelectedWithin(lines, start, count, rows, maxBytes, raw);
        var line := lines[count];
        if line.None? || !ValidCid(line.value.cid) || line.value.size < 1 {
          return Err(InvalidRow);
        }
        var row := line.value;
        FitsSize(rows, row.size, maxBytes);
        if row.cid in raw {
          PassRow(lines, start, count, rows, maxBytes, raw);
        } else if row.size > MAX_CAR_BLOCK || total + row.size + ROW_OVERHEAD * (|rows| + 1) > maxBytes {
          PassRow(lines, start, count, rows, maxBytes, raw);
        } else if |rows| == count - start {
          TakeRow(lines, start, count, rows, row, maxBytes, raw);
          SelectedWithin(lines, start, count + 1, rows + [row], maxBytes, raw);
          rows := rows + [row];
          total := total + row.size;
        } else {
          PassRow(lines, start, count, rows, maxBytes, raw);
        }
      } else if count < start {
        SelectNothing(lines, start, count, maxBytes, raw);
        SelectNothing(lines, start, count + 1, maxBytes, raw);
      }
    }
    if !identity.digestMatches || identity.count != |lines| {
      return Err(WrongIdentity);
    }
    if start >= |lines| {
      return Ok(Nothing);
    }
    if rows != [] {
      return Ok(Rows(rows));
    }
    FitsSize([], lines[start].value.size, maxBytes);
    var row := lines[start].value;
    if row.cid in raw {
      return Ok(Skip(start, row.cid, row.size, VerifiedRawBlockStore));
    }
    if row.size > MAX_CAR_BLOCK {
      return Ok(Skip(start, row.cid, row.size, OversizedForCar));
    }
    return Err(SingleTooLarge);
  }

  /** The first `n` lines from `start` can all be in one CAR of the budget. */
  ghost predicate CarOf(lines: seq<Line>, start: nat, n: nat, maxBytes: int, skip: set<string>)
    requires start + n <= |lines|
  {
    && (forall i :: start <= i < start + n ==>
          lines[i].Some? && lines[i].value.cid !in skip && 1 <= lines[i].value.size <= 8_000_000)
    && (n > 0 ==> Sum(RowsAt(lines, start, n)) + 1024 * n <= maxBytes)
  }

  function RowsAt(lines: seq<Line>, start: nat, n: nat): (rows: seq<Row>)
    requires start + n <= |lines|
  {
    seq(n, i requires 0 <= i < n => if lines[start + i].Some? then lines[start + i].value else Row("", 0))
  }

  /** The selection is the longest run of lines from `start` that one CAR of the budget can hold. */
  lemma SelectedIsLongest(lines: seq<Line>, start: nat, end: nat, rows: seq<Row>, maxBytes: int, skip: set<string>)
    requires start <= end <= |lines| && Selected(lines, start, end, rows, maxBytes, skip)
    ensures start + |rows| <= end && rows == RowsAt(lines, start, |rows|) && CarOf(lines, start, |rows|, maxBytes, skip)
    ensures forall n: nat :: |rows| < n <= end - start ==> !CarOf(lines, start, n, maxBytes, skip)
  {
    hide Sum, CarOf, Fits;
    SelectedFits(lines, start, end, rows, maxBytes, skip);
    var k := |rows|;
    if n: nat :| k < n <= end - start && CarOf(lines, start, n, maxBytes, skip) {
      CarOfFewer(lines, start, k + 1, n, maxBytes, skip);
      NoneMore(lines, start, rows, maxBytes, skip);
    }
  }

  lemma SelectedFits(lines: seq<Line>, start: nat, end: nat, rows: seq<Row>, maxBytes: int, skip: set<string>)
    requires start <= end <= |lines| && Selected(lines, start, end, rows, maxBytes, skip)
    ensures start + |rows| <= end && rows == RowsAt(lines, start, |rows|) && CarOf(lines, start, |rows|, maxBytes, skip)
  {
    hide Sum, Blocks;
    var k := |rows|;
    assert forall i :: 0 <= i < k ==> lines[start + i] == Some(rows[i]) && Fits(rows[..i], rows[i].size, maxBytes);
    forall i | start <= i < start + k
      ensures lines[i].Some? && lines[i].value.cid !in skip && 1 <= lines[i].value.size <= 8_000_000
    {
      assert lines[start + (i - start)] == Some(rows[i - start]);
    }
    if k > 0 {
      SumAppend(rows[..k - 1], rows[k - 1]);
      assert rows == rows[..k - 1] + [rows[k - 1]];
    }
  }

  lemma NoneMore(lines: seq<Line>, start: nat, rows: seq<Row>, maxBytes: int, skip: set<string>)
    requires start + |rows| < |lines| && rows == RowsAt(lines, start, |rows|)
    requires Blocks(lines[start + |rows|], rows, maxBytes, skip)
    ensures !CarOf(lines, start, |rows| + 1, maxBytes, skip)
  {
    hide Sum;
    var line := lines[start + |rows|];
    if line.Some? {
      assert RowsAt(lines, start, |rows| + 1) == rows + [line.value];
      SumAppend(rows, line.value);
    }
  }

  lemma {:induction false} CarOfFewer(lines: seq<Line>, start: nat, k: nat, n: nat, maxBytes: int, skip: set<string>)
    requires k <= n && start + n <= |lines| && CarOf(lines, start, n, maxBytes, skip)
    ensures CarOf(lines, start, k, maxBytes, skip)
    decreases n
  {
    hide Sum;
    if k < n {
      var m := n - 1;
      assert RowsAt(lines, start, n) == RowsAt(lines, start, m) + [lines[start + m].value];
      SumAppend(RowsAt(lines, start, m), lines[start + m].value);
      CarOfFewer(lines, start, k, m, maxBytes, skip);
    }
  }

  lemma {:induction false} SelectedUnique(lines: seq<Line>, start: nat, end: nat, a: seq<Row>, b: seq<Row>,
                                          maxBytes: int, skip: set<string>)
    requires Selected(lines, start, end, a, maxBytes, skip) && Selected(lines, start, end, b, maxBytes, skip)
    requires |a| <= |b|
    ensures a == b
  {
    forall i | 0 <= i < |a|
      ensures a[i] == b[i]
    {
      assert lines[start + i] == Some(a[i]);
      assert lines[start + i] == Some(b[i]);
    }
    assert a == b[..|a|];
    assert b[..|b|] == b;
  }

  /** Rows the shipper chose are exactly what the exporter, asked for that many, selects. */
  lemma ExporterSelectsSame(lines: seq<Line>, start: nat, maxBlocks: nat, rows: seq<Row>, exported: seq<Row>,
                            maxBytes: int, raw: set<string>)
    requires rows != [] && Selected(lines, start, WindowEnd(|lines|, start, maxBlocks), rows, maxBytes, raw)
    requires Shippable(lines, start, WindowEnd(|lines|, start, maxBlocks))
    ensures var end := WindowEnd(|lines|, start, |rows|);
            && start < end && Readable(lines, start, end) && !Blocks(lines[start], [], maxBytes, {})
            && (Selected(lines, start, end, exported, maxBytes, {}) <==> exported == rows)
  {
    hide Fits;
    var end := WindowEnd(|lines|, start, |rows|);
    assert rows[..0] == [];
    assert lines[start + 0] == Some(rows[0]);
    assert Selected(lines, start, end, rows, maxBytes, {});
    if Selected(lines, start, end, exported, maxBytes, {}) {
      SelectedUnique(lines, start, end, exported, rows, maxBytes, {});
    }
  }
}
