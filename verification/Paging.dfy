/** Paging one inventory and the epoch inventories together (Inventory and EpochInventory of deploy/serve_lake.py). */
module Paging {
  import opened Bytes
  import opened Inventory
  import opened Bisect

  const PAGE_SIZE: nat := 200
  const MAX_ROWS: nat := 1000

  datatype ReadError = InvalidRow | Duplicate(cid: string) | WrongSnapshot | CursorOutside | InvalidLimit | TwoEpochs(cid: string)

  /** Inventory of the reader, as its constructor leaves it. */
  datatype Snapshot = Snapshot(rows: seq<Row>, sizes: map<string, int>, positions: map<string, nat>)

  predicate Acceptable(line: Line) {
    line.Some? && ReaderCid(line.value.cid) && line.value.size > 0
  }

  /** The maps list exactly the rows. */
  ghost predicate Indexed(s: Snapshot) {
    && Distinct(s.rows)
    && s.positions.Keys == CidsOf(s.rows) && s.sizes.Keys == CidsOf(s.rows)
    && forall i :: 0 <= i < |s.rows| ==> && s.rows[i].cid in s.positions && s.positions[s.rows[i].cid] == i
                                         && s.rows[i].cid in s.sizes && s.sizes[s.rows[i].cid] == s.rows[i].size
  }

  lemma IndexedAppend(s: Snapshot, row: Row)
    requires Indexed(s) && row.cid !in s.sizes
    ensures Indexed(Snapshot(s.rows + [row], s.sizes[row.cid := row.size], s.positions[row.cid := |s.rows|]))
  {
    CidsAppend(s.rows, row);
    var all := s.rows + [row];
    forall i | 0 <= i < |s.rows|
      ensures all[i].cid != row.cid
    {
      assert s.rows[i].cid in CidsOf(s.rows);
    }
  }

  method Load(lines: seq<Line>, digestMatches: bool, count: nat) returns (r: Result<Snapshot, ReadError>)
    ensures r.Ok? ==>
            && Indexed(r.value) && |r.value.rows| == |lines|
            && forall i :: 0 <= i < |lines| ==> lines[i] == Some(r.value.rows[i])
    ensures r.Ok? <==>
            && (forall i :: 0 <= i < |lines| ==> Acceptable(lines[i]))
            && (forall i, j :: 0 <= i < j < |lines| && lines[i].Some? && lines[j].Some? ==> lines[i].value.cid != lines[j].value.cid)
            && digestMatches && |lines| == count
  {
    hide Indexed, Acceptable;
    var s := Snapshot([], map[], map[]);
    assert Indexed(s) by { NoneIndexed(); }
    for k := 0 to |lines|
      invariant Indexed(s) && |s.rows| == k
      invariant forall i :: 0 <= i < k ==> lines[i] == Some(s.rows[i]) && Acceptable(lines[i])
    {
      if !(lines[k].Some? && ReaderCid(lines[k].value.cid) && lines[k].value.size > 0) {
        assert !Acceptable(lines[k]) by { NotAcceptable(lines[k]); }
        return Err(InvalidRow);
      }
      var row := lines[k].value;
      if row.cid in s.sizes {
        var i := Earlier(s, row.cid);
        assert lines[i].value.cid == lines[k].value.cid;
        return Err(Duplicate(row.cid));
      }
      NotAcceptable(lines[k]);
      IndexedAppend(s, row);
      s := Snapshot(s.rows + [row], s.sizes[row.cid := row.size], s.positions[row.cid := |s.rows|]);
    }
    DistinctLines(lines, s);
    if !digestMatches || |s.rows| != count {
      return Err(WrongSnapshot);
    }
    return Ok(s);
  }

  lemma NoneIndexed()
    ensures Indexed(Snapshot([], map[], map[]))
  {
  }

  lemma NotAcceptable(line: Line)
    ensures Acceptable(line) <==> line.Some? && ReaderCid(line.value.cid) && line.value.size > 0
  {
  }

  lemma Earlier(s: Snapshot, cid: string) returns (i: nat)
    requires Indexed(s) && cid in s.sizes
    ensures i < |s.rows| && s.rows[i].cid == cid
  {
    assert cid in CidsOf(s.rows);
    i :| i < |s.rows| && s.rows[i].cid == cid;
  }

  lemma DistinctLines(lines: seq<Line>, s: Snapshot)
    requires Indexed(s) && |s.rows| == |lines| && forall i :: 0 <= i < |lines| ==> lines[i] == Some(s.rows[i])
    ensures forall i, j :: 0 <= i < j < |lines| && lines[i].Some? && lines[j].Some? ==> lines[i].value.cid != lines[j].value.cid
  {
  }

  // ----- pages

  datatype Page = Page(blocks: seq<Row>, cursor: Option<nat>)

  /** Inventory.rows */
  function RowsAt(rows: seq<Row>, offset: int, limit: nat): Result<(seq<Row>, nat), ReadError> {
    if offset < 0 || offset >= |rows| then Err(CursorOutside)
    else if !(1 <= limit <= MAX_ROWS) then Err(InvalidLimit)
    else
      var end := Min(offset + limit, |rows|);
      Ok((rows[offset..end], end))
  }

  /** Inventory.page */
  function PageAt(rows: seq<Row>, offset: int): Result<Page, ReadError> {
    var (blocks, end) :- RowsAt(rows, offset, PAGE_SIZE);
    Ok(Page(blocks, if end < |rows| then Some(end) else None))
  }

  /** Rows before part `i`. */
  function Offset(parts: seq<seq<Row>>, i: nat): nat
    requires i <= |parts|
  {
    if i == 0 then 0 else Offset(parts, i - 1) + |parts[i - 1]|
  }

  function Total(parts: seq<seq<Row>>): nat {
    Offset(parts, |parts|)
  }

  lemma {:induction false} OffsetGrows(parts: seq<seq<Row>>, i: nat, j: nat)
    requires i <= j <= |parts|
    ensures Offset(parts, i) <= Offset(parts, j)
    decreases j
  {
    if i < j {
      OffsetGrows(parts, i, j - 1);
    }
  }

  /** self.starts */
  function Starts(parts: seq<seq<Row>>): (r: seq<int>)
    ensures |r| == |parts| && Ascending(r)
    ensures forall i :: 0 <= i < |parts| ==> r[i] == Offset(parts, i)
  {
    var r := seq(|parts|, i requires 0 <= i < |parts| => Offset(parts, i));
    assert Ascending(r) by {
      forall i, j | 0 <= i < j < |r|
        ensures r[i] <= r[j]
      {
        OffsetGrows(parts, i, j);
      }
    }
    r
  }

  /** EpochInventory.rows: the last epoch that starts at or before the offset, and never past its end. */
  function EpochRowsAt(parts: seq<seq<Row>>, offset: int, limit: nat): Result<(seq<Row>, nat), ReadError> {
    if offset < 0 || offset >= Total(parts) then Err(CursorOutside)
    else if !(1 <= limit <= MAX_ROWS) then Err(InvalidLimit)
    else
      Located(parts, offset);
      var index := BisectRight(Starts(parts), offset) - 1;
      var (rows, end) :- RowsAt(parts[index], offset - Starts(parts)[index], limit);
      Ok((rows, Starts(parts)[index] + end))
  }

  lemma Located(parts: seq<seq<Row>>, offset: int)
    requires 0 <= offset < Total(parts)
    ensures var index := BisectRight(Starts(parts), offset) - 1;
            && 0 <= index < |parts|
            && Offset(parts, index) <= offset < Offset(parts, index) + |parts[index]|
  {
    var index := BisectRight(Starts(parts), offset) - 1;
    assert Starts(parts)[0] == 0;
    assert Offset(parts, index + 1) == Offset(parts, index) + |parts[index]|;
    assert index + 1 < |parts| ==> offset < Starts(parts)[index + 1];
  }

  /** EpochInventory.page */
  function EpochPage(parts: seq<seq<Row>>, offset: int): (r: Result<Page, ReadError>)
    ensures r.Ok? <==> 0 <= offset < Total(parts)
    ensures r.Ok? ==> 1 <= |r.value.blocks| <= PAGE_SIZE
    ensures r.Ok? && r.value.cursor.Some? ==> r.value.cursor.value == offset + |r.value.blocks| < Total(parts)
  {
    EpochRowsMove(parts, offset, PAGE_SIZE);
    var (blocks, end) :- EpochRowsAt(parts, offset, PAGE_SIZE);
    Ok(Page(blocks, if end < Total(parts) then Some(end) else None))
  }

  /** Rows are given for an offset inside the lake and a limit of 1 to 1000: as many as the epoch still has. */
  lemma EpochRowsExact(parts: seq<seq<Row>>, offset: int, limit: nat) returns (i: nat)
    ensures var r := EpochRowsAt(parts, offset, limit);
            && (r.Ok? <==> 0 <= offset < Total(parts) && 1 <= limit <= 1000)
            && (r.Ok? ==>
                  && i < |parts| && Offset(parts, i) <= offset < Offset(parts, i) + |parts[i]|
                  && |r.value.0| == Min(limit, Offset(parts, i) + |parts[i]| - offset)
                  && r.value.1 == offset + |r.value.0|)
  {
    hide Offset;
    i := 0;
    if 0 <= offset < Total(parts) {
      Located(parts, offset);
      i := BisectRight(Starts(parts), offset) - 1;
    }
  }

  lemma EpochRowsMove(parts: seq<seq<Row>>, offset: int, limit: nat)
    ensures var r := EpochRowsAt(parts, offset, limit);
            && (r.Ok? <==> 0 <= offset < Total(parts) && 1 <= limit <= 1000)
            && (r.Ok? ==> 1 <= |r.value.0| <= limit && r.value.1 == offset + |r.value.0|)
  {
    hide EpochRowsAt, Offset;
    var i := EpochRowsExact(parts, offset, limit);
  }

  /** The pages a client gets that follows the cursor from `offset` until there is none. */
  function Follow(parts: seq<seq<Row>>, offset: nat): seq<seq<Row>>
    requires offset < Total(parts)
    decreases Total(parts) - offset
  {
    var page := EpochPage(parts, offset).value;
    [page.blocks] + if page.cursor.None? then [] else Follow(parts, page.cursor.value)
  }
}
