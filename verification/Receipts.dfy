/**
 Which rows receipts cover: the reader's merged ranges (deploy/serve_lake.py) and the audit's marks
 (deploy/audit_lake.py).
 */
module Receipts {
  import opened Bytes
  import opened Inventory
  import opened Bisect

  const MAX_RECEIPT_ROWS: nat := 1000

  datatype Range = Range(start: int, end: int)

  predicate In(r: Range, row: int) {
    r.start <= row < r.end
  }

  predicate InSome(ranges: seq<Range>, row: int) {
    exists i :: 0 <= i < |ranges| && In(ranges[i], row)
  }

  /**
   A CAR import or native import receipt; `name` is the range its file name gives, `here` says that it
   names this inventory and repository, `evidence` that its archive digest or source peer is well formed.
   */
  datatype Receipt = Receipt(
    native: bool, name: Option<Range>, complete: bool, here: bool,
    startRow: int, endRow: int, blocks: int, bytes: int, root: string, evidence: bool)

  datatype ReceiptError = DirectoryAbsent | InvalidName | InvalidRange | Differs | RootDiffers | RawDiffers | InvalidLarge

  /** A recorded range of this inventory. */
  predicate Recorded(rows: seq<Row>, r: Receipt) {
    && r.name.Some? && 0 <= r.name.value.start < r.name.value.end <= |rows|
    && r.complete && r.here && r.evidence
    && r.startRow == r.name.value.start && r.endRow == r.name.value.end
    && r.blocks == r.endRow - r.startRow
  }

  /** At most a thousand rows, and of the recorded size. */
  predicate Sized(rows: seq<Row>, r: Receipt)
    requires Recorded(rows, r)
  {
    r.endRow - r.startRow <= MAX_RECEIPT_ROWS && r.bytes == Sum(rows[r.startRow..r.endRow])
  }

  /** The reader does not check the size of a CAR receipt, and has its own idea of a CID. */
  predicate ReaderAccepts(rows: seq<Row>, r: Receipt) {
    Recorded(rows, r) && ReaderCid(r.root) && (r.native ==> Sized(rows, r))
  }

  predicate AuditAccepts(rows: seq<Row>, r: Receipt) {
    Recorded(rows, r) && ValidCid(r.root) && Sized(rows, r)
  }

  /** A receipt the audit accepts is given by its kind, its range of at most 1000 rows and its root. */
  lemma AuditAcceptsExact(rows: seq<Row>, r: Receipt)
    ensures AuditAccepts(rows, r) <==>
            && ValidCid(r.root)
            && exists start: nat, end: nat ::
                 && start < end <= |rows| && end - start <= 1000
                 && r == Receipt(r.native, Some(Range(start, end)), true, true, start, end, end - start,
                                 Sum(rows[start..end]), r.root, true)
  {
    hide Sum, ValidCid;
    if AuditAccepts(rows, r) {
      assert r == Receipt(r.native, Some(Range(r.startRow, r.endRow)), true, true, r.startRow, r.endRow, r.endRow - r.startRow,
                          Sum(rows[r.startRow..r.endRow]), r.root, true);
    }
  }

  /** Some receipt's range has the row. */
  ghost predicate Covered(receipts: seq<Receipt>, row: int) {
    exists i :: 0 <= i < |receipts| && receipts[i].name.Some? && In(receipts[i].name.value, row)
  }

  // ----- sorting and merging

  predicate Le(a: Range, b: Range) {
    a.start < b.start || (a.start == b.start && a.end <= b.end)
  }

  predicate Sorted(ranges: seq<Range>) {
    forall i, j :: 0 <= i < j < |ranges| ==> ranges[i].start <= ranges[j].start
  }

  function Insert(r: Range, sorted: seq<Range>): seq<Range> {
    if sorted == [] || Le(r, sorted[0]) then [r] + sorted else [sorted[0]] + Insert(r, sorted[1..])
  }

  /** ranges.sort() */
  function Sort(ranges: seq<Range>): seq<Range> {
    if ranges == [] then [] else Insert(ranges[|ranges| - 1], Sort(ranges[..|ranges| - 1]))
  }

  lemma {:induction false} InsertKeeps(r: Range, sorted: seq<Range>)
    ensures multiset(Insert(r, sorted)) == multiset(sorted) + multiset{r}
    decreases |sorted|
  {
    if sorted != [] && !Le(r, sorted[0]) {
      assert sorted == [sorted[0]] + sorted[1..];
      InsertKeeps(r, sorted[1..]);
    }
  }

  lemma {:induction false} InsertSorts(r: Range, sorted: seq<Range>)
    requires Sorted(sorted)
    ensures Sorted(Insert(r, sorted))
    decreases |sorted|
  {
    if sorted != [] && !Le(r, sorted[0]) {
      InsertSorts(r, sorted[1..]);
      InsertKeeps(r, sorted[1..]);
      var rest := Insert(r, sorted[1..]);
      forall i | 0 <= i < |rest|
        ensures sorted[0].start <= rest[i].start
      {
        assert rest[i] in multiset(rest);
        assert rest[i] == r || rest[i] in sorted[1..];
      }
    }
  }

  lemma {:induction false} SortExact(ranges: seq<Range>)
    ensures Sorted(Sort(ranges)) && multiset(Sort(ranges)) == multiset(ranges)
    decreases |ranges|
  {
    if ranges != [] {
      var n := |ranges| - 1;
      assert ranges == ranges[..n] + [ranges[n]];
      SortExact(ranges[..n]);
      InsertKeeps(ranges[n], Sort(ranges[..n]));
      InsertSorts(ranges[n], Sort(ranges[..n]));
    }
  }

  lemma SameRows(a: seq<Range>, b: seq<Range>, row: int)
    requires multiset(a) == multiset(b) && InSome(a, row)
    ensures InSome(b, row)
  {
    var i :| 0 <= i < |a| && In(a[i], row);
    assert a[i] in multiset(b);
    assert a[i] in b;
    var j :| 0 <= j < |b| && b[j] == a[i];
  }

  /** Ranges that are not empty, in order, with a gap between neighbours. */
  predicate Apart(ranges: seq<Range>) {
    && (forall i :: 0 <= i < |ranges| ==> ranges[i].start < ranges[i].end)
    && (forall i, j :: 0 <= i < j < |ranges| ==> ranges[i].end < ranges[j].start)
  }

  lemma InSomeAppend(ranges: seq<Range>, r: Range, row: int)
    ensures InSome(ranges + [r], row) <==> InSome(ranges, row) || In(r, row)
  {
    var all := ranges + [r];
    if InSome(ranges, row) {
      var i :| 0 <= i < |ranges| && In(ranges[i], row);
      assert all[i] == ranges[i];
    }
    if In(r, row) {
      assert all[|ranges|] == r;
    }
  }

  method Merge(ranges: seq<Range>) returns (covered: seq<Range>)
    requires Sorted(ranges) && forall i :: 0 <= i < |ranges| ==> ranges[i].start < ranges[i].end
    ensures Apart(covered)
    ensures forall row :: InSome(covered, row) <==> InSome(ranges, row)
  {
    covered := [];
    for k := 0 to |ranges|
      invariant Apart(covered)
      invariant covered != [] ==> k > 0 && covered[|covered| - 1].start <= ranges[k - 1].start
      invariant forall row :: InSome(covered, row) <==> InSome(ranges[..k], row)
    {
      hide InSome;
      var r := ranges[k];
      assert ranges[..k + 1] == ranges[..k] + [r];
      var before := covered;
      var n := |covered| - 1;
      if covered != [] && r.start <= covered[n].end {
        covered := covered[..n] + [Range(covered[n].start, Max(covered[n].end, r.end))];
        assert before == before[..n] + [before[n]];
        forall row
          ensures InSome(covered, row) <==> InSome(ranges[..k + 1], row)
        {
          InSomeAppend(before[..n], before[n], row);
          InSomeAppend(before[..n], covered[n], row);
          InSomeAppend(ranges[..k], r, row);
        }
      } else {
        covered := covered + [r];
        forall row
          ensures InSome(covered, row) <==> InSome(ranges[..k + 1], row)
        {
          InSomeAppend(before, r, row);
          InSomeAppend(ranges[..k], r, row);
        }
      }
    }
    assert ranges[..|ranges|] == ranges;
  }

  function StartsOf(ranges: seq<Range>): (s: seq<int>)
    requires Apart(ranges)
    ensures |s| == |ranges| && Ascending(s) && forall i :: 0 <= i < |s| ==> s[i] == ranges[i].start
  {
    seq(|ranges|, i requires 0 <= i < |ranges| => ranges[i].start)
  }

  /** The bisection of covers. */
  predicate Bisected(starts: seq<int>, ranges: seq<Range>, row: int)
    requires |starts| == |ranges| && Ascending(starts)
  {
    var index := BisectRight(starts, row) - 1;
    index >= 0 && row < ranges[index].end
  }

  /** The last range starting at or before the row has it exactly when any range has it. */
  lemma BisectedExact(ranges: seq<Range>, row: int)
    requires Apart(ranges)
    ensures Bisected(StartsOf(ranges), ranges, row) <==> InSome(ranges, row)
  {
    var starts := StartsOf(ranges);
    var index := BisectRight(starts, row) - 1;
    if index >= 0 && row < ranges[index].end {
      assert In(ranges[index], row);
    }
    if InSome(ranges, row) {
      var i :| 0 <= i < |ranges| && In(ranges[i], row);
      assert starts[i] <= row;
      assert i < index ==> ranges[i].end < ranges[index].start;
      assert index >= 0 ==> starts[index] <= row;
    }
  }

  // ----- the reader

  class CarReceipts {
    const rows: seq<Row>
    var stamp: Option<int>
    var starts: seq<int>
    var ranges: seq<Range>
    /** The receipts the ranges were read from. */
    ghost var receipts: seq<Receipt>

    ghost predicate Valid()
      reads this
    {
      && Apart(ranges) && starts == StartsOf(ranges)
      && forall row :: InSome(ranges, row) <==> Covered(receipts, row)
    }

    constructor (rows: seq<Row>)
      ensures this.rows == rows && stamp == None && receipts == [] && Valid()
    {
      this.rows := rows;
      stamp := None;
      starts := [];
      ranges := [];
      receipts := [];
    }

    /**
     Reads all receipts again when a directory changed; `present` says that every directory is there. An absent
     directory or a receipt that differs leaves everything as it was.
     */
    method Refresh(present: bool, now: int, found: seq<Receipt>) returns (r: Result<(), ReceiptError>)
      requires Valid()
      modifies this
      ensures Valid()
      ensures r.Ok? <==>
              present && (old(stamp) == Some(now) || forall i :: 0 <= i < |found| ==> ReaderAccepts(rows, found[i]))
      ensures r == Err(DirectoryAbsent) <==> !present
      ensures receipts == if r.Ok? && old(stamp) != Some(now) then found else old(receipts)
      ensures r.Ok? ==> stamp == Some(now)
      ensures r.Err? ==> stamp == old(stamp)
    {
      hide Sorted, Apart, InSome, Recorded, Sized;
      if !present {
        return Err(DirectoryAbsent);
      }
      if stamp == Some(now) {
        return Ok(());
      }
      var all: seq<Range> := [];
      for k := 0 to |found|
        invariant |all| == k
        invariant forall i :: 0 <= i < k ==> ReaderAccepts(rows, found[i]) && found[i].name == Some(all[i])
        invariant unchanged(this)
      {
        if !(Recorded(rows, found[k]) && ReaderCid(found[k].root) && (found[k].native ==> Sized(rows, found[k]))) {
          return Err(Differs);
        }
        AcceptedRange(rows, found[k]);
        all := all + [found[k].name.value];
      }
      SortedRanges(rows, found, all);
      var covered := Merge(Sort(all));
      forall row
        ensures InSome(covered, row) <==> Covered(found, row)
      {
        AllCovered(found, all, covered, row);
      }
      starts := StartsOf(covered);
      ranges := covered;
      stamp := Some(now);
      receipts := found;
      return Ok(());
    }

    /** Whether a row is covered, by the receipts found now; refused for every row when they are refused. */
    method Covers(row: int, present: bool, now: int, found: seq<Receipt>) returns (held: Result<bool, ReceiptError>)
      requires Valid()
      modifies this
      ensures Valid()
      ensures held.Ok? <==>
              present && (old(stamp) == Some(now) || forall i :: 0 <= i < |found| ==> ReaderAccepts(rows, found[i]))
      ensures receipts == if held.Ok? && old(stamp) != Some(now) then found else old(receipts)
      ensures held.Ok? ==> (held.value <==> Covered(receipts, row))
    {
      var known := Refresh(present, now, found);
      if known.Err? {
        return Err(known.error);
      }
      BisectedExact(ranges, row);
      var index := BisectRight(starts, row) - 1;
      return Ok(index >= 0 && row < ranges[index].end);
    }
  }

  lemma AcceptedRange(rows: seq<Row>, r: Receipt)
    requires ReaderAccepts(rows, r)
    ensures r.name.Some? && 0 <= r.name.value.start < r.name.value.end <= |rows|
  {
  }

  lemma SortedRanges(rows: seq<Row>, found: seq<Receipt>, all: seq<Range>)
    requires |found| == |all|
    requires forall i :: 0 <= i < |all| ==> ReaderAccepts(rows, found[i]) && found[i].name == Some(all[i])
    ensures Sorted(Sort(all)) && forall i :: 0 <= i < |Sort(all)| ==> Sort(all)[i].start < Sort(all)[i].end
  {
    SortExact(all);
    var s := Sort(all);
    forall i | 0 <= i < |s|
      ensures s[i].start < s[i].end
    {
      assert s[i] in multiset(s);
      assert s[i] in all;
      var j :| 0 <= j < |all| && all[j] == s[i];
      AcceptedRange(rows, found[j]);
    }
  }

  lemma AllCovered(found: seq<Receipt>, all: seq<Range>, covered: seq<Range>, row: int)
    requires |found| == |all| && forall i :: 0 <= i < |all| ==> found[i].name == Some(all[i])
    requires InSome(covered, row) <==> InSome(Sort(all), row)
    ensures InSome(covered, row) <==> Covered(found, row)
  {
    SortExact(all);
    if InSome(Sort(all), row) {
      SameRows(Sort(all), all, row);
      var i :| 0 <= i < |all| && In(all[i], row);
      assert found[i].name.Some? && In(found[i].name.value, row);
    }
    if Covered(found, row) {
      var i :| 0 <= i < |found| && found[i].name.Some? && In(found[i].name.value, row);
      assert In(all[i], row);
      SameRows(all, Sort(all), row);
    }
  }

  // ----- the audit

  /** The block a pinned CAR root names, as far as the audit compares it. */
  datatype Root = Root(startRow: int, endRow: int, links: seq<string>)

  datatype LargeReceipt = LargeReceipt(
    name: Option<int>, complete: bool, here: bool, row: int, cid: string, bytes: int, digestMatches: bool,
    root: string, evidence: bool)

  datatype Pins = Pins(recursive: set<string>, direct: set<string>)

  function Links(rows: seq<Row>): seq<string> {
    seq(|rows|, i requires 0 <= i < |rows| => rows[i].cid)
  }

  function Expected(rows: seq<Row>, start: int, end: int): Root
    requires 0 <= start <= end <= |rows|
  {
    Root(start, end, Links(rows[start..end]))
  }

  predicate AuditPasses(rows: seq<Row>, pins: Pins, read: string -> Root, r: Receipt) {
    AuditAccepts(rows, r) && (r.root in pins.recursive ==> read(r.root) == Expected(rows, r.startRow, r.endRow))
  }

  /** Some receipt with a pinned root covers the row. */
  ghost predicate Marked(receipts: seq<Receipt>, pins: Pins, row: int) {
    exists i :: 0 <= i < |receipts| && receipts[i].name.Some? && In(receipts[i].name.value, row) &&
                receipts[i].root in pins.recursive
  }

  method MarkRange(covered: array<bool>, start: nat, end: nat)
    requires start <= end <= covered.Length
    modifies covered
    ensures forall row :: 0 <= row < covered.Length ==> covered[row] == (old(covered[row]) || start <= row < end)
  {
    for row := start to end
      invariant forall i :: 0 <= i < covered.Length ==> covered[i] == (old(covered[i]) || start <= i < row)
    {
      covered[row] := true;
    }
  }

  /** The marks of CAR and native receipts, one row at a time. */
  method MarkReceipts(covered: array<bool>, rows: seq<Row>, receipts: seq<Receipt>, pins: Pins, read: string -> Root)
    returns (r: Result<nat, ReceiptError>)
    requires covered.Length == |rows|
    modifies covered
    ensures r.Ok? <==> forall i :: 0 <= i < |receipts| ==> AuditPasses(rows, pins, read, receipts[i])
    ensures r.Ok? ==> forall row :: 0 <= row < |rows| ==> covered[row] == (old(covered[row]) || Marked(receipts, pins, row))
    ensures r.Ok? ==> r.value == Unpinned(receipts, pins)
  {
    var unpinned := 0;
    for k := 0 to |receipts|
      invariant forall i :: 0 <= i < k ==> AuditPasses(rows, pins, read, receipts[i])
      invariant forall row :: 0 <= row < |rows| ==> covered[row] == (old(covered[row]) || Marked(receipts[..k], pins, row))
      invariant unpinned == Unpinned(receipts[..k], pins)
    {
      hide Recorded, Sized, Marked, Unpinned, Expected, In;
      var receipt := receipts[k];
      assert receipts[..k + 1] == receipts[..k] + [receipt];
      UnpinnedAppend(receipts[..k], receipt, pins);
      if !(Recorded(rows, receipt) && ValidCid(receipt.root) && Sized(rows, receipt)) {
        return Err(Differs);
      }
      AuditedRange(rows, receipt);
      if receipt.root in pins.recursive {
        if read(receipt.root) != Expected(rows, receipt.startRow, receipt.endRow) {
          return Err(RootDiffers);
        }
        MarkRange(covered, receipt.startRow, receipt.endRow);
      } else {
        unpinned := unpinned + 1;
      }
      InRange(receipt);
      forall row | 0 <= row < |rows|
        ensures Marked(receipts[..k + 1], pins, row) <==>
                Marked(receipts[..k], pins, row) || (receipt.root in pins.recursive && In(receipt.name.value, row))
      {
        MarkedAppend(receipts[..k], receipt, pins, row);
      }
    }
    assert receipts[..|receipts|] == receipts;
    return Ok(unpinned);
  }

  lemma AuditedRange(rows: seq<Row>, r: Receipt)
    requires AuditAccepts(rows, r)
    ensures r.name == Some(Range(r.startRow, r.endRow)) && 0 <= r.startRow < r.endRow <= |rows|
  {
  }

  lemma MarkedAppend(receipts: seq<Receipt>, r: Receipt, pins: Pins, row: int)
    requires r.name.Some?
    ensures Marked(receipts + [r], pins, row) <==>
            Marked(receipts, pins, row) || (r.root in pins.recursive && In(r.name.value, row))
  {
    var all := receipts + [r];
    if Marked(receipts, pins, row) {
      var i :| 0 <= i < |receipts| && receipts[i].name.Some? && In(receipts[i].name.value, row) && receipts[i].root in pins.recursive;
      assert all[i] == receipts[i];
    }
    if r.root in pins.recursive && In(r.name.value, row) {
      assert all[|receipts|] == r;
    }
  }

  function Unpinned(receipts: seq<Receipt>, pins: Pins): nat {
    if receipts == [] then 0
    else Unpinned(receipts[..|receipts| - 1], pins) + if receipts[|receipts| - 1].root in pins.recursive then 0 else 1
  }

  lemma UnpinnedAppend(receipts: seq<Receipt>, r: Receipt, pins: Pins)
    ensures Unpinned(receipts + [r], pins) == Unpinned(receipts, pins) + if r.root in pins.recursive then 0 else 1
  {
    assert (receipts + [r])[..|receipts|] == receipts;
  }

  lemma InRange(r: Receipt)
    requires r.name.Some?
    ensures forall row :: In(r.name.value, row) <==> r.name.value.start <= row < r.name.value.end
  {
  }

  predicate LargePasses(rows: seq<Row>, l: LargeReceipt) {
    && l.name.Some? && 0 <= l.name.value < |rows|
    && l.complete && l.here && l.evidence && l.digestMatches && ValidCid(l.root)
    && l.row == l.name.value && l.cid == rows[l.row].cid && l.bytes == rows[l.row].size
  }

  /** A large receipt that passes is given by its row and its root. */
  lemma LargeExact(rows: seq<Row>, l: LargeReceipt)
    ensures LargePasses(rows, l) <==>
            && ValidCid(l.root)
            && exists i: nat ::
                 i < |rows| && l == LargeReceipt(Some(i), true, true, i, rows[i].cid, rows[i].size, true, l.root, true)
  {
    hide ValidCid;
    if LargePasses(rows, l) {
      assert l == LargeReceipt(Some(l.row), true, true, l.row, rows[l.row].cid, rows[l.row].size, true, l.root, true);
    }
  }

  /** A raw block has the size of its row. */
  predicate RawPasses(rows: seq<Row>, raw: map<string, int>) {
    forall i :: 0 <= i < |rows| && rows[i].cid in raw ==> raw[rows[i].cid] == rows[i].size
  }

  /** Everything the audit counts as held. */
  ghost predicate Held(rows: seq<Row>, receipts: seq<Receipt>, pins: Pins, raw: map<string, int>, row: int)
    requires 0 <= row < |rows|
  {
    var cid := rows[row].cid;
    Marked(receipts, pins, row) || cid in pins.direct || cid in pins.recursive || cid in raw
  }

  datatype Report = Report(complete: bool, rows: nat, coveredRows: nat, coveredBytes: int, missingBytes: int, unpinned: nat)

  function Picked(rows: seq<Row>, covered: seq<bool>): seq<Row>
    requires |rows| == |covered|
  {
    if rows == [] then []
    else
      var n := |rows| - 1;
      Picked(rows[..n], covered[..n]) + if covered[n] then [rows[n]] else []
  }

  method Audit(rows: seq<Row>, receipts: seq<Receipt>, large: seq<LargeReceipt>, pins: Pins, raw: map<string, int>,
               read: string -> Root)
    returns (r: Result<Report, ReceiptError>, covered: seq<bool>)
    ensures r.Ok? <==>
            && (forall i :: 0 <= i < |receipts| ==> AuditPasses(rows, pins, read, receipts[i]))
            && (forall i :: 0 <= i < |large| ==> LargePasses(rows, large[i]))
            && RawPasses(rows, raw)
    ensures r.Ok? ==>
            && |covered| == |rows|
            && (forall row :: 0 <= row < |rows| ==> (covered[row] <==> Held(rows, receipts, pins, raw, row)))
            && r.value.coveredRows == |Picked(rows, covered)| && r.value.coveredBytes == Sum(Picked(rows, covered))
            && r.value.rows == |rows| && r.value.missingBytes == Sum(rows) - r.value.coveredBytes
            && (r.value.complete <==> forall row :: 0 <= row < |rows| ==> covered[row])
            && r.value.unpinned == Unpinned(receipts, pins)
  {
    hide AuditPasses, LargePasses, Marked, Unpinned, Sum, ValidCid;
    covered := [];
    var marks := new bool[|rows|](_ => false);
    var unpinned := MarkReceipts(marks, rows, receipts, pins, read);
    if unpinned.Err? {
      return Err(unpinned.error), [];
    }
    var more := MarkLarge(marks, rows, large, pins);
    if !more {
      return Err(InvalidLarge), [];
    }
    label pinned:
    // The pinned and raw CIDs looked up by their position, row by row.
    for row := 0 to |rows|
      invariant forall i :: 0 <= i < |rows| ==>
                  marks[i] == (old@pinned(marks[i]) ||
                               (i < row && (rows[i].cid in pins.direct || rows[i].cid in pins.recursive || rows[i].cid in raw)))
      invariant forall i :: 0 <= i < row && rows[i].cid in raw ==> raw[rows[i].cid] == rows[i].size
    {
      if rows[row].cid in raw && raw[rows[row].cid] != rows[row].size {
        return Err(RawDiffers), [];
      }
      if rows[row].cid in pins.direct || rows[row].cid in pins.recursive || rows[row].cid in raw {
        marks[row] := true;
      }
    }
    covered := marks[..];
    var count, bytes := Totals(rows, covered);
    return Ok(Report(count == |rows|, |rows|, count, bytes, Sum(rows) - bytes, unpinned.value)), covered;
  }

  /** The final count over the marks. */
  method Totals(rows: seq<Row>, covered: seq<bool>) returns (count: nat, bytes: int)
    requires |rows| == |covered|
    ensures count == |Picked(rows, covered)| && bytes == Sum(Picked(rows, covered))
    ensures count == |rows| <==> forall row :: 0 <= row < |rows| ==> covered[row]
  {
    count, bytes := 0, 0;
    for row := 0 to |rows|
      invariant count == |Picked(rows[..row], covered[..row])| && bytes == Sum(Picked(rows[..row], covered[..row]))
      invariant count <= row && (count == row <==> forall i :: 0 <= i < row ==> covered[i])
    {
      PickedAppend(rows, covered, row);
      if covered[row] {
        count := count + 1;
        bytes := bytes + rows[row].size;
      }
    }
    assert rows[..|rows|] == rows && covered[..|rows|] == covered;
  }

  lemma PickedAppend(rows: seq<Row>, covered: seq<bool>, k: nat)
    requires |rows| == |covered| && k < |rows|
    ensures var before := Picked(rows[..k], covered[..k]);
            && Picked(rows[..k + 1], covered[..k + 1]) == (if covered[k] then before + [rows[k]] else before)
            && Sum(before + [rows[k]]) == Sum(before) + rows[k].size
  {
    assert rows[..k + 1][..k] == rows[..k] && covered[..k + 1][..k] == covered[..k];
    var before := Picked(rows[..k], covered[..k]);
    SumAppend(before, rows[k]);
    assert before + [] == before;
  }

  /** The row is that of a large receipt with a pinned root, and its own CID is pinned. */
  ghost predicate LargeMarked(rows: seq<Row>, large: seq<LargeReceipt>, pins: Pins, row: int)
    requires 0 <= row < |rows|
  {
    && (rows[row].cid in pins.direct || rows[row].cid in pins.recursive)
    && exists i :: 0 <= i < |large| && large[i].row == row && large[i].root in pins.recursive
  }

  /** Recovery receipts of large blocks: they mark only rows whose own CID is pinned. */
  method MarkLarge(marks: array<bool>, rows: seq<Row>, large: seq<LargeReceipt>, pins: Pins) returns (ok: bool)
    requires marks.Length == |rows|
    modifies marks
    ensures ok <==> forall i :: 0 <= i < |large| ==> LargePasses(rows, large[i])
    ensures forall row :: 0 <= row < |rows| && old(marks[row]) ==> marks[row]
    ensures ok ==> forall row :: 0 <= row < |rows| ==> (marks[row] <==> old(marks[row]) || LargeMarked(rows, large, pins, row))
  {
    hide LargePasses, LargeMarked;
    NoLarge(rows, pins);
    for k := 0 to |large|
      invariant forall i :: 0 <= i < k ==> LargePasses(rows, large[i])
      invariant forall row :: 0 <= row < |rows| ==> (marks[row] <==> old(marks[row]) || LargeMarked(rows, large[..k], pins, row))
    {
      if !LargePasses(rows, large[k]) {
        return false;
      }
      LargeRow(rows, large[k]);
      LargeAppend(rows, large, pins, k);
      var row := large[k].row;
      if large[k].root in pins.recursive && (rows[row].cid in pins.direct || rows[row].cid in pins.recursive) {
        marks[row] := true;
      }
    }
    assert large[..|large|] == large;
    return true;
  }

  lemma NoLarge(rows: seq<Row>, pins: Pins)
    ensures forall row :: 0 <= row < |rows| ==> !LargeMarked(rows, [], pins, row)
  {
  }

  lemma LargeAppend(rows: seq<Row>, large: seq<LargeReceipt>, pins: Pins, k: nat)
    requires k < |large|
    ensures forall row :: 0 <= row < |rows| ==>
              (LargeMarked(rows, large[..k + 1], pins, row) <==>
               || LargeMarked(rows, large[..k], pins, row)
               || (large[k].row == row && large[k].root in pins.recursive &&
                   (rows[row].cid in pins.direct || rows[row].cid in pins.recursive)))
  {
    var before, all := large[..k], large[..k + 1];
    assert all == before + [large[k]];
    forall row | 0 <= row < |rows| && LargeMarked(rows, before, pins, row)
      ensures LargeMarked(rows, all, pins, row)
    {
      var i :| 0 <= i < |before| && before[i].row == row && before[i].root in pins.recursive;
      assert all[i] == before[i];
    }
    forall row | 0 <= row < |rows| && large[k].row == row && large[k].root in pins.recursive &&
                 (rows[row].cid in pins.direct || rows[row].cid in pins.recursive)
      ensures LargeMarked(rows, all, pins, row)
    {
      assert all[k] == large[k];
    }
  }

  lemma LargeRow(rows: seq<Row>, l: LargeReceipt)
    requires LargePasses(rows, l)
    ensures 0 <= l.row < |rows|
  {
  }

  // ----- reader and audit agree

  /** Every row of a receipt whose root is not pinned is also in one whose root is. */
  ghost predicate Backed(receipts: seq<Receipt>, pins: Pins) {
    forall i, row ::
      (0 <= i < |receipts| && receipts[i].name.Some? && In(receipts[i].name.value, row) &&
       receipts[i].root !in pins.recursive) ==> Marked(receipts, pins, row)
  }

  /**
   Of the receipts the audit accepts the reader accepts exactly those whose root has 46 to 100 characters.
   Once it accepts them all, the rows whose bisection over the merged ranges succeeds are the rows the
   audit marks from the same receipts if and only if every row of a receipt with a lost pin is backed by
   another; with every root pinned that is so.
   */
  lemma ReaderAgreesWithAudit(rows: seq<Row>, receipts: seq<Receipt>, pins: Pins, read: string -> Root, ranges: seq<Range>)
    requires forall i :: 0 <= i < |receipts| ==> AuditPasses(rows, pins, read, receipts[i])
    requires Apart(ranges) && forall row :: InSome(ranges, row) <==> Covered(receipts, row)
    ensures forall i :: 0 <= i < |receipts| ==> (ReaderAccepts(rows, receipts[i]) <==> 46 <= |receipts[i].root| <= 100)
    ensures (forall row :: Marked(receipts, pins, row) <==> Bisected(StartsOf(ranges), ranges, row)) <==> Backed(receipts, pins)
    ensures Unpinned(receipts, pins) == 0 ==> Backed(receipts, pins)
  {
    hide Recorded, Sized, Marked, Bisected, InSome, ValidCid, ReaderCid;
    forall i | 0 <= i < |receipts|
      ensures ReaderAccepts(rows, receipts[i]) <==> 46 <= |receipts[i].root| <= 100
    {
      ReaderCidExact(receipts[i].root);
    }
    forall row
      ensures Bisected(StartsOf(ranges), ranges, row) <==> Covered(receipts, row)
      ensures Marked(receipts, pins, row) ==> Covered(receipts, row)
      ensures Backed(receipts, pins) && Covered(receipts, row) ==> Marked(receipts, pins, row)
    {
      BisectedExact(ranges, row);
      MarkedOrUnbacked(receipts, pins, row);
    }
    forall i | 0 <= i < |receipts| && Unpinned(receipts, pins) == 0
      ensures receipts[i].root in pins.recursive
    {
      AllPinned(receipts, pins, i);
    }
  }

  lemma MarkedOrUnbacked(receipts: seq<Receipt>, pins: Pins, row: int)
    ensures Marked(receipts, pins, row) ==> Covered(receipts, row)
    ensures Covered(receipts, row) && Backed(receipts, pins) ==> Marked(receipts, pins, row)
  {
    if Covered(receipts, row) && Backed(receipts, pins) {
      var i :| 0 <= i < |receipts| && receipts[i].name.Some? && In(receipts[i].name.value, row);
    }
  }

  /** A receipt the audit accepts and the reader refuses, so that the reader answers for no row at all. */
  lemma ShortRoot(row: Row)
    ensures var rows := [row];
            var r := Receipt(false, Some(Range(0, 1)), true, true, 0, 1, 1, row.size, SHORT_CID, true);
            AuditAccepts(rows, r) && !ReaderAccepts(rows, r)
  {
    ShortCid();
    var rows := [row];
    assert rows[0..1] == [] + [row];
    SumAppend([], row);
  }

  lemma {:induction false} AllPinned(receipts: seq<Receipt>, pins: Pins, i: nat)
    requires Unpinned(receipts, pins) == 0 && i < |receipts|
    ensures receipts[i].root in pins.recursive
    decreases |receipts|
  {
    if i < |receipts| - 1 {
      AllPinned(receipts[..|receipts| - 1], pins, i);
    }
  }

  /** A receipt whose root lost its pin: the reader still covers its rows, the audit does not mark them. */
  lemma LostPin(rows: seq<Row>, r: Receipt, row: int)
    requires AuditAccepts(rows, r) && In(r.name.value, row)
    ensures Covered([r], row) && !Marked([r], Pins({}, {}), row) && Unpinned([r], Pins({}, {})) == 1
  {
    assert [r][0] == r;
    assert [r][..0] == [];
  }
}
