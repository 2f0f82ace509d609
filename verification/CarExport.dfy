/** The independent CARv1 writer (deploy/export_lake_car_from_kubo.py). */
module CarExport {
  import opened Bytes
  import opened Varint
  import opened CarReader
  import CarLocality
  import Base32
  import Cbor
  import Cids
  import Inventory
  import Selection

  datatype ExportError = UnsupportedCid | ItemTooLarge | BlockUnavailable | BlockDiffers | ByteBudget

  /** One row to export: its binary CID, the digest in it, and the listed size. */
  datatype Item = Item(cid: Data, digest: Data, size: int)

  const ROOTS: Data := [0xA2, 0x65, 0x72, 0x6F, 0x6F, 0x74, 0x73]
  const VERSION_ONE: Data := [0x67, 0x76, 0x65, 0x72, 0x73, 0x69, 0x6F, 0x6E, 0x01]
  const CID_LINK: Data := [0xD8, 0x2A]

  function Root(cid: Data): Data
    requires |cid| + 1 < TWO_TO_THE_32
  {
    CID_LINK + Cbor.Head(2, |cid| + 1) + [0x00] + cid
  }

  predicate CidsFit(items: seq<Item>) {
    |items| < TWO_TO_THE_32 && forall i :: 0 <= i < |items| ==> |items[i].cid| + 1 < TWO_TO_THE_32
  }

  function Roots(items: seq<Item>): Data
    requires forall i :: 0 <= i < |items| ==> |items[i].cid| + 1 < TWO_TO_THE_32
  {
    if items == [] then [] else Root(items[0].cid) + Roots(items[1..])
  }

  /** The dag-cbor map {"roots": [links], "version": 1}. */
  function HeaderBody(items: seq<Item>): (d: Data)
    requires CidsFit(items)
    ensures |d| >= 17
  {
    ROOTS + Cbor.Head(4, |items|) + Roots(items) + VERSION_ONE
  }

  /** car_header */
  function CarHeader(items: seq<Item>): Data
    requires CidsFit(items)
  {
    Uvarint(|HeaderBody(items)|) + HeaderBody(items)
  }

  function FrameBytes(cid: Data, block: Data): Data {
    Uvarint(|cid| + |block|) + cid + block
  }

  function Frames(items: seq<Item>, blocks: seq<Data>): Data
    requires |items| == |blocks|
  {
    if items == [] then []
    else FrameBytes(items[0].cid, blocks[0]) + Frames(items[1..], blocks[1..])
  }

  function CarFile(items: seq<Item>, blocks: seq<Data>): Data
    requires |items| == |blocks| && CidsFit(items)
  {
    CarHeader(items) + Frames(items, blocks)
  }

  /** The size of the file when every block has its listed size. */
  function FrameSize(item: Item): nat
    requires item.size >= 0
  {
    |Uvarint(|item.cid| + item.size)| + |item.cid| + item.size
  }

  function FramesSize(items: seq<Item>): nat
    requires forall i :: 0 <= i < |items| ==> items[i].size >= 0
  {
    if items == [] then 0 else FrameSize(items[0]) + FramesSize(items[1..])
  }

  // ----- reading the file back

  /** The block is the one its item names. */
  ghost predicate Matches(sha: Data -> Data, item: Item, block: Data) {
    && Cids.ExportableCid(item.cid) && Cids.DigestIn(item.cid) == item.digest
    && sha(block) == item.digest
  }

  ghost predicate AllMatch(sha: Data -> Data, items: seq<Item>, blocks: seq<Data>) {
    |items| == |blocks| && forall i :: 0 <= i < |items| ==> Matches(sha, items[i], blocks[i])
  }

  /** The reader's rows: each block's digest and the offset of its frame. */
  function RowsOf(items: seq<Item>, blocks: seq<Data>, at: nat): seq<Row>
    requires |items| == |blocks|
  {
    if items == [] then []
    else
      [Row(SHA2_256, items[0].digest, at)] +
      RowsOf(items[1..], blocks[1..], at + |FrameBytes(items[0].cid, blocks[0])|)
  }

  /** Every CID has its version in one byte: the reader knows no longer varint of 1. */
  predicate MinimalVersions(items: seq<Item>) {
    forall i :: 0 <= i < |items| ==> items[i].cid != [] && items[i].cid[0] == 1
  }

  lemma VersionByte(cid: Data)
    requires Cids.ReadNumber(cid, 0).Some? && Cids.ReadNumber(cid, 0).value.value == 1
    ensures cid != [] && (cid[0] == 1 || cid[0] >= 128)
    ensures cid[0] == 1 ==> Cids.ReadNumber(cid, 0) == Some(Number(1, 1))
  {
    GroupsStep(cid, 0, 0, 0);
    assert Group(cid[0], 0) == cid[0] % 128;
  }

  lemma WithinLimit(d: Data, at: nat, limit: nat)
    requires Cids.ReadNumber(d, at).Some? && Cids.ReadNumber(d, at).value.value <= limit
    ensures ReadVarint(d, at, limit) == Ok(Cids.ReadNumber(d, at).value)
  {
    hide Groups;
  }

  lemma ExportableHead(cid: Data)
    requires Cids.ExportableCid(cid)
    ensures cid != [] && (cid[0] == 1 || cid[0] >= 128)
    ensures cid[0] == 1 ==>
            ReadCidHead(cid, 0) == Ok(CidHead(SHA2_256, DIGEST_BYTES, |cid| - DIGEST_BYTES, |cid| - DIGEST_BYTES))
    ensures cid[0] != 1 ==> ReadCidHead(cid, 0) == Err(UnsupportedVersion)
    ensures cid[0] == 1 ==> Cids.DigestIn(cid) == cid[|cid| - DIGEST_BYTES..]
  {
    hide Cids.ReadNumber, ReadVarint;
    VersionByte(cid);
    if cid[0] == 1 {
      var codec := Cids.ReadNumber(cid, 1).value;
      var at := 1 + codec.length;
      var code := Cids.ReadNumber(cid, at).value;
      WithinLimit(cid, 1, MAX_CID_NUMBER);
      WithinLimit(cid, at, MAX_CID_NUMBER);
      WithinLimit(cid, at + code.length, MAX_DIGEST_NUMBER);
    }
  }

  lemma CidHeadAt(d: Data, at: nat, cid: Data)
    requires at + |cid| <= |d| && d[at..at + |cid|] == cid && Cids.ExportableCid(cid)
    ensures cid != []
    ensures ReadCidHead(d, at) ==
            if cid[0] == 1
            then Ok(CidHead(SHA2_256, DIGEST_BYTES, at + |cid| - DIGEST_BYTES, |cid| - DIGEST_BYTES))
            else Err(UnsupportedVersion)
  {
    hide Cids.ExportableCid, ReadVarint;
    ExportableHead(cid);
    assert d[at] == d[at..at + |cid|][0] == cid[0];
    if cid[0] == 1 {
      assert cid[0..0 + |cid|] == cid;
      hide ReadCidHead;
      CarLocality.ReadCidHeadLocal(cid, 0, d, at, |cid|, 0);
    }
  }

  /** What the reader sees in a written frame is enough for it. */
  lemma FrameParts(sha: Data -> Data, d: Data, at: nat, total: nat, length: nat, item: Item, block: Data)
    requires var n := |item.cid|;
             var cidAt := at + length;
             && Cids.ExportableCid(item.cid) && n >= DIGEST_BYTES && length > 0
             && ReadVarint(d, at, total) == Ok(Number(n + |block|, length))
             && cidAt + n + |block| <= Min(total, |d|)
             && ReadCidHead(d, cidAt) ==
                (if item.cid[0] == 1
                 then Ok(CidHead(SHA2_256, DIGEST_BYTES, cidAt + n - DIGEST_BYTES, n - DIGEST_BYTES))
                 else Err(UnsupportedVersion))
             && d[cidAt + n - DIGEST_BYTES..cidAt + n] == item.digest
             && d[cidAt + n..cidAt + n + |block|] == block && sha(block) == item.digest
    ensures ReadFrame(sha, d, 0, at, total) ==
            if item.cid[0] == 1
            then Ok(Frame(Row(SHA2_256, item.digest, at), at + length + |item.cid| + |block|))
            else Err(UnsupportedVersion)
  {
    hide ReadVarint, ReadCidHead, Cids.ExportableCid;
  }

  /** One written frame reads back as its row, or is refused for its CID version. */
  lemma FrameRead(sha: Data -> Data, before: Data, item: Item, block: Data, after: Data, total: nat)
    requires Matches(sha, item, block)
    requires |before| + |FrameBytes(item.cid, block)| <= total < TWO_TO_THE_64
    ensures item.cid != []
    ensures var d := before + FrameBytes(item.cid, block) + after;
            ReadFrame(sha, d, 0, |before|, total) ==
            if item.cid[0] == 1
            then Ok(Frame(Row(SHA2_256, item.digest, |before|), |before| + |FrameBytes(item.cid, block)|))
            else Err(UnsupportedVersion)
  {
    hide ReadVarint, ReadCidHead, ReadFrame, Cids.ExportableCid, Cids.DigestIn, Uvarint, FrameBytes;
    var cid := item.cid;
    var size := |cid| + |block|;
    var head := before + Uvarint(size);
    var d := head + cid + block + after;
    FrameLayout(before, cid, block, after);
    ReadVarintOfUvarint(before, size, cid + block + after, total);
    CidHeadAt(d, |head|, cid);
    BinaryCidLength(cid);
    ExportedDigest(cid);
    SliceOfSlice(d, |head|, |cid|, |cid| - DIGEST_BYTES, |cid|);
    FrameParts(sha, d, |before|, total, |Uvarint(size)|, item, block);
  }

  lemma FrameLayout(before: Data, cid: Data, block: Data, after: Data)
    ensures var u := Uvarint(|cid| + |block|);
            var head := before + u;
            var d := head + cid + block + after;
            && before + FrameBytes(cid, block) + after == d && d == before + u + (cid + block + after)
            && |FrameBytes(cid, block)| == |u| + |cid| + |block|
            && d[|head|..|head| + |cid|] == cid
            && d[|head| + |cid|..|head| + |cid| + |block|] == block
  {
    hide Uvarint;
    Parts(before + Uvarint(|cid| + |block|), cid, block, after);
  }

  lemma ExportedDigest(cid: Data)
    requires Cids.ExportableCid(cid)
    ensures |cid| >= DIGEST_BYTES && Cids.DigestIn(cid) == cid[|cid| - DIGEST_BYTES..|cid|]
  {
    hide Cids.ReadPrefix;
  }

  lemma {:induction false} FramesRead(sha: Data -> Data, before: Data, items: seq<Item>, blocks: seq<Data>, left: int)
    requires AllMatch(sha, items, blocks) && left >= |items|
    requires |before| + |Frames(items, blocks)| < TWO_TO_THE_64
    ensures var d := before + Frames(items, blocks);
            var r := ReadFrames(sha, d, 0, |before|, |d|, left);
            if MinimalVersions(items) then r == Ok((RowsOf(items, blocks, |before|), |d|)) else r.Err?
    decreases items
  {
    hide Matches, ReadFrame, FrameBytes;
    var d := before + Frames(items, blocks);
    if items == [] {
      assert d == before;
    } else {
      var frame, rest := FrameBytes(items[0].cid, blocks[0]), Frames(items[1..], blocks[1..]);
      var next := before + frame;
      assert d == next + rest;
      assert frame != [] by { FrameNotEmpty(items[0].cid, blocks[0]); }
      assert |before| < |d|;
      FrameRead(sha, before, items[0], blocks[0], rest, |d|);
      MatchedCid(sha, items[0], blocks[0]);
      if items[0].cid[0] == 1 {
        FramesRead(sha, next, items[1..], blocks[1..], left - 1);
        VersionsTail(items);
      }
    }
  }

  lemma FrameNotEmpty(cid: Data, block: Data)
    ensures FrameBytes(cid, block) != []
  {
  }

  lemma MatchedCid(sha: Data -> Data, item: Item, block: Data)
    requires Matches(sha, item, block)
    ensures item.cid != []
  {
    ExportableHead(item.cid);
  }

  lemma VersionsTail(items: seq<Item>)
    requires items != [] && items[0].cid != [] && items[0].cid[0] == 1
    ensures MinimalVersions(items) <==> MinimalVersions(items[1..])
  {
    if MinimalVersions(items[1..]) {
      forall i | 0 <= i < |items|
        ensures items[i].cid != [] && items[i].cid[0] == 1
      {
        if i > 0 {
          assert items[i] == items[1..][i - 1];
        }
      }
    }
  }

  lemma HeaderRead(items: seq<Item>, after: Data)
    requires CidsFit(items) && |HeaderBody(items)| <= MAX_HEADER_BYTES
    ensures ReadHeader(CarHeader(items) + after, 0) == Ok(|CarHeader(items)|)
  {
    hide HeaderBody, Uvarint, ReadVarint;
    var body := HeaderBody(items);
    assert CarHeader(items) + after == [] + Uvarint(|body|) + (body + after);
    ReadVarintOfUvarint([], |body|, body + after, MAX_HEADER_BYTES);
  }

  /**
   Every non-empty file the exporter writes is read by the CARv2 tool exactly when each CID has its
   version in one byte; the rows are then each block's digest and frame offset, in order.
   */
  lemma ExportedIsRead(sha: Data -> Data, items: seq<Item>, blocks: seq<Data>, maxBlocks: int)
    requires items != [] && AllMatch(sha, items, blocks) && |items| <= maxBlocks
    requires CidsFit(items) && |HeaderBody(items)| <= MAX_HEADER_BYTES
    requires |CarFile(items, blocks)| < TWO_TO_THE_64
    ensures var file := CarFile(items, blocks);
            var r := ReadPayload(sha, file, 0, |file|, maxBlocks, true);
            if MinimalVersions(items) then r == Ok(RowsOf(items, blocks, |CarHeader(items)|)) else r.Err?
  {
    assert |items| == |blocks|;
    hide ReadHeader, ReadFrames, Frames, CarHeader, AllMatch;
    HeaderRead(items, Frames(items, blocks));
    FramesRead(sha, CarHeader(items), items, blocks, maxBlocks);
  }

  // ----- sizes

  const MAX_BINARY_CID: nat := 72

  lemma BinaryCidLength(cid: Data)
    requires Cids.ExportableCid(cid)
    ensures DIGEST_BYTES < |cid| <= MAX_BINARY_CID
  {
    hide Groups;
  }

  lemma {:induction false} RootsSize(items: seq<Item>)
    requires forall i :: 0 <= i < |items| ==> |items[i].cid| <= MAX_BINARY_CID
    ensures |Roots(items)| <= 80 * |items|
  {
    if items != [] {
      hide Cbor.Head;
      assert |Cbor.Head(2, |items[0].cid| + 1)| <= 5;
      RootsSize(items[1..]);
    }
  }

  lemma HeaderSize(items: seq<Item>)
    requires |items| <= 1000 && forall i :: 0 <= i < |items| ==> |items[i].cid| <= MAX_BINARY_CID
    ensures CidsFit(items) && |HeaderBody(items)| <= 21 + 80 * |items| <= MAX_HEADER_BYTES
    ensures |CarHeader(items)| <= 26 + 80 * |items|
  {
    RootsSize(items);
    Pow128();
    UvarintLength(|HeaderBody(items)|, 5);
  }

  lemma {:induction false} FramesBound(items: seq<Item>)
    requires forall i :: 0 <= i < |items| ==>
               |items[i].cid| <= MAX_BINARY_CID && 0 <= items[i].size <= Selection.MAX_CAR_BLOCK
    ensures FramesSize(items) <= SizeSum(items) + 77 * |items|
  {
    if items != [] {
      Pow128();
      UvarintLength(|items[0].cid| + items[0].size, 5);
      FramesBound(items[1..]);
    }
  }

  function SizeSum(items: seq<Item>): int {
    if items == [] then 0 else items[0].size + SizeSum(items[1..])
  }

  lemma {:induction false} FramesAsSized(items: seq<Item>, blocks: seq<Data>)
    requires |items| == |blocks| && forall i :: 0 <= i < |items| ==> |blocks[i]| == items[i].size
    ensures |Frames(items, blocks)| == FramesSize(items)
  {
    if items != [] {
      assert |blocks[0]| == items[0].size;
      forall i | 0 <= i < |items[1..]|
        ensures |blocks[1..][i]| == items[1..][i].size
      {
        assert |blocks[i + 1]| == items[i + 1].size;
      }
      FramesAsSized(items[1..], blocks[1..]);
    }
  }

  lemma {:induction false} FramesSplit(items: seq<Item>, blocks: seq<Data>, i: nat)
    requires |items| == |blocks| && i < |items|
    ensures Frames(items[..i + 1], blocks[..i + 1]) ==
            Frames(items[..i], blocks[..i]) + FrameBytes(items[i].cid, blocks[i])
  {
    hide FrameBytes;
    if i == 0 {
      assert items[..1][1..] == [] && blocks[..1][1..] == [];
      assert Frames([], []) == [];
    } else {
      FramesSplit(items[1..], blocks[1..], i - 1);
      assert items[..i + 1][1..] == items[1..][..i] && blocks[..i + 1][1..] == blocks[1..][..i];
      assert items[..i][1..] == items[1..][..i - 1] && blocks[..i][1..] == blocks[1..][..i - 1];
    }
  }

  // ----- the export

  predicate Exportable(rows: seq<Inventory.Row>) {
    forall i :: 0 <= i < |rows| ==> Cids.CidBytes(rows[i].cid).Some?
  }

  function ItemsOf(rows: seq<Inventory.Row>): (items: seq<Item>)
    requires Exportable(rows)
    ensures |items| == |rows|
    ensures forall i :: 0 <= i < |rows| ==>
              && items[i].size == rows[i].size && Cids.ExportableCid(items[i].cid)
              && items[i].digest == Cids.DigestIn(items[i].cid)
  {
    seq(|rows|, i requires 0 <= i < |rows| =>
      var encoded := Cids.CidBytes(rows[i].cid).value; Item(encoded.0, encoded.1, rows[i].size))
  }

  /** The rows fit the byte budget one behind the other, as the selection promises. */
  ghost predicate Budgeted(rows: seq<Inventory.Row>, maxBytes: int) {
    forall i :: 0 <= i < |rows| ==> Selection.Fits(rows[..i], rows[i].size, maxBytes)
  }

  lemma {:induction false} SumsAgree(rows: seq<Inventory.Row>, items: seq<Item>)
    requires |rows| == |items| && forall i :: 0 <= i < |rows| ==> items[i].size == rows[i].size
    ensures SizeSum(items) == Inventory.Sum(rows)
  {
    if rows != [] {
      var n := |rows| - 1;
      SumsAgree(rows[..n], items[..n]);
      SizeSumSplit(items[..n], items[n]);
      assert items == items[..n] + [items[n]];
    }
  }

  lemma {:induction false} SizeSumSplit(items: seq<Item>, last: Item)
    ensures SizeSum(items + [last]) == SizeSum(items) + last.size
  {
    if items == [] {
      assert [] + [last] == [last];
      assert [last][1..] == [];
    } else {
      assert (items + [last])[1..] == items[1..] + [last];
      SizeSumSplit(items[1..], last);
    }
  }

  lemma ItemLengths(items: seq<Item>)
    requires forall i :: 0 <= i < |items| ==> Cids.ExportableCid(items[i].cid)
    ensures forall i :: 0 <= i < |items| ==> |items[i].cid| <= MAX_BINARY_CID
  {
    forall i | 0 <= i < |items|
      ensures |items[i].cid| <= MAX_BINARY_CID
    {
      BinaryCidLength(items[i].cid);
    }
  }

  lemma BudgetedTotals(rows: seq<Inventory.Row>, maxBytes: int)
    requires rows != [] && Budgeted(rows, maxBytes)
    ensures Inventory.Sum(rows) + Selection.ROW_OVERHEAD * |rows| <= maxBytes
    ensures forall i :: 0 <= i < |rows| ==> 1 <= rows[i].size <= Selection.MAX_CAR_BLOCK
  {
    hide Inventory.Sum;
    var n := |rows| - 1;
    assert Selection.Fits(rows[..n], rows[n].size, maxBytes);
    Inventory.SumAppend(rows[..n], rows[n]);
    assert rows == rows[..n] + [rows[n]];
  }

  /** What the selection reserves for a row covers the header and every frame of the CAR. */
  lemma BudgetCoversFile(rows: seq<Inventory.Row>, maxBytes: int)
    requires Exportable(rows) && rows != [] && |rows| <= 1000 && Budgeted(rows, maxBytes)
    ensures var items := ItemsOf(rows);
            && CidsFit(items) && (forall i :: 0 <= i < |items| ==> items[i].size >= 0)
            && |CarHeader(items)| + FramesSize(items) <= maxBytes
  {
    hide CarHeader, Inventory.Sum, FramesSize, SizeSum, Budgeted, Cids.ExportableCid, Cids.CidBytes;
    var items := ItemsOf(rows);
    BudgetedTotals(rows, maxBytes);
    ItemLengths(items);
    HeaderSize(items);
    forall i | 0 <= i < |items|
      ensures 0 <= items[i].size <= Selection.MAX_CAR_BLOCK
    {
      assert items[i].size == rows[i].size;
    }
    FramesBound(items);
    SumsAgree(rows, items);
  }

  /** What the local Kubo returned for the first `n` rows is what the items name. */
  ghost predicate FetchedUpTo(sha: Data -> Data, items: seq<Item>, fetched: seq<Option<Data>>, n: nat)
    requires n <= |items| == |fetched|
  {
    forall i :: 0 <= i < n ==>
      fetched[i].Some? && |fetched[i].value| == items[i].size && sha(fetched[i].value) == items[i].digest
  }

  ghost predicate Fetched(sha: Data -> Data, items: seq<Item>, fetched: seq<Option<Data>>) {
    |items| == |fetched| && FetchedUpTo(sha, items, fetched, |items|)
  }

  function BlocksOf(fetched: seq<Option<Data>>): (blocks: seq<Data>)
    ensures |blocks| == |fetched|
    ensures forall i :: 0 <= i < |fetched| ==> blocks[i] == if fetched[i].Some? then fetched[i].value else []
  {
    seq(|fetched|, i requires 0 <= i < |fetched| => if fetched[i].Some? then fetched[i].value else [])
  }

  /** The file after `i` whole frames. */
  ghost predicate WrittenUpTo(output: Data, items: seq<Item>, blocks: seq<Data>, i: nat)
    requires |items| == |blocks| && CidsFit(items) && i <= |items|
  {
    output == CarHeader(items) + Frames(items[..i], blocks[..i])
  }

  lemma NextFrame(items: seq<Item>, blocks: seq<Data>, i: nat, output: Data)
    requires |items| == |blocks| && CidsFit(items) && i < |items|
    requires WrittenUpTo(output, items, blocks, i)
    ensures WrittenUpTo(output + Uvarint(|items[i].cid| + |blocks[i]|) + items[i].cid + blocks[i], items, blocks, i + 1)
  {
    hide CarHeader, Frames, Uvarint;
    FramesSplit(items, blocks, i);
  }

  lemma FramesMonotone(items: seq<Item>, blocks: seq<Data>, i: nat)
    requires |items| == |blocks| && i <= |items|
    ensures |Frames(items[..i], blocks[..i])| <= |Frames(items, blocks)|
    decreases |items| - i
  {
    hide FrameBytes;
    if i < |items| {
      FramesSplit(items, blocks, i);
      FramesMonotone(items, blocks, i + 1);
    } else {
      assert items[..i] == items && blocks[..i] == blocks;
    }
  }

  /** The CIDs of all rows are decoded before anything is written. */
  method EncodeRows(rows: seq<Inventory.Row>) returns (r: Result<seq<Item>, ExportError>)
    ensures if Exportable(rows) then r == Ok(ItemsOf(rows)) else r == Err(UnsupportedCid)
  {
    hide Cids.CidBytes, Cids.ExportableCid;
    for i := 0 to |rows|
      invariant Exportable(rows[..i])
    {
      if Cids.CidBytes(rows[i].cid).None? {
        return Err(UnsupportedCid);
      }
    }
    assert rows[..|rows|] == rows;
    return Ok(ItemsOf(rows));
  }

  /** The three writes of a frame, each checked against the budget. */
  method WriteFrame(output: Data, cid: Data, block: Data, maxBytes: int) returns (r: Result<Data, ExportError>)
    ensures var whole := output + Uvarint(|cid| + |block|) + cid + block;
            r == if |whole| <= maxBytes then Ok(whole) else Err(ByteBudget)
  {
    var written := output + Uvarint(|cid| + |block|);
    if |written| > maxBytes {
      return Err(ByteBudget);
    }
    written := written + cid;
    if |written| > maxBytes {
      return Err(ByteBudget);
    }
    written := written + block;
    if |written| > maxBytes {
      return Err(ByteBudget);
    }
    return Ok(written);
  }

  /**
   export: the file is written exactly when every row's CID is known, every block is the one listed and
   the whole stays within the budget. For rows that were selected under that budget the budget refusal
   cannot happen.
   */
  method Export(sha: Data -> Data, rows: seq<Inventory.Row>, fetched: seq<Option<Data>>, maxBytes: int)
    returns (r: Result<Data, ExportError>)
    requires |fetched| == |rows| <= 1000 && rows != []
    ensures r.Ok? <==>
            && Exportable(rows) && CidsFit(ItemsOf(rows)) && Fetched(sha, ItemsOf(rows), fetched)
            && |CarFile(ItemsOf(rows), BlocksOf(fetched))| <= maxBytes
    ensures r.Ok? ==> r.value == CarFile(ItemsOf(rows), BlocksOf(fetched))
    ensures Budgeted(rows, maxBytes) ==> r != Err(ByteBudget)
    ensures Budgeted(rows, maxBytes) && Exportable(rows) && Fetched(sha, ItemsOf(rows), fetched) ==> r.Ok?
  {
    hide Cids.CidBytes, Cids.ExportableCid, CarHeader, Frames, Uvarint, Budgeted, FramesSize, FetchedUpTo;
    hide ItemsOf, BlocksOf, Exportable, CidsFit;
    var items :- EncodeRows(rows);
    ghost var blocks := BlocksOf(fetched);
    ItemLengths(items);
    HeaderSize(items);
    ghost var whole := |CarFile(items, blocks)|;
    if Budgeted(rows, maxBytes) {
      BudgetCoversFile(rows, maxBytes);
    }
    var output := CarHeader(items);
    NothingWritten(items, blocks, output);
    NothingFetched(sha, items, fetched);
    if |output| > maxBytes {
      return Err(ByteBudget);
    }
    for i := 0 to |rows|
      invariant WrittenUpTo(output, items, blocks, i) && |output| <= maxBytes
      invariant FetchedUpTo(sha, items, fetched, i)
    {
      FetchedNext(sha, items, fetched, i);
      if fetched[i].None? {
        return Err(BlockUnavailable);
      }
      var block := fetched[i].value;
      if |block| != rows[i].size || sha(block) != items[i].digest {
        return Err(BlockDiffers);
      }
      NextFrame(items, blocks, i, output);
      FrameWithin(sha, items, fetched, i);
      output :- WriteFrame(output, items[i].cid, block, maxBytes);
    }
    assert items[..|rows|] == items && blocks[..|rows|] == blocks;
    return Ok(output);
  }

  lemma NothingWritten(items: seq<Item>, blocks: seq<Data>, output: Data)
    requires |items| == |blocks| && CidsFit(items) && output == CarHeader(items)
    ensures WrittenUpTo(output, items, blocks, 0)
  {
    hide CarHeader;
    assert Frames(items[..0], blocks[..0]) == [];
  }

  /** A prefix of the frames is no longer than all of them, nor than their listed sizes allow. */
  lemma FrameWithin(sha: Data -> Data, items: seq<Item>, fetched: seq<Option<Data>>, i: nat)
    requires i < |items| == |fetched| && FetchedUpTo(sha, items, fetched, i + 1)
    ensures var blocks := BlocksOf(fetched);
            && |Frames(items[..i + 1], blocks[..i + 1])| <= |Frames(items, blocks)|
            && ((forall k :: 0 <= k < |items| ==> items[k].size >= 0) ==>
                  |Frames(items[..i + 1], blocks[..i + 1])| <= FramesSize(items))
  {
    var blocks := BlocksOf(fetched);
    FramesMonotone(items, blocks, i + 1);
    if forall k :: 0 <= k < |items| ==> items[k].size >= 0 {
      FramesAsSized(items[..i + 1], blocks[..i + 1]);
      FramesSizePrefix(items, i + 1);
    }
  }

  lemma NothingFetched(sha: Data -> Data, items: seq<Item>, fetched: seq<Option<Data>>)
    requires |items| == |fetched|
    ensures FetchedUpTo(sha, items, fetched, 0)
  {
  }

  lemma FetchedNext(sha: Data -> Data, items: seq<Item>, fetched: seq<Option<Data>>, i: nat)
    requires i < |items| == |fetched| && FetchedUpTo(sha, items, fetched, i)
    ensures FetchedUpTo(sha, items, fetched, i + 1) <==>
            fetched[i].Some? && |fetched[i].value| == items[i].size && sha(fetched[i].value) == items[i].digest
    ensures !FetchedUpTo(sha, items, fetched, i + 1) ==> !Fetched(sha, items, fetched)
  {
  }

  lemma {:induction false} FramesSizePrefix(items: seq<Item>, i: nat)
    requires i <= |items| && forall k :: 0 <= k < |items| ==> items[k].size >= 0
    ensures FramesSize(items[..i]) <= FramesSize(items)
  {
    if i > 0 {
      FramesSizePrefix(items[1..], i - 1);
      assert items[..i][1..] == items[1..][..i - 1];
    }
  }

  const MAX_EXPORT_BYTES: nat := 536_870_912

  /** A written export is read back by the CARv2 tool exactly when every version is one byte. */
  lemma ExportIsRead(sha: Data -> Data, rows: seq<Inventory.Row>, fetched: seq<Option<Data>>, maxBlocks: int)
    requires rows != [] && |rows| <= Min(1000, maxBlocks)
    requires Exportable(rows) && Fetched(sha, ItemsOf(rows), fetched)
    requires CidsFit(ItemsOf(rows)) && |CarFile(ItemsOf(rows), BlocksOf(fetched))| <= MAX_EXPORT_BYTES
    ensures var items, blocks := ItemsOf(rows), BlocksOf(fetched);
            var file := CarFile(items, blocks);
            var r := ReadPayload(sha, file, 0, |file|, maxBlocks, true);
            if MinimalVersions(items) then r == Ok(RowsOf(items, blocks, |CarHeader(items)|)) else r.Err?
  {
    hide CarHeader, Frames, ReadPayload, Cids.CidBytes, Cids.ExportableCid, Cids.DigestIn, RowsOf;
    var items := ItemsOf(rows);
    ItemLengths(items);
    HeaderSize(items);
    ExportedIsRead(sha, items, BlocksOf(fetched), maxBlocks);
  }

  /** The CID of a raw block whose version 1 takes two bytes. */
  function LongVersion(digest: Data): Data {
    [0x81, 0x00, 0x55, 0x12, 0x20] + digest
  }

  /** The inventory row of `block` under that CID. */
  function LongRow(sha: Data -> Data, block: Data): Inventory.Row {
    Inventory.Row("b" + Cids.Chars32(Base32.Encode32(LongVersion(sha(block)))), |block|)
  }

  /**
   Every block can be listed under a valid CID with which it is exported within any budget that has room
   for it, and the CARv2 tool refuses the written file.
   */
  lemma LongVersionIsExported(sha: Data -> Data, block: Data, maxBytes: int, maxBlocks: int)
    requires |sha(block)| == DIGEST_BYTES && 1 <= |block| <= Selection.MAX_CAR_BLOCK && maxBlocks >= 1
    requires |block| + Selection.ROW_OVERHEAD <= maxBytes <= MAX_EXPORT_BYTES
    ensures var rows, fetched := [LongRow(sha, block)], [Some(block)];
            && Inventory.ValidCid(rows[0].cid)
            && Budgeted(rows, maxBytes) && Exportable(rows) && Fetched(sha, ItemsOf(rows), fetched)
            && CidsFit(ItemsOf(rows))
            && var file := CarFile(ItemsOf(rows), BlocksOf(fetched));
               |file| <= maxBytes && ReadPayload(sha, file, 0, |file|, maxBlocks, true).Err?
  {
    hide Base32.Encode32, CarHeader, ReadPayload, Cids.CidBytes, Cids.ExportableCid, FramesSize, Cids.DigestIn;
    var rows, fetched := [LongRow(sha, block)], [Some(block)];
    LongVersionDecodes(sha(block));
    var items, blocks := ItemsOf(rows), BlocksOf(fetched);
    assert items[0] == Item(LongVersion(sha(block)), sha(block), |block|);
    OneBudgeted(rows, maxBytes);
    BudgetCoversFile(rows, maxBytes);
    ItemLengths(items);
    HeaderSize(items);
    FramesAsSized(items, blocks);
    ExportIsRead(sha, rows, fetched, maxBlocks);
  }

  lemma OneBudgeted(rows: seq<Inventory.Row>, maxBytes: int)
    requires |rows| == 1 && Selection.Fits([], rows[0].size, maxBytes)
    ensures Budgeted(rows, maxBytes)
  {
    assert rows[..0] == [];
  }

  lemma LongVersionDecodes(digest: Data)
    requires |digest| == DIGEST_BYTES
    ensures var text := "b" + Cids.Chars32(Base32.Encode32(LongVersion(digest)));
            Inventory.ValidCid(text) && Cids.CidBytes(text) == Some((LongVersion(digest), digest))
  {
    hide Base32.Encode32, Base32.Decode32;
    var cid := LongVersion(digest);
    var s := Base32.Encode32(cid);
    Base32.Encode32Number(cid);
    Cids.CharsRoundTrip(s, "");
    Base32.Base32RoundTrip(cid);
    var text := "b" + Cids.Chars32(s);
    assert text[1..] == Cids.Chars32(s);
    assert !Cids.IsCidV0(text);
    assert Cids.BinaryCid(text) == Some(cid);
    LongVersionFields(cid);
    assert cid[5..] == digest;
  }

  lemma LongVersionFields(cid: Data)
    requires |cid| > 5 && cid[..5] == [0x81, 0x00, 0x55, 0x12, 0x20]
    ensures Cids.VersionCodec(cid) == Some((1, 0x55, 3)) && Cids.ReadMultihash(cid, 3) == Some((0x12, 32, 5))
  {
    Pow128();
    GroupsStep(cid, 0, 0, 0);
    GroupsStep(cid, 1, 1, 1);
    forall i | 0 <= i < 5
      ensures cid[i] == [0x81, 0x00, 0x55, 0x12, 0x20][i]
    {
      assert cid[i] == cid[..5][i];
    }
    assert Group(0x81, 0) == 1 && Group(0, 1) == 0;
  }
}
