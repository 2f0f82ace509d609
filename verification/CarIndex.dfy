/** The CARv2 MultihashIndexSorted of a data section (encode_index in deploy/carv2_zstd.py). */
module CarIndex {
  import opened Bytes
  import opened Varint
  import opened CarReader

  const MULTIHASH_INDEX_SORTED: nat := 0x0401

  datatype Record = Record(digest: Data, offset: nat)

  type Widths = map<nat, seq<Record>>
  type Codes = map<nat, Widths>

  /** struct.pack of one unsigned field. */
  function Pack(width: nat, n: nat): (r: Result<Data, ArchiveError>)
    ensures r.Ok? <==> n < Pow(256, width)
    ensures r.Ok? ==> |r.value| == width && FromLE(r.value) == n
    ensures r.Err? ==> r.error == PackError
  {
    if n < Pow(256, width) then FromLEOfLE(width, n); Ok(LE(width, n)) else Err(PackError)
  }

  // ----- sorting

  predicate Before(a: Record, b: Record) {
    LexLe(a.digest, b.digest) && (a.digest == b.digest ==> a.offset <= b.offset)
  }

  ghost predicate Sorted(s: seq<Record>) {
    forall i, j :: 0 <= i < j < |s| ==> Before(s[i], s[j])
  }

  function Insert(a: Record, s: seq<Record>): (r: seq<Record>)
    ensures multiset(r) == multiset(s) + multiset{a}
  {
    if s == [] then [a]
    else if Before(a, s[0]) then [a] + s
    else
      assert s == [s[0]] + s[1..];
      [s[0]] + Insert(a, s[1..])
  }

  function Sort(s: seq<Record>): (r: seq<Record>)
    ensures multiset(r) == multiset(s) && |r| == |s|
  {
    if s == [] then []
    else
      assert s == [s[0]] + s[1..];
      var r := Insert(s[0], Sort(s[1..]));
      SameSize(s, r);
      r
  }

  lemma SameSize(s: seq<Record>, r: seq<Record>)
    requires multiset(r) == multiset(s)
    ensures |r| == |s|
  {
    assert |multiset(r)| == |r| && |multiset(s)| == |s|;
  }

  lemma BeforeTotal(a: Record, b: Record)
    ensures Before(a, b) || Before(b, a)
  {
    LexTotal(a.digest, b.digest);
  }

  lemma BeforeTransitive(a: Record, b: Record, c: Record)
    requires Before(a, b) && Before(b, c)
    ensures Before(a, c)
  {
    LexTransitive(a.digest, b.digest, c.digest);
    LexTotal(a.digest, b.digest);
  }

  lemma {:induction false} InsertKeepsSorted(a: Record, s: seq<Record>)
    requires Sorted(s)
    ensures Sorted(Insert(a, s))
  {
    if s != [] {
      if Before(a, s[0]) {
        forall j | 0 < j < |s|
          ensures Before(a, s[j])
        {
          BeforeTransitive(a, s[0], s[j]);
        }
      } else {
        BeforeTotal(a, s[0]);
        InsertKeepsSorted(a, s[1..]);
        var rest := Insert(a, s[1..]);
        forall j | 0 <= j < |rest|
          ensures Before(s[0], rest[j])
        {
          assert rest[j] in multiset(rest);
          assert rest[j] == a || rest[j] in s[1..];
        }
      }
    }
  }

  lemma {:induction false} SortSorts(s: seq<Record>)
    ensures Sorted(Sort(s))
  {
    if s != [] {
      SortSorts(s[1..]);
      InsertKeepsSorted(s[0], Sort(s[1..]));
    }
  }

  function Smallest(s: set<nat>): (m: nat)
    requires s != {}
    ensures m in s && forall k :: k in s ==> m <= k
  {
    SmallestExists(s);
    var m :| m in s && forall k :: k in s ==> m <= k;
    m
  }

  lemma {:induction false} FindSmallest(s: set<nat>) returns (m: nat)
    requires s != {}
    ensures m in s && forall k :: k in s ==> m <= k
  {
    var x :| x in s;
    m := x;
    var others := s - {x};
    if others != {} {
      var least := FindSmallest(others);
      m := Min(least, x);
    }
    forall k | k in s
      ensures m <= k
    {
      assert k == x || k in others;
    }
  }

  lemma SmallestExists(s: set<nat>)
    requires s != {}
    ensures exists m :: m in s && forall k :: k in s ==> m <= k
  {
    var m := FindSmallest(s);
  }

  /** sorted(keys) */
  function SortedKeys(s: set<nat>): (keys: seq<nat>)
    ensures forall k :: k in keys ==> k in s
  {
    if s == {} then [] else var m := Smallest(s); [m] + SortedKeys(s - {m})
  }

  // ----- encoding

  function AddRow(codes: Codes, row: Row): Codes {
    var widths := if row.code in codes then codes[row.code] else map[];
    var width := |row.digest| + 8;
    var records := if width in widths then widths[width] else [];
    codes[row.code := widths[width := records + [Record(row.digest, row.offset)]]]
  }

  function Grouped(rows: seq<Row>): Codes {
    if rows == [] then map[] else AddRow(Grouped(rows[..|rows| - 1]), rows[|rows| - 1])
  }

  function AppendRecords(out: Data, records: seq<Record>): Result<Data, ArchiveError>
    decreases records
  {
    if records == [] then Ok(out)
    else
      var offset :- Pack(8, records[0].offset);
      AppendRecords(out + records[0].digest + offset, records[1..])
  }

  /** struct.pack("<IQ", width, width * count) */
  function WidthHead(width: nat, count: nat): Result<Data, ArchiveError> {
    var w :- Pack(4, width);
    var size :- Pack(8, width * count);
    Ok(w + size)
  }

  function AppendWidths(out: Data, widths: Widths, keys: seq<nat>): Result<Data, ArchiveError>
    requires forall k :: k in keys ==> k in widths
    decreases keys
  {
    if keys == [] then Ok(out)
    else
      var records := Sort(widths[keys[0]]);
      var head :- WidthHead(keys[0], |records|);
      var next :- AppendRecords(out + head, records);
      AppendWidths(next, widths, keys[1..])
  }

  function AppendCodes(out: Data, codes: Codes, keys: seq<nat>): Result<Data, ArchiveError>
    requires forall k :: k in keys ==> k in codes
    decreases keys
  {
    if keys == [] then Ok(out)
    else
      var widths := codes[keys[0]];
      var code :- Pack(8, keys[0]);
      var count :- Pack(4, |widths|);
      var next :- AppendWidths(out + code + count, widths, SortedKeys(widths.Keys));
      AppendCodes(next, codes, keys[1..])
  }

  function IndexBytes(rows: seq<Row>): Result<Data, ArchiveError> {
    var codes := Grouped(rows);
    var count :- Pack(4, |codes|);
    AppendCodes(Uvarint(MULTIHASH_INDEX_SORTED) + count, codes, SortedKeys(codes.Keys))
  }

  method EncodeRecords(out: Data, records: seq<Record>) returns (r: Result<Data, ArchiveError>)
    ensures r == AppendRecords(out, records)
  {
    var bytes := out;
    for i := 0 to |records|
      invariant AppendRecords(out, records) == AppendRecords(bytes, records[i..])
    {
      var offset :- Pack(8, records[i].offset);
      assert records[i..][1..] == records[i + 1..];
      bytes := bytes + records[i].digest + offset;
    }
    return Ok(bytes);
  }

  method EncodeWidths(out: Data, widths: Widths) returns (r: Result<Data, ArchiveError>)
    ensures r == AppendWidths(out, widths, SortedKeys(widths.Keys))
  {
    var bytes, keys := out, SortedKeys(widths.Keys);
    for i := 0 to |keys|
      invariant AppendWidths(out, widths, keys) == AppendWidths(bytes, widths, keys[i..])
    {
      var records := Sort(widths[keys[i]]);
      assert keys[i..][0] == keys[i] && keys[i..][1..] == keys[i + 1..];
      var head :- WidthHead(keys[i], |records|);
      bytes :- EncodeRecords(bytes + head, records);
    }
    return Ok(bytes);
  }

  /** encode_index: rows grouped by hash code and record width, each group sorted. */
  method EncodeIndex(rows: seq<Row>) returns (r: Result<Data, ArchiveError>)
    ensures r == IndexBytes(rows)
  {
    var byCode: Codes := map[];
    for i := 0 to |rows|
      invariant byCode == Grouped(rows[..i])
    {
      assert rows[..i + 1][..i] == rows[..i];
      byCode := AddRow(byCode, rows[i]);
    }
    assert rows[..|rows|] == rows;
    var count :- Pack(4, |byCode|);
    var bytes, keys := Uvarint(MULTIHASH_INDEX_SORTED) + count, SortedKeys(byCode.Keys);
    ghost var first := bytes;
    for i := 0 to |keys|
      invariant AppendCodes(first, byCode, keys) == AppendCodes(bytes, byCode, keys[i..])
    {
      assert keys[i..][0] == keys[i] && keys[i..][1..] == keys[i + 1..];
      var code :- Pack(8, keys[i]);
      var size :- Pack(4, |byCode[keys[i]]|);
      bytes :- EncodeWidths(bytes + code + size, byCode[keys[i]]);
    }
    return Ok(bytes);
  }

  // ----- what the index of the reader's rows says

  const RECORD_BYTES: nat := DIGEST_BYTES + 8
  const INDEX_HEAD_BYTES: nat := 30

  /** Rows as copy_carv1_payload returns them: sha2-256 with 32-byte digests. */
  ghost predicate ReaderRows(rows: seq<Row>) {
    forall i :: 0 <= i < |rows| ==> rows[i].code == SHA2_256 && |rows[i].digest| == DIGEST_BYTES
  }

  function RecordOf(row: Row): Record {
    Record(row.digest, row.offset)
  }

  function Records(rows: seq<Row>): (records: seq<Record>)
    ensures |records| == |rows|
  {
    seq(|rows|, i requires 0 <= i < |rows| => RecordOf(rows[i]))
  }

  lemma {:induction false} GroupedReaderRows(rows: seq<Row>)
    requires ReaderRows(rows)
    ensures Grouped(rows) ==
            if rows == [] then map[] else map[SHA2_256 := map[RECORD_BYTES := Records(rows)]]
  {
    if rows != [] {
      var front, last := rows[..|rows| - 1], rows[|rows| - 1];
      GroupedReaderRows(front);
      assert Records(rows) == Records(front) + [RecordOf(last)];
      assert |last.digest| + 8 == RECORD_BYTES;
      var before: Widths := if front == [] then map[] else map[RECORD_BYTES := Records(front)];
      assert front == [] ==> Records(front) == [];
      assert before[RECORD_BYTES := Records(rows)] == map[RECORD_BYTES := Records(rows)];
      assert Grouped(rows) == Grouped(front)[SHA2_256 := before[RECORD_BYTES := Records(rows)]];
    }
  }

  /** The records of an index, as a reader of the format takes them apart. */
  function SplitRecords(d: Data): seq<Record> {
    if |d| < RECORD_BYTES then []
    else [Record(d[..DIGEST_BYTES], FromLE(d[DIGEST_BYTES..RECORD_BYTES]))] + SplitRecords(d[RECORD_BYTES..])
  }

  lemma {:induction false} AppendRecordsSplits(out: Data, records: seq<Record>)
    requires forall i :: 0 <= i < |records| ==> |records[i].digest| == DIGEST_BYTES
    requires AppendRecords(out, records).Ok?
    decreases records
    ensures var d := AppendRecords(out, records).value;
            |d| == |out| + RECORD_BYTES * |records| && d[..|out|] == out && SplitRecords(d[|out|..]) == records
  {
    if records == [] {
      SplitNone(out);
    } else {
      hide SplitRecords, Pow;
      var digest, offset := records[0].digest, Pack(8, records[0].offset).value;
      AppendRecordsSplits(out + digest + offset, records[1..]);
      Regroup(out, digest, offset, AppendRecords(out, records).value);
      SplitFirst(digest, offset, AppendRecords(out, records).value[|out| + |digest| + |offset|..]);
      assert records == [records[0]] + records[1..];
    }
  }

  lemma SplitNone(out: Data)
    ensures out[..|out|] == out && SplitRecords(out[|out|..]) == []
  {
  }

  /** What starts with three parts starts with the first, and goes on with the other two. */
  lemma Regroup(a: Data, b: Data, c: Data, d: Data)
    requires var n := |a| + |b| + |c|; n <= |d| && d[..n] == a + b + c
    ensures d[..|a|] == a && d[|a|..] == b + c + d[|a| + |b| + |c|..]
  {
    var n := |a| + |b| + |c|;
    assert d == a + (b + c + d[n..]) by {
      assert d == d[..n] + d[n..];
    }
  }

  lemma SplitFirst(digest: Data, offset: Data, rest: Data)
    requires |digest| == DIGEST_BYTES && |offset| == 8
    ensures SplitRecords(digest + offset + rest) == [Record(digest, FromLE(offset))] + SplitRecords(rest)
  {
    var d := digest + offset + rest;
    assert d[..DIGEST_BYTES] == digest && d[DIGEST_BYTES..RECORD_BYTES] == offset && d[RECORD_BYTES..] == rest;
  }

  function Head(n: nat): (d: Data)
    ensures |d| == INDEX_HEAD_BYTES
  {
    assert Uvarint(MULTIHASH_INDEX_SORTED) == [129] + Uvarint(8);
    Uvarint(MULTIHASH_INDEX_SORTED) + LE(4, 1) + LE(8, SHA2_256) + LE(4, 1) +
    (LE(4, RECORD_BYTES) + LE(8, RECORD_BYTES * n))
  }

  lemma SortedSingleton(k: nat)
    ensures SortedKeys({k}) == [k]
  {
    assert Smallest({k}) == k;
    assert {k} - {k} == {};
  }

  /** For the reader's rows the index is one code, one width and the sorted records. */
  lemma IndexShape(rows: seq<Row>)
    requires ReaderRows(rows) && rows != []
    ensures IndexBytes(rows) ==
            if RECORD_BYTES * |rows| < TWO_TO_THE_64 then AppendRecords(Head(|rows|), Sort(Records(rows)))
            else Err(PackError)
  {
    hide LE, AppendRecords, Sort, Grouped, Pow, SortedKeys, Uvarint;
    Pow256();
    GroupedReaderRows(rows);
    var records := Records(rows);
    var widths: Widths := map[RECORD_BYTES := records];
    var codes: Codes := map[SHA2_256 := widths];
    SortedSingleton(SHA2_256);
    SortedSingleton(RECORD_BYTES);
    assert codes.Keys == {SHA2_256} && widths.Keys == {RECORD_BYTES};
    assert |codes| == 1 && |widths| == 1 by { OneKey(SHA2_256, widths); OneKey(RECORD_BYTES, records); }
    var a := Uvarint(MULTIHASH_INDEX_SORTED) + LE(4, 1);
    WidthsShape(a + LE(8, SHA2_256) + LE(4, 1), records);
    CodesShape(a, widths);
  }

  lemma OneKey<T>(k: nat, v: T)
    ensures |map[k := v]| == 1
  {
    assert map[k := v].Keys == {k};
  }

  lemma WidthsShape(out: Data, records: seq<Record>)
    ensures AppendWidths(out, map[RECORD_BYTES := records], [RECORD_BYTES]) ==
            if RECORD_BYTES * |records| < TWO_TO_THE_64
            then AppendRecords(out + (LE(4, RECORD_BYTES) + LE(8, RECORD_BYTES * |records|)), Sort(records))
            else Err(PackError)
  {
    hide LE, AppendRecords, Sort, Pow;
    Pow256();
    var widths: Widths := map[RECORD_BYTES := records];
    var sorted := Sort(widths[RECORD_BYTES]);
    assert [RECORD_BYTES][1..] == [];
    assert forall next :: AppendWidths(next, widths, []) == Ok(next);
  }

  lemma CodesShape(out: Data, widths: Widths)
    requires |widths| == 1
    ensures AppendCodes(out, map[SHA2_256 := widths], [SHA2_256]) ==
            AppendWidths(out + LE(8, SHA2_256) + LE(4, 1), widths, SortedKeys(widths.Keys))
  {
    hide LE, AppendWidths, Pow, SortedKeys;
    Pow256();
    var codes: Codes := map[SHA2_256 := widths];
    assert [SHA2_256][1..] == [];
    assert forall next :: AppendCodes(next, codes, []) == Ok(next);
  }

  /** `d` has 30 + 40n bytes and lists exactly the n rows, sorted by digest and then by offset. */
  ghost predicate ListsRows(d: Data, rows: seq<Row>) {
    && |d| == INDEX_HEAD_BYTES + RECORD_BYTES * |rows|
    && var records := SplitRecords(d[INDEX_HEAD_BYTES..]);
       multiset(records) == multiset(Records(rows)) && Sorted(records)
  }

  /** The index of the reader's rows lists them all, whatever order they came in. */
  lemma IndexListsRows(rows: seq<Row>)
    requires ReaderRows(rows) && rows != [] && IndexBytes(rows).Ok?
    ensures ListsRows(IndexBytes(rows).value, rows)
  {
    hide Head, AppendRecords, IndexBytes, Sort, SplitRecords;
    IndexShape(rows);
    var sorted := Sort(Records(rows));
    SortSorts(Records(rows));
    DigestsKept(rows, sorted);
    AppendRecordsSplits(Head(|rows|), sorted);
  }

  /**
   The index, byte by byte: codec 0x0401 as a varint, one hash code 0x12, one width 40, the size of the record
   area, and the records, each a digest and a little-endian offset, by digest and then by offset.
   */
  lemma IndexLayout(rows: seq<Row>)
    requires ReaderRows(rows) && rows != [] && IndexBytes(rows).Ok?
    ensures var d, n := IndexBytes(rows).value, |rows|;
            && |d| == 30 + 40 * n
            && d[..22] == [0x81, 0x08, 1, 0, 0, 0, 0x12, 0, 0, 0, 0, 0, 0, 0, 1, 0, 0, 0, 40, 0, 0, 0]
            && FromLE(d[22..30]) == 40 * n
            && var records := SplitRecords(d[30..]);
               && multiset(records) == multiset(Records(rows)) && |records| == n
               && (forall i :: 0 <= i < n ==>
                     && records[i].digest == d[30 + 40 * i..62 + 40 * i]
                     && records[i].offset == FromLE(d[62 + 40 * i..70 + 40 * i]))
               && forall i, j :: 0 <= i < j < n ==>
                    && InOrder(records[i].digest, records[j].digest)
                    && (records[i].digest == records[j].digest ==> records[i].offset <= records[j].offset)
  {
    hide Head, AppendRecords, IndexBytes, Sort, SplitRecords, LexLe, InOrder, FromLE, Pow, Records;
    IndexListsRows(rows);
    var d, n := IndexBytes(rows).value, |rows|;
    var records := SplitRecords(d[30..]);
    IndexShape(rows);
    var sorted := Sort(Records(rows));
    DigestsKept(rows, sorted);
    AppendRecordsSplits(Head(n), sorted);
    HeadBytes(n);
    assert d[..30] == Head(n);
    assert d[..22] == d[..30][..22] && d[22..30] == d[..30][22..30];
    assert |records| == n by { SameSize(Records(rows), records); }
    forall i | 0 <= i < n
      ensures records[i].digest == d[30 + 40 * i..62 + 40 * i]
      ensures records[i].offset == FromLE(d[62 + 40 * i..70 + 40 * i])
    {
      SplitAt(d[30..], i);
      SliceOfTail(d, 30, 40 * i, 40 * i + 32);
      SliceOfTail(d, 30, 40 * i + 32, 40 * i + 40);
    }
    forall i, j | 0 <= i < j < n
      ensures InOrder(records[i].digest, records[j].digest)
      ensures records[i].digest == records[j].digest ==> records[i].offset <= records[j].offset
    {
      assert Before(records[i], records[j]);
      LexExact(records[i].digest, records[j].digest);
    }
  }

  lemma SliceOfTail(d: Data, n: nat, i: nat, j: nat)
    requires i <= j && n + j <= |d|
    ensures d[n..][i..j] == d[n + i..n + j]
  {
  }

  lemma {:induction false} SplitAt(d: Data, i: nat)
    requires 40 * i + 40 <= |d|
    ensures i < |SplitRecords(d)|
    ensures SplitRecords(d)[i] == Record(d[40 * i..40 * i + 32], FromLE(d[40 * i + 32..40 * i + 40]))
    decreases i
  {
    hide FromLE;
    if i > 0 {
      SplitAt(d[40..], i - 1);
      SliceOfTail(d, 40, 40 * i - 40, 40 * i - 8);
      SliceOfTail(d, 40, 40 * i - 8, 40 * i);
    }
  }

  lemma HeadBytes(n: nat)
    requires 40 * n < TWO_TO_THE_64
    ensures Head(n)[..22] == [0x81, 0x08, 1, 0, 0, 0, 0x12, 0, 0, 0, 0, 0, 0, 0, 1, 0, 0, 0, 40, 0, 0, 0]
    ensures FromLE(Head(n)[22..30]) == 40 * n
  {
    hide LE, FromLE, Pow;
    Pow256();
    FromLEOfLE(8, 40 * n);
    var front := Uvarint(MULTIHASH_INDEX_SORTED) + LE(4, 1) + LE(8, SHA2_256) + LE(4, 1) + LE(4, RECORD_BYTES);
    FrontBytes();
    assert Head(n) == front + LE(8, RECORD_BYTES * n);
    assert |front| == 22;
    assert Head(n)[22..30] == LE(8, RECORD_BYTES * n);
    assert RECORD_BYTES * n == 40 * n;
  }

  lemma FrontBytes()
    ensures Uvarint(MULTIHASH_INDEX_SORTED) + LE(4, 1) + LE(8, SHA2_256) + LE(4, 1) + LE(4, RECORD_BYTES) ==
            [0x81, 0x08, 1, 0, 0, 0, 0x12, 0, 0, 0, 0, 0, 0, 0, 1, 0, 0, 0, 40, 0, 0, 0]
  {
    hide LE;
    SmallLE(1, 4);
    SmallLE(0x12, 8);
    SmallLE(40, 4);
    assert Uvarint(0x0401) == [0x81, 0x08];
    assert Zeros(3) == [0, 0, 0];
    assert Zeros(7) == [0, 0, 0, 0, 0, 0, 0];
  }

  lemma SmallLE(n: nat, width: nat)
    requires n < 256 && width > 0
    ensures LE(width, n) == [n] + Zeros(width - 1)
  {
    assert n / 256 == 0;
    ZeroLE(width - 1);
  }

  lemma {:induction false} ZeroLE(width: nat)
    ensures LE(width, 0) == Zeros(width)
  {
    if width > 0 {
      ZeroLE(width - 1);
    }
  }

  lemma DigestsKept(rows: seq<Row>, sorted: seq<Record>)
    requires ReaderRows(rows) && multiset(sorted) == multiset(Records(rows))
    ensures forall i :: 0 <= i < |sorted| ==> |sorted[i].digest| == DIGEST_BYTES
  {
    forall i | 0 <= i < |sorted|
      ensures |sorted[i].digest| == DIGEST_BYTES
    {
      assert sorted[i] in multiset(sorted);
      assert sorted[i] in Records(rows);
    }
  }
}
