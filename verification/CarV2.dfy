/** The CARv2 container: wrapping a CARv1 file and validating a wrapped one (deploy/carv2_zstd.py). */
module CarV2 {
  import opened Bytes
  import opened Varint
  import opened CarReader
  import opened CarLocality
  import opened CarIndex

  const PRAGMA: Data := [0x0A, 0xA1, 0x67, 0x76, 0x65, 0x72, 0x73, 0x69, 0x6F, 0x6E, 0x02]
  const CARV2_DATA_OFFSET: nat := 51
  const CARV2_HEADER_BYTES: nat := 40

  datatype Validation = Validation(bytes: nat, blocks: nat)

  /** carv2_header: no characteristics, then the three offsets. */
  function Header(dataSize: nat, indexOffset: nat): (r: Result<Data, ArchiveError>)
    ensures r.Ok? ==> |r.value| == CARV2_HEADER_BYTES
  {
    var offset :- Pack(8, CARV2_DATA_OFFSET);
    var size :- Pack(8, dataSize);
    var index :- Pack(8, indexOffset);
    Ok(Zeros(16) + offset + size + index)
  }

  /** `file` is the CARv2 wrapping of `d`, a CARv1 section of at most `maxBlocks` blocks. */
  ghost predicate Wraps(sha: Data -> Data, file: Data, d: Data, maxBlocks: int) {
    var rows := ReadPayload(sha, d, 0, |d|, maxBlocks, true);
    && rows.Ok?
    && var header, index := Header(|d|, CARV2_DATA_OFFSET + |d|), IndexBytes(rows.value);
       && header.Ok? && index.Ok?
       && file == PRAGMA + header.value + d + index.value
  }

  // ----- what the reader's rows are

  lemma {:induction false} ReadFramesRows(sha: Data -> Data, d: Data, base: nat, at: nat, total: nat, left: int)
    requires ReadFrames(sha, d, base, at, total, left).Ok?
    ensures var (rows, next) := ReadFrames(sha, d, base, at, total, left).value;
            && ReaderRows(rows)
            && (forall i :: 0 <= i < |rows| ==> at <= rows[i].offset < total)
            && |rows| <= Max(left, 0) && at + |rows| <= next
    decreases total - at
  {
    if at < total {
      hide ReadVarint, ReadCidHead;
      var frame := ReadFrame(sha, d, base, at, total).value;
      ReadFramesRows(sha, d, base, frame.next, total, left - 1);
    }
  }

  lemma {:induction false} AppendRecordsFits(out: Data, records: seq<Record>)
    requires forall i :: 0 <= i < |records| ==> records[i].offset < TWO_TO_THE_64
    ensures AppendRecords(out, records).Ok?
    decreases records
  {
    if records != [] {
      Pow256();
      AppendRecordsFits(out + records[0].digest + Pack(8, records[0].offset).value, records[1..]);
    }
  }

  /** A section below 2^64 bytes has an index unless the record area itself passes 2^64 bytes. */
  lemma IndexFits(sha: Data -> Data, d: Data, base: nat, total: nat, maxBlocks: int, eof: bool)
    requires ReadPayload(sha, d, base, total, maxBlocks, eof).Ok? && total < TWO_TO_THE_64
    ensures var rows := ReadPayload(sha, d, base, total, maxBlocks, eof).value;
            && ReaderRows(rows) && 0 < |rows| <= maxBlocks
            && (IndexBytes(rows).Ok? <==> RECORD_BYTES * |rows| < TWO_TO_THE_64)
  {
    hide ReadFrames, IndexBytes, AppendRecords, Sort;
    var at := ReadHeader(d, base).value;
    ReadFramesRows(sha, d, base, at, total, maxBlocks);
    var rows := ReadPayload(sha, d, base, total, maxBlocks, eof).value;
    IndexShape(rows);
    var sorted := Sort(Records(rows));
    forall i | 0 <= i < |sorted|
      ensures sorted[i].offset < TWO_TO_THE_64
    {
      assert sorted[i] in multiset(sorted);
      assert sorted[i] in Records(rows);
    }
    AppendRecordsFits(Head(|rows|), sorted);
  }

  // ----- validation

  /** The file up to the section at offset 51: what the fixed fields must say. */
  function ReadHead(file: Data): (r: Result<nat, ArchiveError>)
    ensures r.Ok? ==> CARV2_DATA_OFFSET + r.value < |file|
  {
    if file[..Min(|PRAGMA|, |file|)] != PRAGMA then Err(NotCarV2)
    else if |file| < CARV2_DATA_OFFSET then Err(TruncatedData)
    else if file[11..27] != Zeros(16) then Err(UnsupportedCharacteristics)
    else
      var offset, size, index := FromLE(file[27..35]), FromLE(file[35..43]), FromLE(file[43..51]);
      if offset != CARV2_DATA_OFFSET || size < 1 || index != offset + size then Err(InvalidOffsets)
      else if index >= |file| then Err(IndexMissing)
      else Ok(size)
  }

  /** validate_carv2 */
  function Validate(sha: Data -> Data, file: Data, maxBlocks: int): Result<Validation, ArchiveError> {
    var size :- ReadHead(file);
    var rows :- ReadPayload(sha, file, CARV2_DATA_OFFSET, size, maxBlocks, false);
    var expected :- IndexBytes(rows);
    if file[CARV2_DATA_OFFSET + size..] != expected then Err(IndexDiffers)
    else Ok(Validation(|file|, |rows|))
  }

  /** The fixed fields are read as written, and only as written. */
  lemma ReadHeadExact(file: Data, size: nat)
    ensures ReadHead(file) == Ok(size) <==>
            && size >= 1 && CARV2_DATA_OFFSET + size < |file|
            && var header := Header(size, CARV2_DATA_OFFSET + size);
               header.Ok? && file[..CARV2_DATA_OFFSET] == PRAGMA + header.value
  {
    hide Header, FromLE;
    if ReadHead(file) == Ok(size) {
      FieldsHeader(file, size);
    }
    var header := Header(size, CARV2_DATA_OFFSET + size);
    if size >= 1 && CARV2_DATA_OFFSET + size < |file| && header.Ok? &&
       file[..CARV2_DATA_OFFSET] == PRAGMA + header.value
    {
      HeaderFields(file, size);
    }
  }

  lemma FieldsHeader(file: Data, size: nat)
    requires |file| >= CARV2_DATA_OFFSET && file[..11] == PRAGMA && file[11..27] == Zeros(16)
    requires FromLE(file[27..35]) == CARV2_DATA_OFFSET
    requires FromLE(file[35..43]) == size && FromLE(file[43..51]) == CARV2_DATA_OFFSET + size
    ensures var header := Header(size, CARV2_DATA_OFFSET + size);
            header.Ok? && file[..CARV2_DATA_OFFSET] == PRAGMA + header.value
  {
    hide LE, FromLE, Pow;
    LEOfFromLE(file[27..35]);
    LEOfFromLE(file[35..43]);
    LEOfFromLE(file[43..51]);
    assert file[..51] == file[..11] + (file[11..27] + file[27..35] + file[35..43] + file[43..51]);
  }

  lemma HeaderFields(file: Data, size: nat)
    requires |file| >= CARV2_DATA_OFFSET && Header(size, CARV2_DATA_OFFSET + size).Ok?
    requires file[..CARV2_DATA_OFFSET] == PRAGMA + Header(size, CARV2_DATA_OFFSET + size).value
    ensures file[..11] == PRAGMA && file[11..27] == Zeros(16)
    ensures FromLE(file[27..35]) == CARV2_DATA_OFFSET
    ensures FromLE(file[35..43]) == size && FromLE(file[43..51]) == CARV2_DATA_OFFSET + size
  {
    hide LE, FromLE, Pow;
    Pow256();
    var header := Header(size, CARV2_DATA_OFFSET + size).value;
    var a, b, c := Pack(8, CARV2_DATA_OFFSET).value, Pack(8, size).value, Pack(8, CARV2_DATA_OFFSET + size).value;
    Parts(Zeros(16), a, b, c);
    Parts(PRAGMA, header, [], []);
    assert PRAGMA + header + [] + [] == file[..51];
    SliceOfSlice(file[..51], 11, 40, 0, 16);
    SliceOfSlice(file[..51], 11, 40, 16, 24);
    SliceOfSlice(file[..51], 11, 40, 24, 32);
    SliceOfSlice(file[..51], 11, 40, 32, 40);
    assert file[..51][..11] == file[..11] && file[..51][11..27] == file[11..27];
    assert file[..51][27..35] == file[27..35] && file[..51][35..43] == file[35..43];
    assert file[..51][43..51] == file[43..51];
  }

  /** A file is accepted exactly when it is the wrapping of the section it declares. */
  lemma ValidatedIsWrapped(sha: Data -> Data, file: Data, maxBlocks: int)
    requires Validate(sha, file, maxBlocks).Ok?
    ensures var d := file[CARV2_DATA_OFFSET..CARV2_DATA_OFFSET + ReadHead(file).value];
            Wraps(sha, file, d, maxBlocks)
  {
    hide ReadHead, ReadPayload, IndexBytes, Header;
    var size := ReadHead(file).value;
    var end := CARV2_DATA_OFFSET + size;
    var d := file[CARV2_DATA_OFFSET..end];
    ReadHeadExact(file, size);
    ReadPayloadLocal(sha, file, CARV2_DATA_OFFSET, d, 0, size, maxBlocks, false, true);
    assert file == file[..CARV2_DATA_OFFSET] + d + file[end..];
  }

  lemma WrappedIsValidated(sha: Data -> Data, file: Data, d: Data, maxBlocks: int)
    requires Wraps(sha, file, d, maxBlocks)
    ensures var rows := ReadPayload(sha, d, 0, |d|, maxBlocks, true).value;
            && Validate(sha, file, maxBlocks) == Ok(Validation(|file|, |rows|))
            && ReadHead(file) == Ok(|d|) && file[CARV2_DATA_OFFSET..CARV2_DATA_OFFSET + |d|] == d
            && |file| == |d| + 81 + 40 * |rows|
    ensures file[..11] == [0x0A, 0xA1, 0x67, 0x76, 0x65, 0x72, 0x73, 0x69, 0x6F, 0x6E, 0x02] && file[11..27] == Zeros(16)
    ensures FromLE(file[27..35]) == 51 && FromLE(file[35..43]) == |d| && FromLE(file[43..51]) == 51 + |d|
    ensures file[51..51 + |d|] == d
  {
    hide FromLE;
    hide Wraps, ReadHead, ReadPayload, IndexBytes, Header, ReadFrames;
    WrappedParts(sha, file, d, maxBlocks);
    ReadHeadExact(file, |d|);
    HeaderFields(file, |d|);
    ReadPayloadLocal(sha, d, 0, file, CARV2_DATA_OFFSET, |d|, maxBlocks, true, false);
  }

  /** The parts of a wrapped file, where the offsets say. */
  lemma WrappedParts(sha: Data -> Data, file: Data, d: Data, maxBlocks: int)
    requires Wraps(sha, file, d, maxBlocks)
    ensures ReadPayload(sha, d, 0, |d|, maxBlocks, true).Ok?
    ensures var rows := ReadPayload(sha, d, 0, |d|, maxBlocks, true).value;
            && |d| >= 1 && Header(|d|, CARV2_DATA_OFFSET + |d|).Ok?
            && file[..CARV2_DATA_OFFSET] == PRAGMA + Header(|d|, CARV2_DATA_OFFSET + |d|).value
            && |file| == |d| + 81 + 40 * |rows| && CARV2_DATA_OFFSET + |d| < |file|
            && file[CARV2_DATA_OFFSET..CARV2_DATA_OFFSET + |d|] == d
            && IndexBytes(rows) == Ok(file[CARV2_DATA_OFFSET + |d|..])
  {
    hide ReadPayload, IndexBytes, Header, ReadFrames;
    var rows := ReadPayload(sha, d, 0, |d|, maxBlocks, true).value;
    var header, index := Header(|d|, CARV2_DATA_OFFSET + |d|).value, IndexBytes(rows).value;
    SizeFits(d);
    IndexFits(sha, d, 0, |d|, maxBlocks, true);
    IndexListsRows(rows);
    PayloadNotEmpty(sha, d, maxBlocks);
    Parts(PRAGMA, header, d, index);
    assert file[..CARV2_DATA_OFFSET] == PRAGMA + header;
  }

  lemma SizeFits(d: Data)
    requires Header(|d|, CARV2_DATA_OFFSET + |d|).Ok?
    ensures |d| < TWO_TO_THE_64
  {
    Pow256();
  }

  lemma PayloadNotEmpty(sha: Data -> Data, d: Data, maxBlocks: int)
    requires ReadPayload(sha, d, 0, |d|, maxBlocks, true).Ok?
    ensures |d| >= 1
  {
    hide ReadFrames;
  }

  /**
   validate_carv2 accepts a file exactly when it wraps some CARv1 section; that section is unique,
   so the CARv2 file is a function of its payload, of exactly 81 + 40n bytes more.
   */
  lemma ValidateExact(sha: Data -> Data, file: Data, maxBlocks: int)
    ensures Validate(sha, file, maxBlocks).Ok? <==> exists d :: Wraps(sha, file, d, maxBlocks)
    ensures forall d, e :: Wraps(sha, file, d, maxBlocks) && Wraps(sha, file, e, maxBlocks) ==> d == e
  {
    hide Wraps, ReadPayload, ReadHead;
    if Validate(sha, file, maxBlocks).Ok? {
      ValidatedIsWrapped(sha, file, maxBlocks);
      var d := file[CARV2_DATA_OFFSET..CARV2_DATA_OFFSET + ReadHead(file).value];
      assert Wraps(sha, file, d, maxBlocks);
    }
    forall d | Wraps(sha, file, d, maxBlocks)
      ensures Validate(sha, file, maxBlocks).Ok? && ReadHead(file) == Ok(|d|)
      ensures CARV2_DATA_OFFSET + |d| <= |file| && file[CARV2_DATA_OFFSET..CARV2_DATA_OFFSET + |d|] == d
    {
      WrappedIsValidated(sha, file, d, maxBlocks);
    }
  }
}
