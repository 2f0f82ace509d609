/** pack and validate as they run on files, and the size bound unpack checks first. */
module CarPack {
  import opened Bytes
  import opened Varint
  import opened Files
  import opened CarReader
  import opened CarCopy
  import opened CarIndex
  import opened CarV2

  /** validate_carv2: its answer is Validate's, so a file is accepted exactly when it is a wrapping. */
  method ValidateCarV2(sha: Data -> Data, file: Data, maxBlocks: int)
    returns (r: Result<Validation, ArchiveError>)
    ensures r == Validate(sha, file, maxBlocks)
    ensures r.Ok? <==> exists d :: Wraps(sha, file, d, maxBlocks)
  {
    hide ReadPayload, IndexBytes, Wraps;
    ValidateExact(sha, file, maxBlocks);
    var source := new Source(file);
    var pragma := source.Read(|PRAGMA|);
    if pragma != PRAGMA {
      return Err(NotCarV2);
    }
    var raw :- ReadExact(source, CARV2_HEADER_BYTES);
    RawFields(file, raw);
    if raw[..16] != Zeros(16) {
      return Err(UnsupportedCharacteristics);
    }
    var offset, size, index := FromLE(raw[16..24]), FromLE(raw[24..32]), FromLE(raw[32..40]);
    if offset != CARV2_DATA_OFFSET || size < 1 || index != offset + size {
      return Err(InvalidOffsets);
    }
    if index >= |file| {
      return Err(IndexMissing);
    }
    assert ReadHead(file) == Ok(size);
    var discard := new Sink();
    var rows :- CopyCarv1Payload(sha, source, discard, size, maxBlocks, offset, false);
    var expected :- EncodeIndex(rows);
    source.Seek(index);
    var actual := source.Read(|expected| + 1);
    OneMoreIsEnough(file, index, expected);
    if actual != expected {
      return Err(IndexDiffers);
    }
    return Ok(Validation(|file|, |rows|));
  }

  lemma RawFields(file: Data, raw: Data)
    requires |file| >= CARV2_DATA_OFFSET && raw == file[11..51]
    ensures raw[..16] == file[11..27] && raw[16..24] == file[27..35]
    ensures raw[24..32] == file[35..43] && raw[32..40] == file[43..51]
  {
    SliceOfSlice(file, 11, 40, 0, 16);
    SliceOfSlice(file, 11, 40, 16, 24);
    SliceOfSlice(file, 11, 40, 24, 32);
    SliceOfSlice(file, 11, 40, 32, 40);
  }

  /** Reading one byte more than expected shows whether anything follows. */
  lemma OneMoreIsEnough(file: Data, at: nat, expected: Data)
    requires at <= |file|
    ensures file[at..Min(at + |expected| + 1, |file|)] == expected <==> file[at..] == expected
  {
    var to := Min(at + |expected| + 1, |file|);
    if file[at..to] == expected {
      assert to == |file|;
      assert file[at..to] == file[at..];
    }
  }

  /** What pack leaves in the temporary CARv2 file, and its block count. */
  datatype Packed = Packed(file: Data, blocks: nat)

  /**
   pack up to the compressor: the section is copied behind a blank header, the index follows, the
   header is written last, and the result is validated. It succeeds exactly when the input is a CARv1
   section that can be indexed, and then the data section is the input byte for byte.
   */
  method Pack(sha: Data -> Data, carv1: Data, maxBlocks: int, maxBytes: int)
    returns (r: Result<Packed, ArchiveError>)
    ensures !(1 <= maxBlocks <= 1000 && 1 <= |carv1| <= maxBytes) ==> r == Err(OutOfBounds)
    ensures r.Ok? <==> && 1 <= maxBlocks <= 1000 && 1 <= |carv1| <= maxBytes
                       && ReadPayload(sha, carv1, 0, |carv1|, maxBlocks, true).Ok?
                       && CARV2_DATA_OFFSET + |carv1| < TWO_TO_THE_64
    ensures r.Ok? ==> && Wraps(sha, r.value.file, carv1, maxBlocks)
                      && |r.value.file| == |carv1| + 81 + 40 * r.value.blocks
                      && r.value.blocks == |ReadPayload(sha, carv1, 0, |carv1|, maxBlocks, true).value|
                      && r.value.file[CARV2_DATA_OFFSET..CARV2_DATA_OFFSET + |carv1|] == carv1
                      && Validate(sha, r.value.file, maxBlocks) ==
                         Ok(Validation(|r.value.file|, r.value.blocks))
  {
    hide ReadPayload, IndexBytes, LE;
    if !(1 <= maxBlocks <= 1000 && 1 <= |carv1| <= maxBytes) {
      return Err(OutOfBounds);
    }
    var source := new Source(carv1);
    var destination := new Sink();
    destination.Write(PRAGMA);
    destination.Write(Zeros(CARV2_HEADER_BYTES));
    var rows :- CopyCarv1Payload(sha, source, destination, |carv1|, maxBlocks, 0, true);
    assert carv1[0..|carv1|] == carv1;
    var dataSize := |destination.content| - CARV2_DATA_OFFSET;
    var indexOffset := |destination.content|;
    PackFits(sha, carv1, maxBlocks);
    var index :- EncodeIndex(rows);
    destination.Write(index);
    ghost var blank := destination.content;
    var header :- Header(dataSize, indexOffset);
    destination.WriteAt(|PRAGMA|, header);
    HeaderPatched(carv1, index, header, blank);
    var file := destination.content;
    assert Wraps(sha, file, carv1, maxBlocks);
    WrappedIsValidated(sha, file, carv1, maxBlocks);
    var checked := ValidateCarV2(sha, file, maxBlocks);
    assert checked.value.blocks == |rows|;
    return Ok(Packed(file, |rows|));
  }

  lemma HeaderPatched(d: Data, index: Data, header: Data, blank: Data)
    requires |header| == CARV2_HEADER_BYTES
    requires blank == [] + PRAGMA + Zeros(CARV2_HEADER_BYTES) + d + index
    ensures blank[..|PRAGMA|] + header + blank[|PRAGMA| + |header|..] == PRAGMA + header + d + index
  {
    Parts(PRAGMA, Zeros(CARV2_HEADER_BYTES), d, index);
    assert blank == PRAGMA + Zeros(CARV2_HEADER_BYTES) + d + index;
    assert blank[51..] == d + index;
  }

  lemma PackFits(sha: Data -> Data, d: Data, maxBlocks: int)
    requires ReadPayload(sha, d, 0, |d|, maxBlocks, true).Ok? && maxBlocks <= 1000
    ensures var rows := ReadPayload(sha, d, 0, |d|, maxBlocks, true).value;
            CARV2_DATA_OFFSET + |d| < TWO_TO_THE_64 ==> IndexBytes(rows).Ok?
    ensures Header(|d|, CARV2_DATA_OFFSET + |d|).Ok? <==> CARV2_DATA_OFFSET + |d| < TWO_TO_THE_64
  {
    hide ReadPayload, IndexBytes, LE;
    Pow256();
    if CARV2_DATA_OFFSET + |d| < TWO_TO_THE_64 {
      IndexFits(sha, d, 0, |d|, maxBlocks, true);
    }
  }

  /** With the limits a file was packed under, it stays within the bound unpack puts on the declared content size. */
  lemma PackedFitsUnpack(sha: Data -> Data, file: Data, carv1: Data, maxBlocks: int, maxBytes: int)
    requires 1 <= |carv1| <= maxBytes && Wraps(sha, file, carv1, maxBlocks)
    ensures |file| <= maxBytes + 128 * maxBlocks + 1024
  {
    hide ReadPayload, IndexBytes, ReadHead;
    WrappedIsValidated(sha, file, carv1, maxBlocks);
    SizeFits(carv1);
    IndexFits(sha, carv1, 0, |carv1|, maxBlocks, true);
  }
}
