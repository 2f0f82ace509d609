/** The content size a Zstandard frame header declares (RFC 8878 section 3.1.1.1). */
module ZstdFrame {
  import opened Bytes

  const MAGIC: Data := [0x28, 0xB5, 0x2F, 0xFD]

  datatype ZstdError = NotZstandard | ReservedBits | NoContentSize

  /** A header as RFC 8878 lays it out; the window descriptor is present unless the frame is one segment. */
  datatype Frame = Frame(singleSegment: bool, checksum: bool, window: Byte, dictFlag: nat, dictId: Data,
                         sizeFlag: nat, size: nat)

  /** The dictionary field of each flag in RFC 8878 section 3.1.1.1.3. */
  function DictWidth(flag: nat): nat
    requires flag < 4
  {
    if flag == 3 then 4 else flag
  }

  /** The content size field of each flag in RFC 8878 section 3.1.1.1.4. */
  function SizeWidth(sizeFlag: nat, singleSegment: bool): nat
    requires sizeFlag < 4
  {
    match sizeFlag
    case 0 => if singleSegment then 1 else 0
    case 1 => 2
    case 2 => 4
    case _ => 8
  }

  /** The size fits the field the flag chooses; the two-byte field starts at 256. */
  ghost predicate Valid(f: Frame) {
    && f.dictFlag < 4 && f.sizeFlag < 4 && |f.dictId| == DictWidth(f.dictFlag)
    && var width := SizeWidth(f.sizeFlag, f.singleSegment);
       if width == 2 then 256 <= f.size < 256 + 65536 else f.size < Pow(256, width)
  }

  function Descriptor(f: Frame): Byte
    requires f.dictFlag < 4 && f.sizeFlag < 4
  {
    f.sizeFlag * 64 + (if f.singleSegment then 32 else 0) + (if f.checksum then 4 else 0) + f.dictFlag
  }

  function Encode(f: Frame): Data
    requires Valid(f)
  {
    var width := SizeWidth(f.sizeFlag, f.singleSegment);
    LE(4, 0xFD2F_B528) + [Descriptor(f)] + (if f.singleSegment then [] else [f.window]) + f.dictId +
    LE(width, if width == 2 then f.size - 256 else f.size)
  }

  /** zstd_frame_content_size on the whole file. */
  function ContentSize(file: Data): Result<nat, ZstdError> {
    var prefix := file[..Min(18, |file|)];
    if |prefix| < 5 || prefix[..4] != MAGIC then Err(NotZstandard)
    else
      var descriptor := prefix[4];
      if descriptor / 8 % 4 != 0 then Err(ReservedBits)
      else
        var sizeFlag, singleSegment, dictFlag := descriptor / 64, descriptor / 32 % 2 == 1, descriptor % 4;
        var offset := 5 + (if singleSegment then 0 else 1) + [0, 1, 2, 4][dictFlag];
        var width := if sizeFlag == 0 then (if singleSegment then 1 else 0) else [2, 4, 8][sizeFlag - 1];
        if width == 0 || |prefix| < offset + width then Err(NoContentSize)
        else
          var size := FromLE(prefix[offset..offset + width]);
          Ok(if width == 2 then size + 256 else size)
  }

  /** The flags choose the widths the reader looks up, and the magic number is the four bytes it compares. */
  lemma Widths(sizeFlag: nat, single: bool, dictFlag: nat)
    requires sizeFlag < 4 && dictFlag < 4
    ensures SizeWidth(sizeFlag, single) == if sizeFlag == 0 then (if single then 1 else 0) else [2, 4, 8][sizeFlag - 1]
    ensures DictWidth(dictFlag) == [0, 1, 2, 4][dictFlag]
    ensures LE(4, 0xFD2F_B528) == MAGIC
  {
    assert LE(3, 0xFD_2FB5) == [0xB5] + LE(2, 0xFD2F);
    assert LE(2, 0xFD2F) == [0x2F] + LE(1, 0xFD);
    assert LE(1, 0xFD) == [0xFD];
  }

  lemma DescriptorBits(f: Frame)
    requires f.dictFlag < 4 && f.sizeFlag < 4
    ensures var d := Descriptor(f);
            && d / 8 % 4 == 0 && d / 64 == f.sizeFlag && (d / 32 % 2 == 1 <==> f.singleSegment)
            && d % 4 == f.dictFlag
  {
  }

  function Number(f: Frame): int
    requires f.sizeFlag < 4
  {
    if SizeWidth(f.sizeFlag, f.singleSegment) == 2 then f.size - 256 else f.size
  }

  /** Where the fields of an encoded header stand in the first 18 bytes of the file. */
  lemma Layout(f: Frame, rest: Data)
    requires Valid(f)
    ensures var file := Encode(f) + rest;
            var prefix := file[..Min(18, |file|)];
            var offset := 5 + (if f.singleSegment then 0 else 1) + DictWidth(f.dictFlag);
            var width := SizeWidth(f.sizeFlag, f.singleSegment);
            && |prefix| >= offset + width && prefix[..4] == MAGIC && prefix[4] == Descriptor(f)
            && prefix[offset..offset + width] == LE(width, Number(f))
  {
    Widths(f.sizeFlag, f.singleSegment, f.dictFlag);
    hide LE, Descriptor, Pow;
    var width := SizeWidth(f.sizeFlag, f.singleSegment);
    var head := MAGIC + [Descriptor(f)] + (if f.singleSegment then [] else [f.window]) + f.dictId;
    var file := head + LE(width, Number(f)) + rest;
    assert Encode(f) + rest == file;
    Parts(head, LE(width, Number(f)), rest, []);
    assert head + LE(width, Number(f)) + rest + [] == file;
    var prefix := file[..Min(18, |file|)];
    SliceOfSlice(file, 0, |prefix|, |head|, |head| + width);
    assert head[..4] == MAGIC && head[4] == Descriptor(f);
  }

  /** Every header that declares a size is read as that size, whatever follows it. */
  lemma ContentSizeOfFrame(f: Frame, rest: Data)
    requires Valid(f)
    ensures ContentSize(Encode(f) + rest) ==
            if SizeWidth(f.sizeFlag, f.singleSegment) == 0 then Err(NoContentSize) else Ok(f.size)
  {
    hide LE, FromLE, Pow, Encode;
    DescriptorBits(f);
    Widths(f.sizeFlag, f.singleSegment, f.dictFlag);
    hide Descriptor;
    Layout(f, rest);
    Pow256();
    if SizeWidth(f.sizeFlag, f.singleSegment) > 0 {
      FromLEOfLE(SizeWidth(f.sizeFlag, f.singleSegment), Number(f));
    }
  }

  /** The header the bytes of an accepted file spell, and what follows it. */
  function Parsed(file: Data): (Frame, Data)
    requires ContentSize(file).Ok?
  {
    var d := file[4];
    var single := d / 32 % 2 == 1;
    Widths(d / 64, single, d % 4);
    var at := if single then 5 else 6;
    var offset := at + DictWidth(d % 4);
    var f := Frame(single, d / 4 % 2 == 1, if single then 0 else file[5], d % 4, file[at..offset], d / 64,
                   ContentSize(file).value);
    (f, file[offset + SizeWidth(d / 64, single)..])
  }

  lemma DescriptorOf(d: Byte)
    requires d / 8 % 4 == 0
    ensures d == d / 64 * 64 + d / 32 % 2 * 32 + d / 4 % 2 * 4 + d % 4
  {
    assert d / 4 == 2 * (d / 8) + d / 4 % 2;
    assert d / 32 == d / 8 / 4 && d / 8 == 4 * (d / 32);
    assert d / 32 == 2 * (d / 64) + d / 32 % 2;
  }

  lemma ParsedFields(file: Data)
    requires ContentSize(file).Ok?
    ensures var (f, rest) := Parsed(file);
            var at := if f.singleSegment then 5 else 6;
            && f.sizeFlag < 4 && f.dictFlag < 4
            && var offset, width := at + DictWidth(f.dictFlag), SizeWidth(f.sizeFlag, f.singleSegment);
               && offset + width <= |file| && width in {1, 2, 4, 8}
               && f.dictId == file[at..offset] && rest == file[offset + width..]
               && file[..4] == MAGIC && (!f.singleSegment ==> f.window == file[5])
               && f.size == FromLE(file[offset..offset + width]) + if width == 2 then 256 else 0
  {
    hide LE, FromLE, Pow;
    var (f, rest) := Parsed(file);
    var prefix := file[..Min(18, |file|)];
    Widths(f.sizeFlag, f.singleSegment, f.dictFlag);
    var at := if f.singleSegment then 5 else 6;
    var offset, width := at + DictWidth(f.dictFlag), SizeWidth(f.sizeFlag, f.singleSegment);
    assert prefix[offset..offset + width] == file[offset..offset + width];
    assert prefix[..4] == file[..4];
  }

  lemma ParsedDescriptor(file: Data)
    requires ContentSize(file).Ok?
    ensures var f := Parsed(file).0;
            f.sizeFlag < 4 && f.dictFlag < 4 && Descriptor(f) == file[4]
  {
    hide LE, FromLE, Pow;
    DescriptorOf(file[4]);
  }

  lemma ParsedEncodes(file: Data)
    requires ContentSize(file).Ok?
    ensures var (f, rest) := Parsed(file);
            Valid(f) && file == Encode(f) + rest && SizeWidth(f.sizeFlag, f.singleSegment) > 0
  {
    hide LE, FromLE, Pow, ContentSize, Parsed, Descriptor;
    ParsedFields(file);
    ParsedDescriptor(file);
    var (f, rest) := Parsed(file);
    Widths(f.sizeFlag, f.singleSegment, f.dictFlag);
    var at := if f.singleSegment then 5 else 6;
    var offset := at + DictWidth(f.dictFlag);
    var width := SizeWidth(f.sizeFlag, f.singleSegment);
    LEOfFromLE(file[offset..offset + width]);
    Pow256();
    assert file[..at] == MAGIC + [file[4]] + (if f.singleSegment then [] else [f.window]);
    CutInFour(file, at, offset, offset + width);
  }

  lemma CutInFour(d: Data, i: nat, j: nat, k: nat)
    requires i <= j <= k <= |d|
    ensures d == d[..i] + d[i..j] + d[j..k] + d[k..]
  {
    assert d == d[..k] + d[k..];
    assert d[..k] == d[..j] + d[j..k];
    assert d[..j] == d[..i] + d[i..j];
  }

  ghost predicate Declares(file: Data, f: Frame, rest: Data, n: nat) {
    Valid(f) && SizeWidth(f.sizeFlag, f.singleSegment) > 0 && f.size == n && file == Encode(f) + rest
  }

  /** A file is read as declaring `n` bytes exactly when it starts with a header of RFC 8878 that declares `n`. */
  lemma ContentSizeExact(file: Data, n: nat)
    ensures ContentSize(file) == Ok(n) <==> exists f, rest :: Declares(file, f, rest, n)
  {
    hide ContentSize, Encode, Parsed, Valid;
    if ContentSize(file) == Ok(n) {
      ParsedEncodes(file);
      ParsedSize(file);
      var (f, rest) := Parsed(file);
      assert Declares(file, f, rest, n);
    }
    forall f, rest | Declares(file, f, rest, n)
      ensures ContentSize(file) == Ok(n)
    {
      ContentSizeOfFrame(f, rest);
    }
  }

  lemma ParsedSize(file: Data)
    requires ContentSize(file).Ok?
    ensures Parsed(file).0.size == ContentSize(file).value
  {
  }
}
