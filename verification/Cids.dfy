/** CID texts: the block entrance's CIDv1, and the inventory CIDs of the exporter and the raw store. */
module Cids {
  import opened Bytes
  import opened Varint
  import opened Base32
  import Radix

  const SHA2_256: Byte := 0x12
  const DIGEST_BYTES: Byte := 32

  function Char32(i: Quintet): char {
    if i < 26 then 'a' + i as char else '2' + (i - 26) as char
  }

  function Index32(c: char): (i: int)
    ensures -1 <= i < 32
    ensures i >= 0 ==> Char32(i) == c
  {
    if 'a' <= c <= 'z' then (c - 'a') as int
    else if '2' <= c <= '7' then 26 + (c - '2') as int
    else -1
  }

  /** The small letters and then 2 to 7, in order. */
  lemma Alphabet32(i: nat, j: nat, c: char)
    requires i < j < 32
    ensures (i < 26 <==> 'a' <= Char32(i) <= 'z') && (26 <= i <==> '2' <= Char32(i) <= '7')
    ensures j < 26 || 26 <= i ==> Char32(i) < Char32(j)
    ensures Index32(c) >= 0 <==> 'a' <= c <= 'z' || '2' <= c <= '7'
  {
  }

  predicate Text32(text: string) {
    forall i :: 0 <= i < |text| ==> Index32(text[i]) >= 0
  }

  function Quintets(text: string): (s: seq<Quintet>)
    requires Text32(text)
    ensures |s| == |text|
    ensures forall i :: 0 <= i < |s| ==> s[i] == Index32(text[i])
  {
    seq(|text|, i requires 0 <= i < |text| => Index32(text[i]))
  }

  function Chars32(s: seq<Quintet>): (text: string)
    ensures |text| == |s|
    ensures forall i :: 0 <= i < |s| ==> text[i] == Char32(s[i])
  {
    seq(|s|, i requires 0 <= i < |s| => Char32(s[i]))
  }

  lemma CharsRoundTrip(s: seq<Quintet>, text: string)
    ensures Text32(Chars32(s)) && Quintets(Chars32(s)) == s
    ensures Text32(text) ==> Chars32(Quintets(text)) == text
  {
    forall i | 0 <= i < |s|
      ensures Index32(Chars32(s)[i]) == s[i]
    {
    }
  }

  // ----- deploy/block_ingest.cljk

  datatype Codec = Raw | DagCbor
  datatype Cid = Cid(codec: Codec, digest: Data)

  function CodecByte(codec: Codec): Byte {
    match codec
    case Raw => 0x55
    case DagCbor => 0x71
  }

  function CodecOf(b: Byte): Option<Codec> {
    if b == 0x55 then Some(Raw) else if b == 0x71 then Some(DagCbor) else None
  }

  /** parse-cid */
  function ParseCid(text: string): Option<Cid> {
    if |text| != 59 || text[0] != 'b' || !Text32(text[1..]) then None
    else
      var bs := Decode32(Quintets(text[1..]), 0, 0);
      if |bs| == 36 && bs[0] == 1 && CodecOf(bs[1]).Some? && bs[2] == SHA2_256 && bs[3] == DIGEST_BYTES
      then Some(Cid(CodecOf(bs[1]).value, bs[4..]))
      else None
  }

  /** cid-of, given the digest of the bytes */
  function CidOf(cid: Cid): string {
    "b" + Chars32(Encode32([1, CodecByte(cid.codec), SHA2_256, DIGEST_BYTES] + cid.digest))
  }

  /** The CID of a digest is CIDv1, its codec, sha2-256 and 32 digest bytes; it parses back to codec and digest. */
  lemma ParseOfCidOf(cid: Cid)
    requires |cid.digest| == DIGEST_BYTES
    ensures ParseCid(CidOf(cid)) == Some(cid)
    ensures var text := CidOf(cid);
            |text| == 59 && text[0] == 'b' && Text32(text[1..])
            && Decode32(Quintets(text[1..]), 0, 0) == [0x01, if cid.codec.Raw? then 0x55 else 0x71, 0x12, 0x20] + cid.digest
  {
    hide Encode32, Decode32;
    var head: Data := [1, CodecByte(cid.codec), SHA2_256, DIGEST_BYTES];
    var bs := head + cid.digest;
    var text := CidOf(cid);
    Encode32Number(bs);
    CharsRoundTrip(Encode32(bs), "");
    assert text[1..] == Chars32(Encode32(bs));
    Base32RoundTrip(bs);
    assert bs[4..] == cid.digest;
  }

  lemma LastQuintet(s: seq<Quintet>)
    requires |s| == 58
    ensures |Leftover(s)| == 2 && (AllZero(Leftover(s)) <==> s[57] % 4 == 0)
  {
    hide QuintetBits, BitsOf, AllZero;
    QuintetBitsLast(s[..57], s[57]);
    assert s == s[..57] + [s[57]];
    assert Leftover(s) == BitsOf(5, s[57])[3..5];
    LowBits(s[57]);
  }

  lemma LowBits(i: Quintet)
    ensures AllZero(BitsOf(5, i)[3..5]) <==> i % 4 == 0
  {
    var bits := BitsOf(5, i);
    assert bits == BitsOf(4, i / 2) + [i % 2] && BitsOf(4, i / 2) == BitsOf(3, i / 2 / 2) + [i / 2 % 2];
    var low := bits[3..5];
    assert low[0] == i / 2 % 2 && low[1] == i % 2;
    assert i % 4 == 2 * (i / 2 % 2) + i % 2;
  }

  /**
   The text of a parsed CID is given back exactly when its last character leaves the two spare bits zero.
   */
  lemma CidOfParse(text: string)
    requires ParseCid(text).Some?
    ensures |ParseCid(text).value.digest| == DIGEST_BYTES
    ensures CidOf(ParseCid(text).value) == text <==> Index32(text[58]) % 4 == 0
  {
    hide Encode32, Decode32, Leftover;
    var s := Quintets(text[1..]);
    var bs := Decode32(s, 0, 0);
    var cid := ParseCid(text).value;
    assert bs == [1, CodecByte(cid.codec), SHA2_256, DIGEST_BYTES] + cid.digest;
    CanonicalText(s);
    LastQuintet(s);
    CharsRoundTrip(Encode32(bs), text[1..]);
    assert text == "b" + text[1..];
    assert CidOf(cid)[1..] == Chars32(Encode32(bs));
  }

  lemma {:induction false} Bytes8Prefix(b: Bits, c: Bits)
    requires |b| == |c| && b[..|b| - |b| % 8] == c[..|b| - |b| % 8]
    ensures Bytes8(b) == Bytes8(c)
    decreases |b|
  {
    if |b| >= 8 {
      var n := |b| - |b| % 8;
      assert b[..8] == b[..n][..8] && c[..8] == c[..n][..8];
      assert b[8..][..n - 8] == b[..n][8..] && c[8..][..n - 8] == c[..n][8..];
      Bytes8Prefix(b[8..], c[8..]);
    }
  }

  lemma HighBits(i: Quintet)
    ensures BitsOf(5, i)[..3] == BitsOf(3, i / 4) == BitsOf(5, i / 4 * 4)[..3]
  {
    var j := i / 4 * 4;
    assert BitsOf(5, i) == BitsOf(4, i / 2) + [i % 2] && BitsOf(4, i / 2) == BitsOf(3, i / 2 / 2) + [i / 2 % 2];
    assert BitsOf(5, j) == BitsOf(4, j / 2) + [j % 2] && BitsOf(4, j / 2) == BitsOf(3, j / 2 / 2) + [j / 2 % 2];
    assert i / 2 / 2 == i / 4 && j / 2 / 2 == i / 4;
  }

  /** The quintets with the two spare bits cleared. */
  function Cleared(s: seq<Quintet>): seq<Quintet>
    requires |s| == 58
  {
    s[..57] + [s[57] / 4 * 4]
  }

  /** Decoding ignores the spare bits, and encoding what was decoded clears them. */
  lemma SpareBits(s: seq<Quintet>)
    requires |s| == 58
    ensures Decode32(Cleared(s), 0, 0) == Decode32(s, 0, 0)
    ensures Encode32(Decode32(s, 0, 0)) == Cleared(s)
  {
    hide Encode32, Decode32, Leftover, QuintetBits, BitsOf, Bytes8;
    var t := Cleared(s);
    QuintetBitsLast(s[..57], s[57]);
    QuintetBitsLast(s[..57], t[57]);
    assert s == s[..57] + [s[57]] && t == s[..57] + [t[57]];
    HighBits(s[57]);
    var high := QuintetBits(s[..57]);
    assert (high + BitsOf(5, s[57]))[..288] == high + BitsOf(5, s[57])[..3];
    assert (high + BitsOf(5, t[57]))[..288] == high + BitsOf(5, t[57])[..3];
    DecodeBits(s);
    DecodeBits(t);
    Bytes8Prefix(QuintetBits(s), QuintetBits(t));
    CanonicalText(t);
    LastQuintet(t);
  }

  /**
   A text names the same (codec, digest) as the parsed text `a` exactly when it differs from `a` at most in
   the spare bits of the last character.
   */
  lemma ParseSame(a: string, b: string)
    requires ParseCid(a).Some?
    ensures ParseCid(b) == ParseCid(a) <==>
            |b| == 59 && b[..58] == a[..58] && Index32(b[58]) >= 0 && Index32(b[58]) / 4 == Index32(a[58]) / 4
  {
    hide Encode32, Decode32;
    if ParseCid(b) == ParseCid(a) {
      SameParse(a, b);
    } else if |b| == 59 && b[..58] == a[..58] && Index32(b[58]) >= 0 && Index32(b[58]) / 4 == Index32(a[58]) / 4 {
      SameSpelling(a, b);
    }
  }

  lemma SameParse(a: string, b: string)
    requires ParseCid(a).Some? && ParseCid(b) == ParseCid(a)
    ensures b[..58] == a[..58] && Index32(b[58]) >= 0 && Index32(b[58]) / 4 == Index32(a[58]) / 4
  {
    hide Encode32, Decode32;
    var s, t := Quintets(a[1..]), Quintets(b[1..]);
    SpareBits(s);
    SpareBits(t);
    var x, y := Decode32(s, 0, 0), Decode32(t, 0, 0);
    assert x == x[..4] + x[4..] && y == y[..4] + y[4..];
    assert x[..4] == [1, x[1], SHA2_256, DIGEST_BYTES] && y[..4] == [1, y[1], SHA2_256, DIGEST_BYTES];
    CodecBytes(x[1]);
    CodecBytes(y[1]);
    assert x == y;
    assert Cleared(s) == Cleared(t);
    assert s[..57] == Cleared(s)[..57] && t[..57] == Cleared(t)[..57];
    assert s[57] / 4 * 4 == Cleared(s)[57] && t[57] / 4 * 4 == Cleared(t)[57];
    SameChars(a, b, s, t);
  }

  lemma SameSpelling(a: string, b: string)
    requires ParseCid(a).Some? && |b| == 59 && b[..58] == a[..58]
    requires Index32(b[58]) >= 0 && Index32(b[58]) / 4 == Index32(a[58]) / 4
    ensures ParseCid(b) == ParseCid(a)
  {
    hide Encode32, Decode32;
    assert b[0] == b[..58][0] == a[0];
    forall i | 0 <= i < 58
      ensures Index32(b[1..][i]) >= 0
    {
      if i < 57 {
        assert b[1..][i] == b[..58][i + 1] == a[1..][i];
      }
    }
    var s, t := Quintets(a[1..]), Quintets(b[1..]);
    SpareBits(s);
    SpareBits(t);
    SameQuintets(a, b, s, t);
    assert Cleared(s) == Cleared(t);
  }

  /** `a` with the spare bits of its last character set to `j`. */
  function Spelling(a: string, j: nat): string
    requires |a| == 59 && Index32(a[58]) >= 0 && j < 4
  {
    a[..58] + [Char32(Index32(a[58]) / 4 * 4 + j)]
  }

  /** One (codec, digest) has exactly four texts. */
  lemma FourTexts(a: string)
    requires ParseCid(a).Some?
    ensures Index32(a[58]) >= 0
    ensures forall b :: ParseCid(b) == ParseCid(a) <==> b in {Spelling(a, 0), Spelling(a, 1), Spelling(a, 2), Spelling(a, 3)}
    ensures forall i, j :: 0 <= i < j < 4 ==> Spelling(a, i) != Spelling(a, j)
  {
    hide ParseCid;
    LastChar(a);
    forall i, j | 0 <= i < j < 4
      ensures Spelling(a, i) != Spelling(a, j)
    {
      assert Spelling(a, i)[58] != Spelling(a, j)[58];
    }
    forall b
      ensures ParseCid(b) == ParseCid(a) <==> b in {Spelling(a, 0), Spelling(a, 1), Spelling(a, 2), Spelling(a, 3)}
    {
      ParseSame(a, b);
      SpellingExact(a, b);
    }
  }

  lemma LastChar(a: string)
    requires ParseCid(a).Some?
    ensures |a| == 59 && Index32(a[58]) >= 0
  {
    assert a[1..][57] == a[58];
  }

  lemma SpellingExact(a: string, b: string)
    requires |a| == 59 && Index32(a[58]) >= 0
    ensures b in {Spelling(a, 0), Spelling(a, 1), Spelling(a, 2), Spelling(a, 3)} <==>
            |b| == 59 && b[..58] == a[..58] && Index32(b[58]) >= 0 && Index32(b[58]) / 4 == Index32(a[58]) / 4
  {
    if |b| == 59 && b[..58] == a[..58] && Index32(b[58]) >= 0 && Index32(b[58]) / 4 == Index32(a[58]) / 4 {
      var j := Index32(b[58]) % 4;
      assert b == b[..58] + [b[58]];
      assert b == Spelling(a, j);
    }
    forall j | 0 <= j < 4
      ensures Spelling(a, j)[..58] == a[..58] && Index32(Spelling(a, j)[58]) == Index32(a[58]) / 4 * 4 + j
    {
    }
  }

  lemma CodecBytes(b: Byte)
    ensures CodecOf(b).Some? ==> b == CodecByte(CodecOf(b).value)
  {
  }

  lemma SameChars(a: string, b: string, s: seq<Quintet>, t: seq<Quintet>)
    requires |a| == |b| == 59 && Text32(a[1..]) && Text32(b[1..]) && a[0] == b[0]
    requires s == Quintets(a[1..]) && t == Quintets(b[1..]) && s[..57] == t[..57]
    ensures a[..58] == b[..58]
  {
    forall i | 0 <= i < 58
      ensures a[i] == b[i]
    {
      if i > 0 {
        assert s[..57][i - 1] == t[..57][i - 1];
        assert a[1..][i - 1] == a[i] && b[1..][i - 1] == b[i];
      }
    }
  }

  lemma SameQuintets(a: string, b: string, s: seq<Quintet>, t: seq<Quintet>)
    requires |a| == |b| == 59 && Text32(a[1..]) && Text32(b[1..]) && a[..58] == b[..58]
    requires s == Quintets(a[1..]) && t == Quintets(b[1..])
    ensures s[..57] == t[..57] && s[57] == Index32(a[58]) && t[57] == Index32(b[58])
  {
    forall i | 0 <= i < 57
      ensures s[i] == t[i]
    {
      assert a[..58][i + 1] == b[..58][i + 1];
    }
  }

  // ----- deploy/export_lake_car_from_kubo.py and deploy/raw_block_store.py

  predicate IsCidV0(text: string) {
    |text| == 46 && text[0] == 'Q' && text[1] == 'm' && Radix.Text58(text)
  }

  predicate IsCidV1(text: string) {
    21 <= |text| <= 201 && text[0] == 'b' && Text32(text[1..])
  }

  /** base64.b32decode of the padded text: some lengths cannot be padded. */
  function PythonBase32(text: string): Option<Data>
    requires Text32(text)
  {
    if |text| % 8 in {1, 3, 6} then None else Some(Decode32(Quintets(text), 0, 0))
  }

  /** number.to_bytes of the base58 number, without leading zeros. */
  function Base58Number(text: string): Data
    requires Radix.Text58(text)
  {
    Radix.FoldValue(256, 58, [], Radix.Indices58(text));
    Radix.Reverse(Radix.Fold(256, 58, [], Radix.Indices58(text)))
  }

  /** The bytes name the text's number and start with no zero byte. */
  lemma Base58NumberExact(text: string)
    requires Radix.Text58(text)
    ensures var bytes := Base58Number(text);
            FromBE(bytes) == Radix.Named(58, 0, Radix.Indices58(text)) && (bytes != [] ==> bytes[0] != 0)
  {
    hide Radix.Fold, Radix.Named;
    var f := Radix.Fold(256, 58, [], Radix.Indices58(text));
    Radix.FoldValue(256, 58, [], Radix.Indices58(text));
    Radix.NamedBytes(Base58Number(text));
    Radix.NamedIsValue(256, Radix.Reverse(f));
    Radix.ReverseTwice(f);
  }

  /** The carry loops give a zero byte for each leading 1 and then the big number's bytes. */
  lemma Decode58IsNumber(text: string)
    requires Radix.Text58(text)
    ensures Radix.Decode58(text) ==
            Some(Zeros(Radix.LeadingZeros(Radix.Indices58(text))) + Base58Number(text))
  {
    hide Radix.Convert, Radix.Fold, Radix.Named, Radix.Value, Radix.LeadingZeros;
    var ds := Radix.Indices58(text);
    var z := Radix.LeadingZeros(ds);
    Base58NumberExact(text);
    Radix.ConvertKeeps(58, 256, ds);
    var bytes := Zeros(z) + Base58Number(text);
    assert Radix.ZeroDigits(z) + Base58Number(text) == bytes;
    Radix.NamedSkipsZeros(256, z, Base58Number(text));
    Radix.NamedBytes(Base58Number(text));
    Radix.LeadingZerosOf(z, Base58Number(text));
    Radix.DigitsDetermined(256, Radix.Convert(58, 256, ds), bytes);
  }

  /** read_varint and _varint: up to ten bytes, no limit on the value. */
  function ReadNumber(data: Data, at: nat): (r: Option<Number>)
    ensures r.Some? ==> 0 < r.value.length && at + r.value.length <= |data|
  {
    var g := Groups(data, at, 0, 0);
    if g.Ok? then Some(g.value) else None
  }

  /** The loop of read_varint and _varint. */
  method DecodeVarint(data: Data, at: nat) returns (r: Option<Number>)
    ensures r == ReadNumber(data, at)
  {
    hide Groups, Group;
    var value: nat, length: nat := 0, 0;
    while length < MAX_VARINT_BYTES
      invariant length <= MAX_VARINT_BYTES
      invariant Groups(data, at, 0, 0) == Groups(data, at + length, length, value)
    {
      GroupsStep(data, at + length, length, value);
      if at + length >= |data| {
        return None;
      }
      var byte := data[at + length];
      value := value + Group(byte, length);
      length := length + 1;
      if byte < 128 {
        return Some(Number(value, length));
      }
    }
    GroupsStep(data, at + length, length, value);
    return None;
  }

  /** The base58 number built digit by digit, then to_bytes: the bytes the carry loops give. */
  method DecodeBase58(text: string) returns (bytes: Data)
    requires Radix.Text58(text)
    ensures bytes == Base58Number(text)
  {
    hide Radix.Spill, Radix.Reverse, Radix.Fold, Radix.Text58, Radix.Index58;
    ghost var digits := Radix.Indices58(text);
    assert digits[0..] == digits;
    var number: nat := 0;
    for k := 0 to |text|
      invariant Radix.Named(58, number, digits[k..]) == Radix.Named(58, 0, digits)
    {
      assert digits[k..][1..] == digits[k + 1..];
      number := number * 58 + Radix.Indices58(text)[k];
    }
    NumberBytes(number, digits);
    assert Radix.Reverse(Radix.Spill(256, number)) == Base58Number(text);
    return Radix.Reverse(Radix.Spill(256, number));
  }

  lemma NumberBytes(number: nat, digits: Radix.Digits)
    requires number == Radix.Named(58, 0, digits)
    ensures Radix.Spill(256, number) == Radix.Fold(256, 58, [], digits)
  {
    hide Radix.Spill, Radix.Fold;
    Radix.SpillValue(256, number);
    Radix.FoldValue(256, 58, [], digits);
    Radix.NormalUnique(256, Radix.Spill(256, number), Radix.Fold(256, 58, [], digits));
  }

  const CODECS: set<nat> := {0x55, 0x70, 0x71, 0x129}

  /** A binary CIDv1 up to the end of its multihash code and length. */
  datatype Prefix = Prefix(version: nat, codec: nat, code: nat, size: nat, end: nat)

  function ReadMultihash(data: Data, at: nat): (r: Option<(nat, nat, nat)>)
    ensures r.Some? ==> at < r.value.2 <= |data|
  {
    var code := ReadNumber(data, at);
    if code.None? then None
    else
      var size := ReadNumber(data, at + code.value.length);
      if size.None? then None
      else Some((code.value.value, size.value.value, at + code.value.length + size.value.length))
  }

  /** Version, codec, and where the multihash starts. */
  function VersionCodec(data: Data): (r: Option<(nat, nat, nat)>)
    ensures r.Some? ==> r.value.2 <= |data|
  {
    var version := ReadNumber(data, 0);
    if version.None? then None
    else
      var codec := ReadNumber(data, version.value.length);
      if codec.None? then None
      else Some((version.value.value, codec.value.value, version.value.length + codec.value.length))
  }

  function ReadPrefix(data: Data): (r: Option<Prefix>)
    ensures r.Some? ==> 0 < r.value.end <= |data|
  {
    var v := VersionCodec(data);
    if v.None? then None
    else
      var m := ReadMultihash(data, v.value.2);
      if m.None? then None else Some(Prefix(v.value.0, v.value.1, m.value.0, m.value.1, m.value.2))
  }

  /** A binary CID the exporter writes: version 1, a known codec, a sha2-256 digest and nothing after it. */
  predicate ExportableCid(data: Data) {
    var p := ReadPrefix(data);
    && p.Some? && p.value.version == 1 && p.value.codec in CODECS
    && p.value.code == SHA2_256 && p.value.size == DIGEST_BYTES && |data| == p.value.end + DIGEST_BYTES
  }

  function DigestIn(data: Data): (digest: Data)
    requires ExportableCid(data)
    ensures |digest| == DIGEST_BYTES
  {
    data[ReadPrefix(data).value.end..]
  }

  /** The bytes of an inventory CID; a CIDv0 becomes the CIDv1 of the same multihash. */
  function BinaryCid(text: string): Option<Data> {
    if IsCidV0(text) then Some([1, 0x70] + Base58Number(text))
    else if IsCidV1(text) then PythonBase32(text[1..])
    else None
  }

  /** cid_bytes: the binary CID and its digest. */
  function CidBytes(text: string): Option<(Data, Data)> {
    var data := BinaryCid(text);
    if data.Some? && ExportableCid(data.value) then Some((data.value, DigestIn(data.value))) else None
  }

  /** _sha256_digest of the raw store: the multihash after version and codec. */
  function MultihashDigest(data: Data, at: nat): Option<Data> {
    var m := ReadMultihash(data, at);
    if m.Some? && m.value.0 == SHA2_256 && m.value.1 == DIGEST_BYTES && |data| == m.value.2 + DIGEST_BYTES
    then Some(data[m.value.2..])
    else None
  }

  function RawDigest(text: string): Option<Data> {
    if IsCidV0(text) then MultihashDigest(Base58Number(text), 0)
    else if IsCidV1(text) then
      var data := PythonBase32(text[1..]);
      if data.None? then None
      else
        var v := VersionCodec(data.value);
        if v.None? || v.value.0 != 1 then None else MultihashDigest(data.value[v.value.2..], 0)
    else None
  }

  /** The codec of a CIDv1 text, where it can be read, is one the exporter knows. */
  predicate KnownCodec(text: string) {
    IsCidV1(text) ==>
      var data := PythonBase32(text[1..]);
      data.Some? ==>
        var v := VersionCodec(data.value);
        v.Some? ==> v.value.1 in CODECS
  }

  lemma {:induction false} GroupsShift(before: Data, data: Data, at: nat, length: nat, value: nat)
    requires length <= MAX_VARINT_BYTES
    ensures Groups(before + data, |before| + at, length, value) == Groups(data, at, length, value)
    decreases MAX_VARINT_BYTES - length
  {
    hide Group;
    GroupsStep(before + data, |before| + at, length, value);
    GroupsStep(data, at, length, value);
    if length < MAX_VARINT_BYTES && at < |data| && data[at] >= 128 {
      GroupsShift(before, data, at + 1, length + 1, value + Group(data[at], length));
    }
  }

  lemma MultihashShift(before: Data, data: Data)
    ensures MultihashDigest(before + data, |before|) == MultihashDigest(data, 0)
  {
    hide Groups;
    var all := before + data;
    GroupsShift(before, data, 0, 0, 0);
    var code := ReadNumber(data, 0);
    if code.Some? {
      GroupsShift(before, data, code.value.length, 0, 0);
    }
    var m := ReadMultihash(data, 0);
    if m.Some? {
      assert all[|before| + m.value.2..] == data[m.value.2..];
    }
  }

  lemma CidV0Prefix(mh: Data)
    ensures VersionCodec([1, 0x70] + mh) == Some((1, 0x70, 2))
  {
    var data := [1, 0x70] + mh;
    assert data[0] == 1 && data[1] == 0x70;
    assert ReadNumber(data, 0) == Some(Number(1, 1)) && ReadNumber(data, 1) == Some(Number(0x70, 1));
  }

  /** A binary CID is exportable exactly when its multihash has a digest; then it is the same one. */
  lemma ExportableDigest(data: Data)
    requires VersionCodec(data).Some?
    ensures var v := VersionCodec(data).value;
            var digest := MultihashDigest(data[v.2..], 0);
            && (ExportableCid(data) <==> v.0 == 1 && v.1 in CODECS && digest.Some?)
            && (ExportableCid(data) ==> digest == Some(DigestIn(data)))
  {
    hide VersionCodec, ReadMultihash;
    var at := VersionCodec(data).value.2;
    assert data == data[..at] + data[at..];
    MultihashShift(data[..at], data[at..]);
  }

  /**
   The exporter and the raw store name the same digest for every inventory CID, and the exporter
   accepts exactly the raw store's CIDs whose codec it knows.
   */
  lemma DigestsAgree(text: string)
    ensures CidBytes(text).Some? <==> RawDigest(text).Some? && KnownCodec(text)
    ensures CidBytes(text).Some? ==> RawDigest(text) == Some(CidBytes(text).value.1)
  {
    hide VersionCodec, MultihashDigest, Decode32, Base58Number;
    if IsCidV0(text) {
      var mh := Base58Number(text);
      CidV0Prefix(mh);
      ExportableDigest([1, 0x70] + mh);
      assert ([1, 0x70] + mh)[2..] == mh;
    } else if IsCidV1(text) && PythonBase32(text[1..]).Some? {
      var data := PythonBase32(text[1..]).value;
      if VersionCodec(data).Some? {
        ExportableDigest(data);
      }
    }
  }
}
