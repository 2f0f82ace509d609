/** base32 without padding (b32-encode, b32-decode) and the CIDs of the block entrance. */
module Base32 {
  import opened Bytes

  type Bit = x: int | 0 <= x < 2
  type Bits = seq<Bit>
  type Quintet = x: int | 0 <= x < 32

  /** `width` bits of `n`, most significant first. */
  function BitsOf(width: nat, n: nat): (b: Bits)
    ensures |b| == width
  {
    if width == 0 then [] else BitsOf(width - 1, n / 2) + [n % 2]
  }

  function Num(b: Bits): nat {
    if b == [] then 0 else 2 * Num(b[..|b| - 1]) + b[|b| - 1]
  }

  lemma {:induction false} NumBound(b: Bits)
    ensures Num(b) < Pow(2, |b|)
  {
    if b != [] {
      NumBound(b[..|b| - 1]);
    }
  }

  lemma {:induction false} BitsOfNum(b: Bits)
    ensures BitsOf(|b|, Num(b)) == b
  {
    if b != [] {
      BitsOfNum(b[..|b| - 1]);
      assert b == b[..|b| - 1] + [b[|b| - 1]];
    }
  }

  lemma {:induction false} NumOfBits(width: nat, n: nat)
    requires n < Pow(2, width)
    ensures Num(BitsOf(width, n)) == n
  {
    if width > 0 {
      NumOfBits(width - 1, n / 2);
      assert BitsOf(width, n)[..width - 1] == BitsOf(width - 1, n / 2);
    }
  }

  lemma {:induction false} NumAppend(a: Bits, b: Bits)
    ensures Num(a + b) == Num(a) * Pow(2, |b|) + Num(b)
  {
    if b == [] {
      assert a + b == a;
    } else {
      var front := b[..|b| - 1];
      assert (a + b)[..|a + b| - 1] == a + front;
      NumAppend(a, front);
      assert Num(a) * Pow(2, |b|) == 2 * (Num(a) * Pow(2, |front|));
    }
  }

  /** Every byte as eight bits, in order. */
  function ByteBits(buf: Data): (b: Bits)
    ensures |b| == 8 * |buf|
  {
    if buf == [] then [] else BitsOf(8, buf[0]) + ByteBits(buf[1..])
  }

  /** Every quintet as five bits, in order. */
  function QuintetBits(s: seq<Quintet>): (b: Bits)
    ensures |b| == 5 * |s|
  {
    if s == [] then [] else BitsOf(5, s[0]) + QuintetBits(s[1..])
  }

  lemma Pow2()
    ensures Pow(2, 5) == 32 && Pow(2, 8) == 256
  {
    assert Pow(2, 3) == 8;
    assert Pow(2, 4) == 16;
    assert Pow(2, 5) == 32;
    assert Pow(2, 6) == 64;
    assert Pow(2, 7) == 128;
  }

  function FiveBits(b: Bits): Quintet
    requires |b| == 5
  {
    Pow2();
    NumBound(b);
    Num(b)
  }

  /** Bits taken five at a time. */
  function Partition(b: Bits): seq<Quintet>
    requires |b| % 5 == 0
  {
    if b == [] then [] else [FiveBits(b[..5])] + Partition(b[5..])
  }

  ghost predicate AllZero(b: Bits) {
    forall i :: 0 <= i < |b| ==> b[i] == 0
  }

  function Pad(n: nat): (pad: Bits)
    ensures |pad| == n && AllZero(pad)
  {
    seq(n, _ => 0)
  }

  /** How many zeros fill `n` bits up to whole quintets. */
  function PadWidth(n: nat): (width: nat)
    ensures width < 5 && (n + width) % 5 == 0
  {
    (5 - n % 5) % 5
  }

  /** b32-encode: the bits padded with zeros to a multiple of five. */
  function Encode32(buf: Data): (s: seq<Quintet>) {
    var bits := ByteBits(buf);
    Partition(bits + Pad(PadWidth(|bits|)))
  }

  /** b32-decode: `bits` bits of `v` are still to be emitted. */
  function Decode32(s: seq<Quintet>, bits: nat, v: nat): Data {
    if s == [] then []
    else
      var v' := v % 256 * 32 + s[0];
      var bits' := bits + 5;
      PowPositive(2, Max(bits' - 8, 0));
      if bits' >= 8 then [v' / Pow(2, bits' - 8) % 256] + Decode32(s[1..], bits' - 8, v')
      else Decode32(s[1..], bits', v')
  }

  /** Whole bytes of a bit string; what is left over is dropped. */
  function Bytes8(b: Bits): Data {
    if |b| < 8 then []
    else
      Pow2();
      NumBound(b[..8]);
      [Num(b[..8])] + Bytes8(b[8..])
  }

  lemma {:induction false} PartitionBits(b: Bits)
    requires |b| % 5 == 0
    ensures QuintetBits(Partition(b)) == b
  {
    if b != [] {
      BitsOfNum(b[..5]);
      PartitionBits(b[5..]);
      assert Partition(b)[1..] == Partition(b[5..]);
      assert b == b[..5] + b[5..];
    }
  }

  lemma {:induction false} BitsPartition(s: seq<Quintet>)
    ensures Partition(QuintetBits(s)) == s
  {
    if s != [] {
      Pow2();
      NumOfBits(5, s[0]);
      BitsPartition(s[1..]);
      var b := QuintetBits(s);
      assert b[..5] == BitsOf(5, s[0]) && b[5..] == QuintetBits(s[1..]);
      assert s == [s[0]] + s[1..];
    }
  }

  lemma {:induction false} BytesOfByteBits(buf: Data, rest: Bits)
    requires |rest| < 8
    ensures Bytes8(ByteBits(buf) + rest) == buf
  {
    hide Num, Pow, BitsOf;
    var b := ByteBits(buf) + rest;
    if buf != [] {
      Pow2();
      NumOfBits(8, buf[0]);
      BytesOfByteBits(buf[1..], rest);
      assert b[..8] == BitsOf(8, buf[0]) && b[8..] == ByteBits(buf[1..]) + rest;
      assert buf == [buf[0]] + buf[1..];
    }
  }

  lemma {:induction false} BitsOfBytes8(b: Bits)
    ensures |b| - |b| % 8 == 8 * |Bytes8(b)| && ByteBits(Bytes8(b)) == b[..|b| - |b| % 8]
  {
    if |b| >= 8 {
      BitsOfNum(b[..8]);
      BitsOfBytes8(b[8..]);
      assert Bytes8(b)[1..] == Bytes8(b[8..]);
      assert b[..|b| - |b| % 8] == b[..8] + b[8..][..|b[8..]| - |b[8..]| % 8];
    }
  }

  lemma Pow2Table()
    ensures Pow(2, 0) == 1 && Pow(2, 1) == 2 && Pow(2, 2) == 4 && Pow(2, 3) == 8 && Pow(2, 4) == 16
    ensures Pow(2, 5) == 32 && Pow(2, 6) == 64 && Pow(2, 7) == 128 && Pow(2, 8) == 256
    ensures Pow(2, 9) == 512 && Pow(2, 10) == 1024 && Pow(2, 11) == 2048 && Pow(2, 12) == 4096
  {
    Pow2();
    assert Pow(2, 6) == 64;
    assert Pow(2, 7) == 128;
    assert Pow(2, 9) == 512;
    assert Pow(2, 10) == 1024;
    assert Pow(2, 11) == 2048;
  }

  lemma {:induction false} PowSplit(a: nat, b: nat)
    ensures Pow(2, a + b) == Pow(2, a) * Pow(2, b)
  {
    if a > 0 {
      PowSplit(a - 1, b);
    }
  }

  /** Masking to eight bits loses nothing that is still to be emitted. */
  lemma ShiftIn(v: nat, bits: nat, i: Quintet)
    requires bits < 8
    ensures Pow(2, bits) > 0 && Pow(2, bits + 5) > 0
    ensures (v % 256 * 32 + i) % Pow(2, bits + 5) == v % Pow(2, bits) * 32 + i
  {
    hide Pow;
    Pow2();
    PowSplit(bits, 5);
    PowSplit(bits, 8 - bits);
    PowPositive(2, bits);
    var p, m, q, r := Pow(2, bits), Pow(2, 8 - bits), v / 256, v % 256;
    var a, b := DivMod(p, r);
    assert v == p * (m * q + a) + b by {
      assert 256 * q == p * (m * q);
    }
    DivModIs(p, v, m * q + a, b);
    DivModIs(p * 32, r * 32 + i, a, b * 32 + i);
  }

  lemma ShiftOut(v: nat, k: nat, high: nat, low: nat)
    requires k <= 4 && high < 256 && low < Pow(2, k)
    requires Pow(2, k + 8) > 0 && v % Pow(2, k + 8) == high * Pow(2, k) + low
    ensures v / Pow(2, k) % 256 == high && v % Pow(2, k) == low
  {
    hide Pow;
    Pow2();
    PowSplit(k, 8);
    var p := Pow(2, k);
    var q, r := DivMod(p * 256, v);
    assert v == p * (256 * q + high) + low;
    DivModIs(p, v, 256 * q + high, low);
  }

  /** The decoder emits the bytes of the concatenated quintets, whatever its register holds above. */
  lemma {:induction false} DecodeIsBits(s: seq<Quintet>, bits: nat, v: nat, left: Bits)
    requires |left| == bits < 8
    requires Pow(2, bits) > 0 && Num(left) == v % Pow(2, bits)
    ensures Decode32(s, bits, v) == Bytes8(left + QuintetBits(s))
    decreases |s|
  {
    hide Pow, Num, BitsOf;
    if s == [] {
    } else {
      var i, v', bits' := s[0], v % 256 * 32 + s[0], bits + 5;
      var all := left + BitsOf(5, i);
      var rest := QuintetBits(s[1..]);
      assert left + QuintetBits(s) == all + rest;
      Pow2Table();
      NumOfBits(5, i);
      NumAppend(left, BitsOf(5, i));
      ShiftIn(v, bits, i);
      PowPositive(2, bits');
      if bits' >= 8 {
        PowPositive(2, bits' - 8);
        assert all == all[..8] + all[8..];
        NumAppend(all[..8], all[8..]);
        NumBound(all[..8]);
        NumBound(all[8..]);
        ShiftOut(v', bits' - 8, Num(all[..8]), Num(all[8..]));
        DecodeIsBits(s[1..], bits' - 8, v', all[8..]);
        assert (all + rest)[..8] == all[..8] && (all + rest)[8..] == all[8..] + rest;
      } else {
        DecodeIsBits(s[1..], bits', v', all);
      }
    }
  }

  lemma DecodeBits(s: seq<Quintet>)
    ensures Decode32(s, 0, 0) == Bytes8(QuintetBits(s))
  {
    assert Pow(2, 0) == 1;
    DecodeIsBits(s, 0, 0, []);
    assert [] + QuintetBits(s) == QuintetBits(s);
  }

  /** base32 decoding undoes base32 encoding of every byte string. */
  lemma Base32RoundTrip(buf: Data)
    ensures Decode32(Encode32(buf), 0, 0) == buf
  {
    hide Decode32, Partition, QuintetBits, ByteBits, Bytes8;
    var bits := ByteBits(buf);
    var pad := Pad(PadWidth(|bits|));
    DecodeBits(Encode32(buf));
    PartitionBits(bits + pad);
    BytesOfByteBits(buf, pad);
  }

  /** The bits a text carries beyond its last whole byte. */
  function Leftover(s: seq<Quintet>): Bits {
    var b := QuintetBits(s);
    b[|b| - |b| % 8..]
  }

  /** Encoding what was decoded keeps the whole bytes' bits and pads them with zeros. */
  lemma EncodeOfDecode(s: seq<Quintet>)
    ensures var b := QuintetBits(s);
            var n := |b| - |b| % 8;
            Encode32(Decode32(s, 0, 0)) == Partition(b[..n] + Pad(PadWidth(n)))
  {
    hide Decode32, Bytes8, ByteBits, Partition, QuintetBits, Pad;
    DecodeBits(s);
    BitsOfBytes8(QuintetBits(s));
  }

  /**
   Encoding undoes decoding exactly for texts without a spare character whose leftover bits are zero.
   */
  lemma CanonicalText(s: seq<Quintet>)
    ensures Encode32(Decode32(s, 0, 0)) == s <==> |Leftover(s)| < 5 && AllZero(Leftover(s))
  {
    hide Encode32, Decode32, Partition, QuintetBits;
    EncodeOfDecode(s);
    var b := QuintetBits(s);
    var n := |b| - |b| % 8;
    var bits, tail, pad := b[..n], b[n..], Pad(PadWidth(n));
    PartitionBits(bits + pad);
    assert b == bits + tail;
    if Encode32(Decode32(s, 0, 0)) == s {
      assert (bits + pad)[n..] == pad && b[n..] == tail;
    }
    if |tail| < 5 && AllZero(tail) {
      assert tail == pad;
      BitsPartition(s);
    }
  }

  // ----- the number that is kept

  /** The quintets as one number, most significant first. */
  function Number32(s: seq<Quintet>): nat {
    if s == [] then 0 else 32 * Number32(s[..|s| - 1]) + s[|s| - 1]
  }

  lemma {:induction false} QuintetBitsLast(s: seq<Quintet>, i: Quintet)
    ensures QuintetBits(s + [i]) == QuintetBits(s) + BitsOf(5, i)
  {
    if s == [] {
      assert [] + [i] == [i];
      assert [i][1..] == [];
    } else {
      assert (s + [i])[1..] == s[1..] + [i];
      QuintetBitsLast(s[1..], i);
    }
  }

  lemma {:induction false} NumberOfQuintets(s: seq<Quintet>)
    ensures Num(QuintetBits(s)) == Number32(s)
    decreases |s|
  {
    hide Num, BitsOf, QuintetBits;
    if s == [] {
      NoBits();
    } else {
      var n := |s| - 1;
      assert s == s[..n] + [s[n]];
      Pow2();
      NumOfBits(5, s[n]);
      QuintetBitsLast(s[..n], s[n]);
      NumAppend(QuintetBits(s[..n]), BitsOf(5, s[n]));
      NumberOfQuintets(s[..n]);
    }
  }

  lemma NoBits()
    ensures QuintetBits([]) == [] && ByteBits([]) == [] && Num([]) == 0
  {
  }

  lemma {:induction false} ByteBitsLast(d: Data, b: Byte)
    ensures ByteBits(d + [b]) == ByteBits(d) + BitsOf(8, b)
  {
    if d == [] {
      assert [] + [b] == [b];
      assert [b][1..] == [];
    } else {
      assert (d + [b])[1..] == d[1..] + [b];
      ByteBitsLast(d[1..], b);
    }
  }

  lemma {:induction false} NumberOfBytes(d: Data)
    ensures Num(ByteBits(d)) == FromBE(d)
    decreases |d|
  {
    hide Num, BitsOf, ByteBits;
    if d == [] {
      NoBits();
    } else {
      var n := |d| - 1;
      assert d == d[..n] + [d[n]];
      Pow2();
      NumOfBits(8, d[n]);
      ByteBitsLast(d[..n], d[n]);
      NumAppend(ByteBits(d[..n]), BitsOf(8, d[n]));
      NumberOfBytes(d[..n]);
    }
  }

  lemma {:induction false} NumOfPad(n: nat)
    ensures Num(Pad(n)) == 0
  {
    if n > 0 {
      assert Pad(n)[..n - 1] == Pad(n - 1);
      NumOfPad(n - 1);
    }
  }

  /** The text has as many characters as the bits need, and names the bytes' number with its spare bits zero. */
  lemma Encode32Number(buf: Data)
    ensures |Encode32(buf)| == (8 * |buf| + 4) / 5
    ensures Number32(Encode32(buf)) == FromBE(buf) * Pow(2, PadWidth(8 * |buf|))
  {
    hide Num, ByteBits, QuintetBits, Partition, Pow, Number32, FromBE;
    var bits, pad := ByteBits(buf), Pad(PadWidth(8 * |buf|));
    PartitionBits(bits + pad);
    NumberOfQuintets(Encode32(buf));
    NumAppend(bits, pad);
    NumOfPad(|pad|);
    NumberOfBytes(buf);
  }
}
