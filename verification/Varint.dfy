/** The unsigned varints of deploy/carv2_zstd.py and the open file they are read from. */
module Varint {
  import opened Bytes

  datatype ArchiveError =
    | NegativeVarint | TruncatedVarint | VarintTooLarge | InvalidVarint
    | InvalidHeaderSize | TruncatedData | FrameExceedsData | UnsupportedVersion | UnsupportedHash
    | CidLongerThanFrame | DigestMismatch | TooManyBlocks | TrailingOrMissing | NoBlocks
    | OutOfBounds | NotCarV2 | UnsupportedCharacteristics | InvalidOffsets | IndexMissing | IndexDiffers | PackError

  const MAX_VARINT_BYTES: nat := 10

  /** The shortest varint of `value`. */
  function Uvarint(value: nat): (out: Data)
    ensures |out| > 0
  {
    if value < 128 then [value] else [value % 128 + 128] + Uvarint(value / 128)
  }

  /** Seven bits a byte, the lowest first. */
  function SevenBits(d: Data): nat {
    if d == [] then 0 else d[0] % 128 + 128 * SevenBits(d[1..])
  }

  /** The bytes hold the value's bits, the last byte alone has no high bit, and no byte could be left out. */
  lemma {:induction false} UvarintBits(value: nat)
    ensures var d := Uvarint(value);
            && SevenBits(d) == value
            && (forall i :: 0 <= i < |d| ==> (d[i] >= 128 <==> i + 1 < |d|))
            && (|d| > 1 ==> d[|d| - 1] > 0)
    decreases value
  {
    if value >= 128 {
      UvarintBits(value / 128);
      var d, rest := Uvarint(value), Uvarint(value / 128);
      assert d[1..] == rest;
      assert |rest| == 1 ==> rest == [value / 128];
    }
  }

  /** 300 is AC 02. */
  lemma Known300()
    ensures Uvarint(300) == [0xAC, 0x02]
  {
  }

  /** uvarint: low seven bits first, the high bit set on every byte but the last. */
  method EncodeUvarint(value: int) returns (r: Result<Data, ArchiveError>)
    ensures value < 0 ==> r == Err(NegativeVarint)
    ensures value >= 0 ==> r == Ok(Uvarint(value))
  {
    if value < 0 {
      return Err(NegativeVarint);
    }
    var rest: nat, out: Data := value, [];
    while rest >= 128
      invariant out + Uvarint(rest) == Uvarint(value)
    {
      assert out + Uvarint(rest) == out + [rest % 128 + 128] + Uvarint(rest / 128);
      out := out + [rest % 128 + 128];
      rest := rest / 128;
    }
    return Ok(out + [rest]);
  }

  datatype Number = Number(value: nat, length: nat)

  /** The low seven bits of the byte read after `length` others, in place. */
  function Group(b: Byte, length: nat): nat {
    (b % 128) * Pow(128, length)
  }

  /** The reader's loop: `length` bytes are read, `value` is their sum, the next byte is d[at]. */
  function Groups(d: Data, at: nat, length: nat, value: nat): (r: Result<Number, ArchiveError>)
    requires length <= MAX_VARINT_BYTES
    ensures r.Ok? ==> length < r.value.length <= MAX_VARINT_BYTES && at + r.value.length - length <= |d|
    decreases MAX_VARINT_BYTES - length
  {
    if length == MAX_VARINT_BYTES then Err(InvalidVarint)
    else if at >= |d| then Err(TruncatedVarint)
    else
      var v := value + Group(d[at], length);
      if d[at] < 128 then Ok(Number(v, length + 1)) else Groups(d, at + 1, length + 1, v)
  }

  lemma GroupsStep(d: Data, at: nat, length: nat, value: nat)
    requires length <= MAX_VARINT_BYTES
    ensures Groups(d, at, length, value) ==
            if length == MAX_VARINT_BYTES then Err(InvalidVarint)
            else if at >= |d| then Err(TruncatedVarint)
            else if d[at] < 128 then Ok(Number(value + Group(d[at], length), length + 1))
            else Groups(d, at + 1, length + 1, value + Group(d[at], length))
  {
  }

  /** read_uvarint at offset `at`: any varint of at most ten bytes, minimal or not, up to `limit`. */
  function ReadVarint(d: Data, at: nat, limit: nat): (r: Result<Number, ArchiveError>)
    ensures r.Ok? ==> 0 < r.value.length && at + r.value.length <= |d| && r.value.value <= limit
  {
    var g := Groups(d, at, 0, 0);
    if g.Ok? && g.value.value > limit then Err(VarintTooLarge) else g
  }

  lemma {:induction false} UvarintLength(value: nat, n: nat)
    requires value < Pow(128, n) && n > 0
    ensures |Uvarint(value)| <= n
  {
    if value >= 128 {
      assert Pow(128, 1) == 128;
      UvarintLength(value / 128, n - 1);
    }
  }

  lemma Pow128()
    ensures Pow(128, 1) == 128 && Pow(128, 2) == 16384 && Pow(128, 3) == 2097152
    ensures Pow(128, 4) == 268435456 && Pow(128, 5) == 34359738368
    ensures Pow(128, 10) == 64 * TWO_TO_THE_64
  {
    assert Pow(128, 3) == 128 * Pow(128, 2);
    assert Pow(128, 4) == 128 * Pow(128, 3);
    assert Pow(128, 5) == 128 * Pow(128, 4);
    assert Pow(128, 6) == 128 * Pow(128, 5);
    assert Pow(128, 7) == 128 * Pow(128, 6);
    assert Pow(128, 8) == 128 * Pow(128, 7);
    assert Pow(128, 9) == 128 * Pow(128, 8);
    assert Pow(128, 10) == 128 * Pow(128, 9);
  }

  lemma SplitGroup(value: nat, length: nat)
    ensures Group(value % 128 + 128, length) + (value / 128) * Pow(128, length + 1) == value * Pow(128, length)
  {
    var q, r, p := value / 128, value % 128, Pow(128, length);
    assert value == 128 * q + r;
    assert (128 * q + r) * p == r * p + q * (128 * p);
  }

  lemma {:induction false} GroupsOfUvarint(d: Data, at: nat, length: nat, acc: nat, value: nat)
    requires length + |Uvarint(value)| <= MAX_VARINT_BYTES
    requires at + |Uvarint(value)| <= |d| && d[at..at + |Uvarint(value)|] == Uvarint(value)
    ensures Groups(d, at, length, acc) ==
            Ok(Number(acc + value * Pow(128, length), length + |Uvarint(value)|))
    decreases value
  {
    hide Groups, Pow;
    var u := Uvarint(value);
    assert d[at] == u[0] by { assert d[at] == d[at..at + |u|][0]; }
    GroupsStep(d, at, length, acc);
    if value >= 128 {
      var rest := Uvarint(value / 128);
      assert u[1..] == rest;
      assert d[at + 1..at + 1 + |rest|] == d[at..at + |u|][1..];
      GroupsOfUvarint(d, at + 1, length + 1, acc + Group(u[0], length), value / 128);
      SplitGroup(value, length);
    } else {
      assert Group(u[0], length) == value * Pow(128, length);
    }
  }

  /** A minimal varint of at most ten bytes reads back as its value, wherever it stands. */
  lemma ReadVarintOfUvarint(before: Data, value: nat, after: Data, limit: nat)
    requires value < 64 * TWO_TO_THE_64 && value <= limit
    ensures ReadVarint(before + Uvarint(value) + after, |before|, limit) ==
            Ok(Number(value, |Uvarint(value)|))
  {
    Pow128();
    UvarintLength(value, 10);
    var d := before + Uvarint(value) + after;
    assert d[|before|..|before| + |Uvarint(value)|] == Uvarint(value);
    GroupsOfUvarint(d, |before|, 0, 0, value);
    assert value * Pow(128, 0) == value;
  }

  /** The same `n` bytes stand at `a` in `d` and at `b` in `e`. */
  ghost predicate Agree(d: Data, a: nat, e: Data, b: nat, n: nat) {
    a + n <= |d| && b + n <= |e| && d[a..a + n] == e[b..b + n]
  }

  lemma AgreeAt(d: Data, a: nat, e: Data, b: nat, n: nat, i: nat)
    requires Agree(d, a, e, b, n) && i < n
    ensures d[a + i] == e[b + i]
  {
    assert d[a..a + n][i] == e[b..b + n][i];
  }

  lemma {:induction false} GroupsLocal(d: Data, a: nat, e: Data, b: nat, n: nat, i: nat, length: nat, value: nat)
    requires length <= MAX_VARINT_BYTES
    requires Agree(d, a, e, b, n)
    requires var r := Groups(d, a + i, length, value); r.Ok? && i + r.value.length - length <= n
    ensures Groups(e, b + i, length, value) == Groups(d, a + i, length, value)
    decreases MAX_VARINT_BYTES - length
  {
    AgreeAt(d, a, e, b, n, i);
    if d[a + i] >= 128 {
      GroupsLocal(d, a, e, b, n, i + 1, length + 1, value + Group(d[a + i], length));
    }
  }

  /** An accepted varint depends on its own bytes only. */
  lemma ReadVarintLocal(d: Data, a: nat, e: Data, b: nat, n: nat, i: nat, limit: nat)
    requires Agree(d, a, e, b, n)
    requires var r := ReadVarint(d, a + i, limit); r.Ok? && i + r.value.length <= n
    ensures ReadVarint(e, b + i, limit) == ReadVarint(d, a + i, limit)
  {
    GroupsLocal(d, a, e, b, n, i, 0, 0);
  }
}
