/** Byte strings, fixed-width integers and results shared by every component. */
module Bytes {

  type Byte = x: int | 0 <= x < 256
  type Data = seq<Byte>

  /** What a Python raise or a thrown refusal becomes. */
  datatype Result<+T, +E> = Ok(value: T) | Err(error: E) {
    predicate IsFailure() {
      Err?
    }

    function PropagateFailure<U>(): Result<U, E>
      requires Err?
    {
      Err(error)
    }

    function Extract(): T
      requires Ok?
    {
      value
    }
  }

  datatype Option<+T> = None | Some(value: T)

  const TWO_TO_THE_32: nat := 0x1_0000_0000
  const TWO_TO_THE_64: nat := 0x1_0000_0000_0000_0000

  function Min(a: int, b: int): int {
    if a < b then a else b
  }

  function Max(a: int, b: int): int {
    if a < b then b else a
  }

  function Pow(b: nat, e: nat): nat {
    if e == 0 then 1 else b * Pow(b, e - 1)
  }

  lemma DivMod(base: nat, x: nat) returns (q: nat, r: nat)
    requires base >= 1
    ensures q == x / base && r == x % base && x == base * q + r && r < base
  {
    q, r := x / base, x % base;
  }

  lemma LowDigit(base: nat, d: nat, v: nat, e: nat, w: nat)
    requires d < base && e < base && d + base * v == e + base * w
    ensures d == e && v == w
  {
    assert base * (w - v) == d - e;
    if w > v {
      AtLeast(base, w - v);
    } else if v > w {
      AtLeast(base, v - w);
    }
  }

  lemma AtLeast(base: nat, k: nat)
    requires k >= 1
    ensures base * k >= base
  {
  }

  /** A quotient and remainder are recognised by what they multiply back to. */
  lemma DivModIs(base: nat, x: nat, q: nat, r: nat)
    requires x == base * q + r && r < base
    ensures x / base == q && x % base == r
  {
    var q', r' := DivMod(base, x);
    LowDigit(base, r, q, r', q');
  }

  lemma {:induction false} PowPositive(b: nat, e: nat)
    requires b > 0
    ensures Pow(b, e) > 0
  {
    if e > 0 {
      PowPositive(b, e - 1);
    }
  }

  lemma Pow256()
    ensures Pow(256, 1) == 256
    ensures Pow(256, 2) == 65536
    ensures Pow(256, 4) == TWO_TO_THE_32
    ensures Pow(256, 8) == TWO_TO_THE_64
  {
    assert Pow(256, 3) == 256 * Pow(256, 2);
    assert Pow(256, 4) == 256 * Pow(256, 3);
    assert Pow(256, 5) == 256 * Pow(256, 4);
    assert Pow(256, 6) == 256 * Pow(256, 5);
    assert Pow(256, 7) == 256 * Pow(256, 6);
    assert Pow(256, 8) == 256 * Pow(256, 7);
  }

  /** `n` in `width` bytes, least significant first: struct.pack("<...") and to_bytes(..., "little"). */
  function LE(width: nat, n: nat): (d: Data)
    ensures |d| == width
  {
    if width == 0 then [] else [n % 256] + LE(width - 1, n / 256)
  }

  function FromLE(d: Data): nat {
    if d == [] then 0 else d[0] + 256 * FromLE(d[1..])
  }

  lemma {:induction false} FromLEOfLE(width: nat, n: nat)
    requires n < Pow(256, width)
    ensures FromLE(LE(width, n)) == n
  {
    if width > 0 {
      FromLEOfLE(width - 1, n / 256);
      assert LE(width, n)[1..] == LE(width - 1, n / 256);
    }
  }

  lemma {:induction false} LEOfFromLE(d: Data)
    ensures FromLE(d) < Pow(256, |d|)
    ensures LE(|d|, FromLE(d)) == d
  {
    if d != [] {
      LEOfFromLE(d[1..]);
      assert FromLE(d) / 256 == FromLE(d[1..]);
      assert FromLE(d) % 256 == d[0];
      assert d == [d[0]] + d[1..];
    }
  }

  /** `n` in `width` bytes, most significant first: to_bytes(width, "big"). */
  function BE(width: nat, n: nat): (d: Data)
    ensures |d| == width
  {
    if width == 0 then [] else BE(width - 1, n / 256) + [n % 256]
  }

  /** The number in network byte order. */
  function FromBE(d: Data): nat {
    if d == [] then 0 else 256 * FromBE(d[..|d| - 1]) + d[|d| - 1]
  }

  lemma {:induction false} FromBEOfBE(width: nat, n: nat)
    requires n < Pow(256, width)
    ensures FromBE(BE(width, n)) == n
  {
    if width > 0 {
      var d := BE(width, n);
      assert d[..width - 1] == BE(width - 1, n / 256);
      FromBEOfBE(width - 1, n / 256);
    }
  }

  /** The first byte of a little-endian number weighs least. */
  lemma {:induction false} LittleEndian(a: Data, b: Data)
    ensures FromLE(a + b) == FromLE(a) + Pow(256, |a|) * FromLE(b)
    ensures |a| == 1 ==> FromLE(a) == a[0]
    decreases |a|
  {
    if a == [] {
      assert a + b == b;
    } else {
      LittleEndian(a[1..], b);
      assert (a + b)[1..] == a[1..] + b;
      Regroup(256, Pow(256, |a| - 1), FromLE(b));
    }
  }

  /** The first byte of a big-endian number weighs most. */
  lemma {:induction false} BigEndian(b: Data, a: Data)
    ensures FromBE(b + a) == FromBE(b) * Pow(256, |a|) + FromBE(a)
    ensures |a| == 1 ==> FromBE(a) == a[0]
    decreases |a|
  {
    if a == [] {
      assert b + a == b;
    } else {
      var n := |a| - 1;
      BigEndian(b, a[..n]);
      assert (b + a)[..|b| + n] == b + a[..n];
      Regroup(256, Pow(256, n), FromBE(b));
    }
  }

  lemma Regroup(x: nat, y: nat, z: nat)
    ensures x * (y * z) == (x * y) * z == x * (z * y) == z * (x * y)
  {
  }

  lemma BEInjective(width: nat, n: nat, m: nat)
    requires n < Pow(256, width) && m < Pow(256, width)
    requires BE(width, n) == BE(width, m)
    ensures n == m
  {
    FromBEOfBE(width, n);
    FromBEOfBE(width, m);
  }

  function Ascii(text: string): (d: Data)
    ensures |d| == |text|
  {
    seq(|text|, i requires 0 <= i < |text| => text[i] as int % 256)
  }

  function Zeros(n: nat): (d: Data)
    ensures |d| == n
    ensures forall i :: 0 <= i < n ==> d[i] == 0
  {
    seq(n, _ => 0)
  }

  lemma SliceOfSlice<T>(s: seq<T>, a: nat, n: nat, i: nat, j: nat)
    requires i <= j <= n && a + n <= |s|
    ensures s[a + i..a + j] == s[a..a + n][i..j]
  {
    var t, u := s[a + i..a + j], s[a..a + n][i..j];
    assert |t| == |u|;
    forall k | 0 <= k < |t|
      ensures t[k] == u[k]
    {
      assert t[k] == s[a + i + k];
      assert u[k] == s[a..a + n][i + k];
    }
  }

  lemma Parts<T>(a: seq<T>, b: seq<T>, c: seq<T>, e: seq<T>)
    ensures var s, i, j := a + b + c + e, |a| + |b|, |a| + |b| + |c|;
            s[..|a|] == a && s[|a|..i] == b && s[i..j] == c && s[j..] == e
  {
  }

  /** Lexicographic order: Python on bytes, JavaScript on UTF-16 code units. */
  predicate LexLe(a: seq<int>, b: seq<int>) {
    a == [] || (b != [] && (a[0] < b[0] || (a[0] == b[0] && LexLe(a[1..], b[1..]))))
  }

  lemma {:induction false} LexTotal(a: seq<int>, b: seq<int>)
    ensures LexLe(a, b) || LexLe(b, a)
    ensures LexLe(a, b) && LexLe(b, a) ==> a == b
  {
    if a != [] && b != [] {
      LexTotal(a[1..], b[1..]);
      assert a == [a[0]] + a[1..] && b == [b[0]] + b[1..];
    }
  }

  lemma {:induction false} LexTransitive(a: seq<int>, b: seq<int>, c: seq<int>)
    requires LexLe(a, b) && LexLe(b, c)
    ensures LexLe(a, c)
  {
    if a != [] && a[0] == b[0] && b[0] == c[0] {
      LexTransitive(a[1..], b[1..], c[1..]);
    }
  }

  /** `a` is a beginning of `b`, or smaller where they first differ. */
  ghost predicate InOrder(a: seq<int>, b: seq<int>) {
    a <= b || exists k: nat :: FirstBelow(a, b, k)
  }

  ghost predicate FirstBelow(a: seq<int>, b: seq<int>, k: nat) {
    k < |a| && k < |b| && a[..k] == b[..k] && a[k] < b[k]
  }

  lemma {:induction false} LexExact(a: seq<int>, b: seq<int>)
    ensures LexLe(a, b) <==> InOrder(a, b)
  {
    if a != [] && b != [] {
      LexExact(a[1..], b[1..]);
      assert a == [a[0]] + a[1..] && b == [b[0]] + b[1..];
      if k: nat :| a[0] == b[0] && FirstBelow(a[1..], b[1..], k) {
        assert a[..k + 1] == [a[0]] + a[1..][..k] && b[..k + 1] == [b[0]] + b[1..][..k];
        assert FirstBelow(a, b, k + 1);
      }
      if k: nat :| FirstBelow(a, b, k) {
        if k > 0 {
          assert a[..k][0] == b[..k][0];
          assert a[1..][..k - 1] == a[..k][1..] && b[1..][..k - 1] == b[..k][1..];
          assert FirstBelow(a[1..], b[1..], k - 1);
        }
      }
      if a[0] < b[0] {
        assert FirstBelow(a, b, 0);
      }
    }
  }
}
