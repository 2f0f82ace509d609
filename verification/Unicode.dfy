/** JavaScript strings: UTF-16 code units, the scalar values they spell, and the UTF-8 bytes Buffer.from writes. */
module Unicode {
  import opened Bytes

  type Unit = x: int | 0 <= x < 0x1_0000
  type JsString = seq<Unit>

  type Scalar = x: int | 0 <= x < 0xD800 || 0xE000 <= x < 0x11_0000

  const REPLACEMENT: Scalar := 0xFFFD

  function Utf8Char(n: Scalar): (b: Data)
    ensures 1 <= |b| <= 4
  {
    var n1 := n / 0x40;
    var n2 := n1 / 0x40;
    var n3 := n2 / 0x40;
    if n < 0x80 then [n]
    else if n < 0x800 then [0xC0 + n1, 0x80 + n % 0x40]
    else if n < 0x1_0000 then [0xE0 + n2, 0x80 + n1 % 0x40, 0x80 + n % 0x40]
    else [0xF0 + n3, 0x80 + n2 % 0x40, 0x80 + n1 % 0x40, 0x80 + n % 0x40]
  }

  function Utf16Char(n: Scalar): (u: JsString)
    ensures 1 <= |u| <= 2
  {
    if n < 0x1_0000 then [n]
    else [0xD800 + (n - 0x1_0000) / 0x400, 0xDC00 + (n - 0x1_0000) % 0x400]
  }

  function Utf8Of(s: seq<Scalar>): Data {
    if s == [] then [] else Utf8Char(s[0]) + Utf8Of(s[1..])
  }

  function Utf16Of(s: seq<Scalar>): JsString {
    if s == [] then [] else Utf16Char(s[0]) + Utf16Of(s[1..])
  }

  predicate Lead(u: Unit) {
    0xD800 <= u < 0xDC00
  }

  predicate Trail(u: Unit) {
    0xDC00 <= u < 0xE000
  }

  predicate StartsPair(t: JsString) {
    |t| >= 2 && Lead(t[0]) && Trail(t[1])
  }

  /** What the units spell; a surrogate without its other half becomes U+FFFD. */
  function Scalars(t: JsString): seq<Scalar> {
    if t == [] then []
    else if StartsPair(t) then [0x1_0000 + (t[0] - 0xD800) * 0x400 + (t[1] - 0xDC00)] + Scalars(t[2..])
    else [if Lead(t[0]) || Trail(t[0]) then REPLACEMENT else t[0]] + Scalars(t[1..])
  }

  /** Buffer.from(text, "utf8") */
  function Utf8(t: JsString): Data {
    Utf8Of(Scalars(t))
  }

  /** The string with every unpaired surrogate replaced by U+FFFD. */
  function Repaired(t: JsString): JsString {
    Utf16Of(Scalars(t))
  }

  /** No surrogate without its other half. */
  predicate Paired(t: JsString) {
    t == [] ||
    if StartsPair(t) then Paired(t[2..]) else !Lead(t[0]) && !Trail(t[0]) && Paired(t[1..])
  }

  /** Neither an unpaired surrogate nor U+FFFD. */
  predicate Clear(t: JsString) {
    Paired(t) && REPLACEMENT !in t
  }

  /** U+1F600, a surrogate pair in JavaScript and four bytes in UTF-8; alone, its first half becomes U+FFFD. */
  lemma KnownCharacter()
    ensures Scalars([0xD83D, 0xDE00]) == [0x1_F600] && Utf8([0xD83D, 0xDE00]) == [0xF0, 0x9F, 0x98, 0x80]
    ensures Utf8([0xD83D]) == [0xEF, 0xBF, 0xBD] && Utf8([0xE9]) == [0xC3, 0xA9]
  {
    var pair: JsString := [0xD83D, 0xDE00];
    assert pair[2..] == [];
    assert Scalars(pair) == [0x1_F600];
    Utf8Single([0xD83D], 0xFFFD);
    Utf8Single([0xE9], 0xE9);
    var s: seq<Scalar> := [0x1_F600];
    assert s[1..] == [];
    assert Utf8Of(s) == Utf8Char(0x1_F600) + [];
  }

  lemma Utf8Single(t: JsString, n: Scalar)
    requires |t| == 1 && n == if 0xD800 <= t[0] < 0xE000 then 0xFFFD else t[0]
    ensures Utf8(t) == Utf8Char(n)
  {
    assert t[1..] == [];
    var s: seq<Scalar> := [n];
    assert Scalars(t) == s + [] == s;
    assert s[1..] == [];
    assert Utf8Of(s) == Utf8Char(n) + [];
  }

  // ----- the two orders

  /** At the first place where two encodings differ, the order of the characters shows. */
  lemma LexFirst(a: seq<int>, b: seq<int>, s: seq<int>, t: seq<int>, k: nat)
    requires k < |a| && k < |b| && a[..k] == b[..k] && a[k] != b[k]
    ensures LexLe(a + s, b + t) <==> a[k] < b[k]
  {
    if k > 0 {
      assert (a + s)[1..] == a[1..] + s && (b + t)[1..] == b[1..] + t;
      LexFirst(a[1..], b[1..], s, t, k - 1);
    }
  }

  lemma {:induction false} LexPrefix(p: seq<int>, a: seq<int>, b: seq<int>)
    ensures LexLe(p + a, p + b) <==> LexLe(a, b)
  {
    if p == [] {
      assert p + a == a && p + b == b;
    } else {
      assert (p + a)[1..] == p[1..] + a && (p + b)[1..] == p[1..] + b;
      LexPrefix(p[1..], a, b);
    }
  }

  /** UTF-8 keeps the order of scalar values. */
  lemma Utf8Order(x: Scalar, y: Scalar, s: Data, t: Data)
    requires x != y
    ensures LexLe(Utf8Char(x) + s, Utf8Char(y) + t) <==> x < y
    ensures Utf8Char(x) + s != Utf8Char(y) + t
  {
    var a, b := Utf8Char(x), Utf8Char(y);
    var k := Utf8Difference(x, y);
    LexFirst(a, b, s, t, k);
    assert (a + s)[k] != (b + t)[k];
  }

  /** The bits of a scalar value are all in its encoding, and the lead byte tells the length. */
  lemma Utf8Bits(n: Scalar)
    ensures var b: seq<int> := Utf8Char(n);
            && (|b| == 1 ==> n < 0x80 && n == b[0])
            && (|b| == 2 ==> 0xC0 <= b[0] < 0xE0 && 0x80 <= n < 0x800 && n + 0x3080 == 0x40 * b[0] + b[1])
            && (|b| == 3 ==> 0xE0 <= b[0] < 0xF0 && 0x800 <= n < 0x1_0000 &&
                             n + 0xE_2080 == 0x1000 * b[0] + 0x40 * b[1] + b[2])
            && (|b| == 4 ==> 0xF0 <= b[0] && 0x1_0000 <= n &&
                             n + 0x3C8_2080 == 0x4_0000 * b[0] + 0x1000 * b[1] + 0x40 * b[2] + b[3])
            && forall i :: 1 <= i < |b| ==> 0x80 <= b[i] < 0xC0
  {
  }

  lemma Utf8Difference(x: Scalar, y: Scalar) returns (k: nat)
    requires x != y
    ensures var a, b := Utf8Char(x), Utf8Char(y);
            k < |a| && k < |b| && a[..k] == b[..k] && a[k] != b[k] && (a[k] < b[k] <==> x < y)
  {
    var a, b := Utf8Char(x), Utf8Char(y);
    Utf8Bits(x);
    Utf8Bits(y);
    hide Utf8Char;
    k := if a[0] != b[0] then 0 else if a[1] != b[1] then 1 else if a[2] != b[2] then 2 else 3;
  }

  /** One scalar is in U+E000..U+FFFF and the other beyond: UTF-16 puts the other first. */
  predicate Crosses(x: Scalar, y: Scalar) {
    0xE000 <= x < 0x1_0000 <= y || 0xE000 <= y < 0x1_0000 <= x
  }

  lemma Utf16Order(x: Scalar, y: Scalar, s: JsString, t: JsString)
    requires x != y
    ensures LexLe(Utf16Char(x) + s, Utf16Char(y) + t) <==> if Crosses(x, y) then y < x else x < y
    ensures Utf16Char(x) + s != Utf16Char(y) + t
  {
    var a, b := Utf16Char(x), Utf16Char(y);
    var k := if a[0] != b[0] then 0 else 1;
    LexFirst(a, b, s, t, k);
    assert (a + s)[k] != (b + t)[k];
  }

  lemma {:induction false} Utf8OfInjective(a: seq<Scalar>, b: seq<Scalar>)
    requires Utf8Of(a) == Utf8Of(b)
    ensures a == b
  {
    if a != [] && b != [] {
      if a[0] != b[0] {
        Utf8Order(a[0], b[0], Utf8Of(a[1..]), Utf8Of(b[1..]));
      }
      var p := Utf8Char(a[0]);
      assert Utf8Of(a)[|p|..] == Utf8Of(a[1..]) && Utf8Of(b)[|p|..] == Utf8Of(b[1..]);
      Utf8OfInjective(a[1..], b[1..]);
      assert a == [a[0]] + a[1..] && b == [b[0]] + b[1..];
    }
  }

  /** The first scalars in which two spellings differ cross. */
  predicate CrossesFirst(a: seq<Scalar>, b: seq<Scalar>) {
    a != [] && b != [] && if a[0] == b[0] then CrossesFirst(a[1..], b[1..]) else Crosses(a[0], b[0])
  }

  /** UTF-16 and UTF-8 order two spellings alike exactly when their first difference does not cross. */
  lemma {:induction false} SpellingOrders(a: seq<Scalar>, b: seq<Scalar>)
    requires a != b
    ensures (LexLe(Utf16Of(a), Utf16Of(b)) <==> LexLe(Utf8Of(a), Utf8Of(b))) <==> !CrossesFirst(a, b)
  {
    if a != [] && b != [] {
      if a[0] == b[0] {
        LexPrefix(Utf8Char(a[0]), Utf8Of(a[1..]), Utf8Of(b[1..]));
        LexPrefix(Utf16Char(a[0]), Utf16Of(a[1..]), Utf16Of(b[1..]));
        assert a == [a[0]] + a[1..] && b == [b[0]] + b[1..];
        SpellingOrders(a[1..], b[1..]);
      } else {
        Utf8Order(a[0], b[0], Utf8Of(a[1..]), Utf8Of(b[1..]));
        Utf16Order(a[0], b[0], Utf16Of(a[1..]), Utf16Of(b[1..]));
      }
    }
  }

  // ----- strings and their bytes

  /** Two strings have the same bytes exactly when they spell the same scalars. */
  lemma SameBytes(a: JsString, b: JsString)
    ensures Utf8(a) == Utf8(b) <==> Scalars(a) == Scalars(b)
  {
    if Utf8(a) == Utf8(b) {
      Utf8OfInjective(Scalars(a), Scalars(b));
    }
  }

  /** A string is what it spells exactly when no surrogate is unpaired. */
  lemma {:induction false} PairedExact(t: JsString)
    ensures Paired(t) <==> Repaired(t) == t
    decreases |t|
  {
    if t != [] {
      var s := Scalars(t);
      if StartsPair(t) {
        PairedExact(t[2..]);
        assert t == t[..2] + t[2..];
        assert s[1..] == Scalars(t[2..]);
        assert Utf16Char(s[0]) == t[..2];
        assert Repaired(t)[2..] == Repaired(t[2..]);
      } else {
        PairedExact(t[1..]);
        assert t == [t[0]] + t[1..];
        assert s[1..] == Scalars(t[1..]);
        assert Repaired(t) == [s[0]] + Repaired(t[1..]);
        assert Repaired(t)[1..] == Repaired(t[1..]);
      }
    }
  }

  /** U+FFFD is not spelled exactly when it is neither written nor stands for an unpaired surrogate. */
  lemma {:induction false} ClearExact(t: JsString)
    ensures Clear(t) <==> REPLACEMENT !in Scalars(t)
    decreases |t|
  {
    if t != [] {
      if StartsPair(t) {
        ClearExact(t[2..]);
        assert t == t[..2] + t[2..];
      } else {
        ClearExact(t[1..]);
        assert t == [t[0]] + t[1..];
      }
    }
  }

  /** Another string with the same bytes. */
  lemma {:induction false} Twin(t: JsString) returns (u: JsString)
    requires !Clear(t)
    ensures u != t && Scalars(u) == Scalars(t)
    decreases |t|
  {
    if StartsPair(t) {
      assert t == t[..2] + t[2..];
      var rest := Twin(t[2..]);
      u := t[..2] + rest;
      assert u[2..] == rest && u[0] == t[0] && u[1] == t[1];
    } else if Lead(t[0]) || Trail(t[0]) {
      u := [REPLACEMENT] + t[1..];
      assert u[1..] == t[1..];
    } else if t[0] == REPLACEMENT {
      u := [0xDC00] + t[1..];
      assert u[1..] == t[1..];
    } else {
      assert t == [t[0]] + t[1..];
      var rest := Twin(t[1..]);
      u := [t[0]] + rest;
      assert u[1..] == rest;
    }
  }

  /** A string is the only one with its bytes exactly when it has neither an unpaired surrogate nor U+FFFD. */
  lemma BytesUnique(t: JsString)
    ensures (forall u :: Utf8(u) == Utf8(t) ==> u == t) <==> Clear(t)
  {
    hide Utf8;
    if Clear(t) {
      forall u | Utf8(u) == Utf8(t)
        ensures u == t
      {
        SameBytes(u, t);
        ClearIsOnly(t, u);
      }
    } else {
      var u := Twin(t);
      SameBytes(u, t);
    }
  }

  lemma ClearIsOnly(t: JsString, u: JsString)
    requires Clear(t) && Scalars(u) == Scalars(t)
    ensures u == t
  {
    ClearExact(t);
    ClearExact(u);
    PairedExact(t);
    PairedExact(u);
  }

  /** Replacing the unpaired surrogates changes the order of the two strings. */
  predicate RepairMoves(a: JsString, b: JsString) {
    LexLe(a, b) != LexLe(Repaired(a), Repaired(b))
  }

  /**
   JavaScript's order of two strings is that of their bytes exactly when neither, or each, of two things
   turns it round: replacing their unpaired surrogates, and a first difference that crosses.
   */
  lemma OrdersAgree(a: JsString, b: JsString)
    requires Utf8(a) != Utf8(b)
    ensures (LexLe(a, b) <==> LexLe(Utf8(a), Utf8(b))) <==> (RepairMoves(a, b) <==> CrossesFirst(Scalars(a), Scalars(b)))
    ensures Paired(a) && Paired(b) ==> !RepairMoves(a, b)
  {
    hide LexLe, CrossesFirst;
    SameBytes(a, b);
    SpellingOrders(Scalars(a), Scalars(b));
    PairedExact(a);
    PairedExact(b);
  }
}
