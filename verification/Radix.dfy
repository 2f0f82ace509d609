/** base58btc by its carry loops, both directions at once (b58-encode, b58-decode). */
module Radix {
  import opened Bytes

  type Digits = seq<nat>

  ghost predicate Below(base: nat, ds: Digits) {
    forall i :: 0 <= i < |ds| ==> ds[i] < base
  }

  /** The inner loop that appends what is left of the carry. */
  function Spill(base: nat, carry: nat): Digits
    requires base >= 2
  {
    if carry == 0 then [] else [carry % base] + Spill(base, carry / base)
  }

  /** One outer step: `ds`, least significant first, times `factor` plus `carry`. */
  function MulAdd(base: nat, ds: Digits, factor: nat, carry: nat): Digits
    requires base >= 2
    decreases |ds|
  {
    if ds == [] then Spill(base, carry)
    else
      var x := ds[0] * factor + carry;
      [x % base] + MulAdd(base, ds[1..], factor, x / base)
  }

  /** The reduce over the input digits, most significant first. */
  function Fold(base: nat, from: nat, acc: Digits, input: Digits): Digits
    requires base >= 2
    decreases |input|
  {
    if input == [] then acc else Fold(base, from, MulAdd(base, acc, from, input[0]), input[1..])
  }

  function LeadingZeros(ds: Digits): (n: nat)
    ensures n <= |ds| && (forall i :: 0 <= i < n ==> ds[i] == 0) && (n < |ds| ==> ds[n] != 0)
  {
    if ds == [] || ds[0] != 0 then 0
    else
      var n := LeadingZeros(ds[1..]);
      assert forall i :: 0 < i < 1 + n ==> ds[i] == ds[1..][i - 1];
      1 + n
  }

  function Reverse(ds: Digits): (r: Digits)
    ensures |r| == |ds| && forall i :: 0 <= i < |ds| ==> r[i] == ds[|ds| - 1 - i]
  {
    if ds == [] then [] else Reverse(ds[1..]) + [ds[0]]
  }

  function ZeroDigits(n: nat): (r: Digits)
    ensures |r| == n && forall i :: 0 <= i < n ==> r[i] == 0
  {
    seq(n, _ => 0)
  }

  /** Digits in base `from` rewritten in base `to`, one leading zero for each leading zero. */
  function Convert(from: nat, to: nat, input: Digits): Digits
    requires to >= 2
  {
    ZeroDigits(LeadingZeros(input)) + Reverse(Fold(to, from, [], input))
  }

  // ----- values

  function Value(base: nat, ds: Digits): nat {
    if ds == [] then 0 else ds[0] + base * Value(base, ds[1..])
  }

  /** Digits below the base and no zero on top. */
  ghost predicate Normal(base: nat, ds: Digits) {
    Below(base, ds) && (ds != [] ==> ds[|ds| - 1] != 0)
  }

  lemma SpillStep(base: nat, carry: nat) returns (q: nat, r: nat)
    requires base >= 2 && carry > 0
    ensures carry == base * q + r && r < base && q < carry
    ensures Spill(base, carry) == [r] + Spill(base, q)
  {
    q, r := DivMod(base, carry);
    assert q < carry by {
      if q > 0 {
        assert base * q >= 2 * q;
      }
    }
  }

  lemma {:induction false} SpillValue(base: nat, carry: nat)
    requires base >= 2
    ensures Value(base, Spill(base, carry)) == carry && Normal(base, Spill(base, carry))
    ensures carry > 0 ==> Spill(base, carry) != []
  {
    hide Spill;
    if carry > 0 {
      var q, r := SpillStep(base, carry);
      SpillValue(base, q);
      PushDigit(base, r, Spill(base, q));
    } else {
      SpillNothing(base);
    }
  }

  lemma SpillNothing(base: nat)
    requires base >= 2
    ensures Spill(base, 0) == []
  {
  }

  /** Putting a digit below a normal number; it must not be zero when nothing is above it. */
  lemma PushDigit(base: nat, d: nat, ds: Digits)
    requires Normal(base, ds) && d < base && (ds == [] ==> d != 0)
    ensures Normal(base, [d] + ds) && Value(base, [d] + ds) == d + base * Value(base, ds)
  {
    assert ([d] + ds)[1..] == ds;
  }

  lemma Carry(base: nat, v: nat, factor: nat, d: nat, carry: nat, q: nat, r: nat)
    requires d * factor + carry == base * q + r
    ensures r + base * (v * factor + q) == (d + base * v) * factor + carry
  {
    assert (d + base * v) * factor == d * factor + base * (v * factor);
    assert base * (v * factor + q) == base * (v * factor) + base * q;
  }

  lemma {:induction false} MulAddValue(base: nat, ds: Digits, factor: nat, carry: nat)
    requires base >= 2
    ensures Value(base, MulAdd(base, ds, factor, carry)) == Value(base, ds) * factor + carry
    decreases |ds|
  {
    if ds == [] {
      SpillValue(base, carry);
    } else {
      var q, r := DivMod(base, ds[0] * factor + carry);
      var rest := MulAdd(base, ds[1..], factor, q);
      MulAddValue(base, ds[1..], factor, q);
      assert MulAdd(base, ds, factor, carry) == [r] + rest;
      assert ([r] + rest)[1..] == rest;
      Carry(base, Value(base, ds[1..]), factor, ds[0], carry, q, r);
    }
  }

  lemma {:induction false} MulAddNormal(base: nat, ds: Digits, factor: nat, carry: nat)
    requires base >= 2 && factor >= 1 && Normal(base, ds)
    ensures Normal(base, MulAdd(base, ds, factor, carry))
    decreases |ds|
  {
    if ds == [] {
      SpillValue(base, carry);
    } else {
      var x := ds[0] * factor + carry;
      var q, r := DivMod(base, x);
      var rest := MulAdd(base, ds[1..], factor, q);
      MulAddNormal(base, ds[1..], factor, q);
      assert MulAdd(base, ds, factor, carry) == [r] + rest;
      if rest == [] {
        assert ds[1..] == [] && q == 0;
        assert ds[0] * factor > 0;
      }
    }
  }

  lemma {:induction false} NormalPositive(base: nat, ds: Digits, factor: nat)
    requires base >= 2 && factor >= 1 && Normal(base, ds) && ds != []
    ensures Value(base, ds) * factor > 0
  {
    if |ds| > 1 {
      NormalPositive(base, ds[1..], 1);
      assert base * Value(base, ds[1..]) > 0;
    }
    assert Value(base, ds) > 0;
  }

  /** A number has one normal form in each base. */
  lemma {:induction false} NormalUnique(base: nat, a: Digits, b: Digits)
    requires base >= 2 && Normal(base, a) && Normal(base, b) && Value(base, a) == Value(base, b)
    ensures a == b
  {
    if a == [] || b == [] {
      if a != [] { NormalPositive(base, a, 1); }
      if b != [] { NormalPositive(base, b, 1); }
    } else {
      LowDigit(base, a[0], Value(base, a[1..]), b[0], Value(base, b[1..]));
      NormalUnique(base, a[1..], b[1..]);
      assert a == [a[0]] + a[1..] && b == [b[0]] + b[1..];
    }
  }

  /** The number the input names, read from its most significant digit. */
  function Named(from: nat, acc: nat, input: Digits): nat
    decreases |input|
  {
    if input == [] then acc else Named(from, acc * from + input[0], input[1..])
  }

  lemma {:induction false} FoldValue(base: nat, from: nat, acc: Digits, input: Digits)
    requires base >= 2 && from >= 1 && Normal(base, acc)
    ensures var r := Fold(base, from, acc, input);
            Value(base, r) == Named(from, Value(base, acc), input) && Normal(base, r)
    decreases |input|
  {
    if input != [] {
      MulAddValue(base, acc, from, input[0]);
      MulAddNormal(base, acc, from, input[0]);
      FoldValue(base, from, MulAdd(base, acc, from, input[0]), input[1..]);
    }
  }

  lemma {:induction false} NamedReverse(base: nat, acc: Digits, input: Digits)
    ensures Named(base, Value(base, acc), input) == Value(base, Reverse(input) + acc)
    decreases |input|
  {
    if input == [] {
      assert [] + acc == acc;
    } else {
      var next := [input[0]] + acc;
      assert next[1..] == acc;
      NamedReverse(base, next, input[1..]);
      assert Reverse(input) + acc == Reverse(input[1..]) + next;
      assert Value(base, acc) * base == base * Value(base, acc);
    }
  }

  lemma {:induction false} NamedSkipsZeros(from: nat, n: nat, input: Digits)
    ensures Named(from, 0, ZeroDigits(n) + input) == Named(from, 0, input)
  {
    var all := ZeroDigits(n) + input;
    if n == 0 {
      assert all == input;
    } else {
      assert all[1..] == ZeroDigits(n - 1) + input;
      NamedSkipsZeros(from, n - 1, input);
    }
  }

  lemma ReverseTwice(ds: Digits)
    ensures Reverse(Reverse(ds)) == ds
  {
  }

  lemma LeadingZerosOf(n: nat, ds: Digits)
    requires ds != [] ==> ds[0] != 0
    ensures LeadingZeros(ZeroDigits(n) + ds) == n
  {
    hide LeadingZeros, ZeroDigits;
    var all := ZeroDigits(n) + ds;
    assert forall i :: 0 <= i < n ==> all[i] == 0;
    assert ds != [] ==> all[n] == ds[0];
  }

  // ----- the number that is kept

  /** The last digit counts ones, and every other one a base times more. */
  lemma {:induction false} NamedAppend(base: nat, acc: nat, ds: Digits, d: nat)
    ensures Named(base, acc, ds + [d]) == base * Named(base, acc, ds) + d
    decreases |ds|
  {
    if ds == [] {
      assert [d][1..] == [];
      assert [] + [d] == [d];
    } else {
      assert (ds + [d])[1..] == ds[1..] + [d];
      NamedAppend(base, acc * base + ds[0], ds[1..], d);
    }
  }

  lemma NamedIsValue(base: nat, ds: Digits)
    ensures Named(base, 0, ds) == Value(base, Reverse(ds))
  {
    NamedReverse(base, [], ds);
    assert Reverse(ds) + [] == Reverse(ds);
  }

  /** Converting keeps the number and the leading zeros, and its digits are below the base. */
  lemma ConvertKeeps(from: nat, to: nat, input: Digits)
    requires from >= 1 && to >= 2
    ensures var out := Convert(from, to, input);
            && Named(to, 0, out) == Named(from, 0, input)
            && LeadingZeros(out) == LeadingZeros(input) && Below(to, out)
  {
    var f := Fold(to, from, [], input);
    FoldValue(to, from, [], input);
    NamedSkipsZeros(to, LeadingZeros(input), Reverse(f));
    NamedIsValue(to, Reverse(f));
    ReverseTwice(f);
    LeadingZerosOf(LeadingZeros(input), Reverse(f));
  }

  /** Without its leading zeros a number is in normal form, least significant digit first. */
  lemma Stripped(base: nat, ds: Digits)
    requires base >= 2 && Below(base, ds)
    ensures var z := LeadingZeros(ds);
            var top := Reverse(ds[z..]);
            ds == ZeroDigits(z) + Reverse(top) && Normal(base, top) && Value(base, top) == Named(base, 0, ds)
  {
    hide Value, Named, Reverse, LeadingZeros, ZeroDigits;
    var z := LeadingZeros(ds);
    var rest := ds[z..];
    assert ds[..z] == ZeroDigits(z);
    assert ds == ds[..z] + rest;
    NamedSkipsZeros(base, z, rest);
    NamedIsValue(base, rest);
    ReverseTwice(rest);
  }

  /** The number, the leading zeros and the base leave one choice of digits. */
  lemma DigitsDetermined(base: nat, a: Digits, b: Digits)
    requires base >= 2 && Below(base, a) && Below(base, b)
    requires Named(base, 0, a) == Named(base, 0, b) && LeadingZeros(a) == LeadingZeros(b)
    ensures a == b
  {
    hide Value, Named, Normal, Below;
    Stripped(base, a);
    Stripped(base, b);
    NormalUnique(base, Reverse(a[LeadingZeros(a)..]), Reverse(b[LeadingZeros(b)..]));
  }

  /** Converting to another base and back is the identity, leading zeros included. */
  lemma ConvertInverse(from: nat, to: nat, input: Digits)
    requires from >= 2 && to >= 2 && Below(from, input)
    ensures Convert(to, from, Convert(from, to, input)) == input
  {
    hide Convert, Named, LeadingZeros;
    var out := Convert(from, to, input);
    ConvertKeeps(from, to, input);
    ConvertKeeps(to, from, out);
    DigitsDetermined(from, Convert(to, from, out), input);
  }

  // ----- base58btc

  /** The alphabet 1-9, A-Z without I and O, a-z without l, by position. */
  function Char58(i: nat): char
    requires i < 58
  {
    if i < 9 then '1' + i as char
    else if i < 17 then 'A' + (i - 9) as char
    else if i < 22 then 'J' + (i - 17) as char
    else if i < 33 then 'P' + (i - 22) as char
    else if i < 44 then 'a' + (i - 33) as char
    else 'm' + (i - 44) as char
  }

  /** indexOf in the alphabet, or -1. */
  function Index58(c: char): (i: int)
    ensures -1 <= i < 58
    ensures i >= 0 ==> Char58(i) == c
  {
    if '1' <= c <= '9' then (c - '1') as int
    else if 'A' <= c <= 'H' then 9 + (c - 'A') as int
    else if 'J' <= c <= 'N' then 17 + (c - 'J') as int
    else if 'P' <= c <= 'Z' then 22 + (c - 'P') as int
    else if 'a' <= c <= 'k' then 33 + (c - 'a') as int
    else if 'm' <= c <= 'z' then 44 + (c - 'm') as int
    else -1
  }

  predicate Text58(text: string) {
    forall i :: 0 <= i < |text| ==> Index58(text[i]) >= 0
  }

  function Indices58(text: string): (ds: Digits)
    requires Text58(text)
    ensures |ds| == |text| && Below(58, ds)
  {
    seq(|text|, i requires 0 <= i < |text| => Index58(text[i]))
  }

  function Chars58(ds: Digits): (text: string)
    requires Below(58, ds)
    ensures |text| == |ds| && forall i :: 0 <= i < |ds| ==> text[i] == Char58(ds[i])
  {
    seq(|ds|, i requires 0 <= i < |ds| => Char58(ds[i]))
  }

  lemma ConvertBelow(from: nat, to: nat, input: Digits)
    requires to >= 2 && from >= 1
    ensures Below(to, Convert(from, to, input))
  {
    FoldValue(to, from, [], input);
  }

  /** b58-encode */
  function Encode58(buf: Data): string {
    ConvertBelow(256, 58, buf);
    Chars58(Convert(256, 58, buf))
  }

  /** b58-decode: None when some character is not in the alphabet. */
  function Decode58(text: string): Option<Data> {
    if Text58(text) then
      ConvertBelow(58, 256, Indices58(text));
      Some(Convert(58, 256, Indices58(text)))
    else None
  }

  lemma {:induction false} Index58OfChar58(i: nat)
    requires i < 58
    ensures Index58(Char58(i)) == i
  {
  }

  lemma Decode58OfEncode58(buf: Data)
    ensures Decode58(Encode58(buf)) == Some(buf)
  {
    hide Convert, Char58, Index58;
    ConvertInverse(256, 58, buf);
    ConvertBelow(256, 58, buf);
    var ds, text := Convert(256, 58, buf), Encode58(buf);
    forall i | 0 <= i < |text|
      ensures Index58(text[i]) == ds[i]
    {
      Index58OfChar58(ds[i]);
    }
    assert Indices58(text) == ds;
  }

  lemma Encode58OfDecode58(text: string)
    requires Text58(text)
    ensures Encode58(Decode58(text).value) == text
  {
    hide Convert, Char58, Index58;
    ConvertInverse(58, 256, Indices58(text));
    ConvertBelow(58, 256, Indices58(text));
    assert Chars58(Indices58(text)) == text;
  }

  /** base58 encoding and decoding are mutual inverses, on every byte string and every base58 text. */
  lemma Base58Inverse(buf: Data, text: string)
    ensures Decode58(Encode58(buf)) == Some(buf)
    ensures Decode58(text).Some? <==> Text58(text)
    ensures Text58(text) ==> Encode58(Decode58(text).value) == text
  {
    Decode58OfEncode58(buf);
    if Text58(text) {
      Encode58OfDecode58(text);
    }
  }

  lemma {:induction false} NamedBytes(d: Data)
    ensures Named(256, 0, d) == FromBE(d)
    decreases |d|
  {
    if d != [] {
      var n := |d| - 1;
      NamedBytes(d[..n]);
      NamedAppend(256, 0, d[..n], d[n]);
      assert d == d[..n] + [d[n]];
    }
  }

  /** The decoded bytes, as one number, are the text's, and there is a zero byte for each leading 1. */
  lemma Decode58Number(text: string)
    requires Text58(text)
    ensures var bytes := Decode58(text).value;
            FromBE(bytes) == Named(58, 0, Indices58(text)) && LeadingZeros(bytes) == LeadingZeros(Indices58(text))
  {
    hide Convert;
    ConvertKeeps(58, 256, Indices58(text));
    NamedBytes(Decode58(text).value);
  }

  /** Known texts. */
  lemma Known58()
    ensures Encode58([1, 0]) == "5R" && Encode58([0, 0, 58]) == "1121"
  {
    hide Convert, Named, Char58, LeadingZeros;
    KnownNumber();
    KnownZeros();
    ConvertKeeps(256, 58, [1, 0]);
    DigitsDetermined(58, Convert(256, 58, [1, 0]), [4, 24]);
    ConvertKeeps(256, 58, [0, 0, 58]);
    DigitsDetermined(58, Convert(256, 58, [0, 0, 58]), [0, 0, 1, 0]);
    KnownChars();
    assert Chars58([4, 24]) == "5R";
    assert Chars58([0, 0, 1, 0]) == "1121";
  }

  lemma KnownNumber()
    ensures Named(256, 0, [1, 0]) == Named(58, 0, [4, 24]) && LeadingZeros([1, 0]) == LeadingZeros([4, 24]) == 0
  {
    assert [1, 0][1..] == [0] && [0][1..] == [] && [4, 24][1..] == [24] && [24][1..] == [];
    assert Named(256, 1, [0]) == 256 && Named(58, 4, [24]) == 256;
  }

  lemma KnownZeros()
    ensures Named(256, 0, [0, 0, 58]) == Named(58, 0, [0, 0, 1, 0])
    ensures LeadingZeros([0, 0, 58]) == LeadingZeros([0, 0, 1, 0]) == 2
  {
    assert ZeroDigits(2) + [58] == [0, 0, 58] && ZeroDigits(2) + [1, 0] == [0, 0, 1, 0];
    NamedSkipsZeros(256, 2, [58]);
    NamedSkipsZeros(58, 2, [1, 0]);
    LeadingZerosOf(2, [58]);
    LeadingZerosOf(2, [1, 0]);
    assert [58][1..] == [] && [1, 0][1..] == [0] && [0][1..] == [];
    assert Named(58, 1, [0]) == 58;
  }

  /** The digits, capitals and small letters without 0, O, I and l, in that order. */
  lemma Alphabet58(i: nat, j: nat, c: char)
    requires i < j < 58
    ensures Char58(i) < Char58(j)
    ensures Index58(c) >= 0 <==>
            ('0' <= c <= '9' || 'A' <= c <= 'Z' || 'a' <= c <= 'z') && c !in "0OIl"
  {
    assert c in "0OIl" <==> c == '0' || c == 'O' || c == 'I' || c == 'l';
  }

  lemma KnownChars()
    ensures Char58(0) == '1' && Char58(1) == '2' && Char58(4) == '5' && Char58(24) == 'R'
  {
  }
}
