/** When the bytes of a head name one value only (cbor in deploy/graph_head.cljk). */
module CborUnique {
  import opened Bytes
  import opened Unicode
  import opened Respelling
  import opened Cbor

  // ----- values without unpaired surrogates

  /** No string and no key has an unpaired surrogate. */
  ghost predicate Plain(v: Value) {
    match v
    case Text(s) => Paired(s)
    case List(items) => forall i :: 0 <= i < |items| ==> Plain(items[i])
    case Map(entries) => forall i :: 0 <= i < |entries| ==> Paired(entries[i].key) && Plain(entries[i].value)
    case _ => true
  }

  lemma PairedKeys(a: JsString, b: JsString)
    requires Paired(a) && Paired(b) && Scalars(a) == Scalars(b)
    ensures a == b
  {
    PairedExact(a);
    PairedExact(b);
  }

  lemma {:induction false} PlainWire(a: Value, b: Value)
    requires Plain(a) && Plain(b) && Distinct(a) && Distinct(b) && SameWire(a, b)
    ensures Same(a, b)
    decreases a
  {
    hide SortEntries, Scalars, Paired, Find;
    match a
    case Text(s) => PairedKeys(s, b.s);
    case List(items) =>
      forall i | 0 <= i < |items|
        ensures Same(items[i], b.items[i])
      {
        PlainWire(items[i], b.items[i]);
      }
    case Map(entries) =>
      var es, fs := SortEntries(entries), SortEntries(b.entries);
      forall i | 0 <= i < |es|
        ensures es[i].key == fs[i].key && Same(es[i].value, fs[i].value)
      {
        assert es[i] in entries && fs[i] in b.entries;
        PairedKeys(es[i].key, fs[i].key);
        PlainWire(es[i].value, fs[i].value);
      }
      SameMaps(a, es, b, fs);
    case _ =>
  }

  /** Without unpaired surrogates two values have the same bytes exactly when they are the same value. */
  lemma PlainExact(a: Value, b: Value)
    requires Encodable(a) && Encodable(b) && Distinct(a) && Distinct(b) && Plain(a) && Plain(b)
    ensures Encode(a) == Encode(b) <==> Same(a, b)
  {
    hide Encode, Same, SameWire, Plain, Distinct, Encodable;
    EncodeExact(a, b);
    if SameWire(a, b) {
      PlainWire(a, b);
    }
    if Same(a, b) {
      SameIsWire(a, b);
    }
  }

  // ----- values with them

  lemma LoneUnits()
    ensures Scalars([0xD800]) == [REPLACEMENT] && Scalars([REPLACEMENT]) == [REPLACEMENT]
    ensures Utf8([0xD800]) == Utf8([REPLACEMENT]) && |Utf8([REPLACEMENT])| == 3
  {
    assert [0xD800][1..] == [] && [REPLACEMENT][1..] == [];
    assert Scalars([]) == [];
    assert Utf8Of([REPLACEMENT]) == Utf8Char(REPLACEMENT) + Utf8Of([]);
  }

  function OneField(key: JsString, v: Value): Value {
    Map([Entry(key, v)])
  }

  lemma OneFieldSorted(key: JsString, v: Value)
    ensures SortEntries([Entry(key, v)]) == [Entry(key, v)]
  {
    var es := [Entry(key, v)];
    assert es[1..] == [];
    assert SortEntries(es) == Insert(es[0], SortEntries([]));
  }

  /** {"x": "\ud800"} and {"x": "\ufffd"} are different and have the same bytes. */
  lemma SurrogateTwins()
    ensures var a, b := OneField([0x78], Text([0xD800])), OneField([0x78], Text([REPLACEMENT]));
            Encodable(a) && Encodable(b) && Distinct(a) && Distinct(b) && !Same(a, b) && Encode(a) == Encode(b)
  {
    hide Utf8, Scalars, Encode, SameWire, Same, Distinct, SortEntries;
    var x: JsString := [0x78];
    LoneTexts();
    OneFieldTwins(x, Text([0xD800]), Text([REPLACEMENT]));
    ShortKey();
    EncodeExact(OneField(x, Text([0xD800])), OneField(x, Text([REPLACEMENT])));
  }

  lemma LoneTexts()
    ensures var v, w := Text([0xD800]), Text([REPLACEMENT]);
            SameWire(v, w) && !Same(v, w) && Distinct(v) && Distinct(w) && Encodable(v) && Encodable(w)
  {
    hide Utf8, Scalars;
    LoneUnits();
    assert [0xD800][0] != [REPLACEMENT][0];
  }

  lemma OneFieldTwins(x: JsString, v: Value, w: Value)
    requires SameWire(v, w) && !Same(v, w) && Distinct(v) && Distinct(w)
    ensures SameWire(OneField(x, v), OneField(x, w)) && !Same(OneField(x, v), OneField(x, w))
    ensures Distinct(OneField(x, v)) && Distinct(OneField(x, w))
  {
    hide SortEntries, Scalars, Same, SameWire;
    OneFieldWire(x, v, w);
    OtherField(OneField(x, v), OneField(x, w), 0, Entry(x, v), Entry(x, w));
  }

  lemma OneFieldWire(x: JsString, v: Value, w: Value)
    requires SameWire(v, w)
    ensures SameWire(OneField(x, v), OneField(x, w))
  {
    hide SortEntries, Scalars;
    OneFieldSorted(x, v);
    OneFieldSorted(x, w);
  }

  lemma ShortKey()
    ensures |Utf8([0x78])| == 1
  {
    assert [0x78][1..] == [];
    assert Scalars([0x78]) == [0x78] + Scalars([]);
    assert Utf8Of([0x78]) == Utf8Char(0x78) + Utf8Of([]);
  }

  /** Two keys of one map can have the same bytes. */
  lemma KeyTwins()
    ensures Distinct(Map([Entry([0xD800], Null), Entry([REPLACEMENT], Null)]))
    ensures Utf8([0xD800]) == Utf8([REPLACEMENT])
  {
    LoneUnits();
    assert [0xD800][0] != [REPLACEMENT][0];
  }

  // ----- the only value with its bytes

  /** No other value has the bytes of `a`. */
  ghost predicate OnlyOne(a: Value)
    requires Encodable(a)
  {
    forall b :: Encodable(b) && Distinct(b) && Encode(b) == Encode(a) ==> Same(a, b)
  }

  predicate KeyLess(a: JsString, b: JsString) {
    KeyLe(a, b) && a != b
  }

  /** `k` has the bytes of key `i` and stands between the keys before and after it. */
  ghost predicate Fits(es: seq<Entry>, i: nat, k: JsString)
    requires i < |es|
  {
    && Utf8(k) == Utf8(es[i].key)
    && (i > 0 ==> KeyLess(es[i - 1].key, k))
    && (i + 1 < |es| ==> KeyLess(k, es[i + 1].key))
  }

  /** No other string can stand in the place of key `i`. */
  ghost predicate KeyFixed(es: seq<Entry>, i: nat)
    requires i < |es|
  {
    forall k: JsString :: Fits(es, i, k) ==> k == es[i].key
  }

  /** Strings have neither an unpaired surrogate nor U+FFFD, and no key has another spelling in its place. */
  ghost predicate Fixed(v: Value) {
    match v
    case Text(s) => Clear(s)
    case List(items) => forall i :: 0 <= i < |items| ==> Fixed(items[i])
    case Map(entries) =>
      var es := SortEntries(entries);
      forall i :: 0 <= i < |es| ==> es[i] in entries && KeyFixed(es, i) && Fixed(es[i].value)
    case _ => true
  }

  lemma KeyLessTransitive(a: JsString, b: JsString, c: JsString)
    requires (KeyLess(a, b) && KeyLe(b, c)) || (KeyLe(a, b) && KeyLess(b, c))
    ensures KeyLess(a, c)
  {
    hide KeyLe;
    KeyTransitive(a, b, c);
    KeyTotal(a, b);
    KeyTotal(b, c);
  }

  ghost predicate Chain(es: seq<Entry>) {
    forall i :: 0 < i < |es| ==> KeyLess(es[i - 1].key, es[i].key)
  }

  lemma ChainOfMap(v: Value)
    requires v.Map? && Distinct(v)
    ensures Chain(SortEntries(v.entries))
  {
    hide KeyLe, SortEntries;
    var es := SortEntries(v.entries);
    SortedKeys(v);
    forall i | 0 < i < |es|
      ensures KeyLess(es[i - 1].key, es[i].key)
    {
      assert Keys(es)[i - 1] == es[i - 1].key && Keys(es)[i] == es[i].key;
    }
  }

  /** Two chains with the same bytes, the first of them fixed. */
  ghost predicate Rivals(es: seq<Entry>, fs: seq<Entry>) {
    && Chain(es) && Chain(fs) && |es| == |fs|
    && forall i :: 0 <= i < |es| ==> KeyFixed(es, i) && Utf8(es[i].key) == Utf8(fs[i].key)
  }

  lemma OnlyFit(es: seq<Entry>, i: nat, k: JsString)
    requires i < |es| && KeyFixed(es, i) && Fits(es, i, k)
    ensures k == es[i].key
  {
  }

  lemma {:induction false} NoLower(es: seq<Entry>, fs: seq<Entry>, i: nat)
    requires Rivals(es, fs) && i < |es|
    ensures KeyLe(es[i].key, fs[i].key)
    decreases i
  {
    hide KeyLe, Utf8, KeyFixed;
    var e, f := es[i].key, fs[i].key;
    KeyTotal(e, f);
    if KeyLess(f, e) {
      if i > 0 {
        NoLower(es, fs, i - 1);
        KeyLessTransitive(es[i - 1].key, fs[i - 1].key, f);
      }
      if i + 1 < |es| {
        KeyLessTransitive(f, e, es[i + 1].key);
      }
      OnlyFit(es, i, f);
    }
  }

  lemma {:induction false} NoHigher(es: seq<Entry>, fs: seq<Entry>, i: nat)
    requires Rivals(es, fs) && i < |es|
    ensures KeyLe(fs[i].key, es[i].key)
    decreases |es| - i
  {
    hide KeyLe, Utf8, KeyFixed;
    var e, f := es[i].key, fs[i].key;
    KeyTotal(e, f);
    if KeyLess(e, f) {
      if i > 0 {
        KeyLessTransitive(es[i - 1].key, e, f);
      }
      if i + 1 < |es| {
        NoHigher(es, fs, i + 1);
        KeyLessTransitive(f, fs[i + 1].key, es[i + 1].key);
      }
      OnlyFit(es, i, f);
    }
  }

  lemma {:induction false} FixedIsOnly(a: Value, b: Value)
    requires Fixed(a) && Distinct(a) && Distinct(b) && SameWire(a, b)
    ensures Same(a, b)
    decreases a
  {
    hide SortEntries, Scalars, Utf8, Clear, Find, KeyFixed, KeyLe;
    match a
    case Text(s) => ClearIsOnly(s, b.s);
    case List(items) =>
      forall i | 0 <= i < |items|
        ensures Same(items[i], b.items[i])
      {
        FixedIsOnly(items[i], b.items[i]);
      }
    case Map(entries) =>
      var es, fs := SortEntries(entries), SortEntries(b.entries);
      ChainOfMap(a);
      ChainOfMap(b);
      forall i | 0 <= i < |es|
        ensures Utf8(es[i].key) == Utf8(fs[i].key)
      {
        SameBytes(es[i].key, fs[i].key);
      }
      forall i | 0 <= i < |es|
        ensures es[i].key == fs[i].key && Same(es[i].value, fs[i].value)
      {
        NoLower(es, fs, i);
        NoHigher(es, fs, i);
        KeyTotal(es[i].key, fs[i].key);
        assert es[i] in entries && fs[i] in b.entries;
        FixedIsOnly(es[i].value, fs[i].value);
      }
      SameMaps(a, es, b, fs);
    case _ =>
  }

  // ----- another value

  lemma {:induction false} SortedStays(es: seq<Entry>)
    requires Chain(es)
    ensures SortEntries(es) == es
    decreases |es|
  {
    if es != [] {
      hide KeyLe;
      assert es == [es[0]] + es[1..];
      SortedStays(es[1..]);
      if |es| > 1 {
        assert KeyLess(es[0].key, es[1].key);
      }
    }
  }

  lemma {:induction false} ChainOrder(es: seq<Entry>, i: nat, j: nat)
    requires Chain(es) && i < j < |es|
    ensures KeyLess(es[i].key, es[j].key)
    decreases j
  {
    hide KeyLe;
    if i + 1 < j {
      ChainOrder(es, i, j - 1);
      KeyLessTransitive(es[i].key, es[j - 1].key, es[j].key);
    }
  }

  lemma ChainIsDistinct(es: seq<Entry>)
    requires Chain(es) && forall i :: 0 <= i < |es| ==> Distinct(es[i].value)
    ensures Distinct(Map(es))
  {
    hide KeyLe;
    forall i, j | 0 <= i < j < |es|
      ensures es[i].key != es[j].key
    {
      ChainOrder(es, i, j);
    }
  }

  /** One sorted entry of a map, replaced. */
  lemma WithEntry(a: Value, i: nat, e: Entry)
    requires a.Map? && Distinct(a) && Encodable(a) && i < |SortEntries(a.entries)|
    requires var es := SortEntries(a.entries);
             && Scalars(e.key) == Scalars(es[i].key) && SameWire(es[i].value, e.value)
             && Encodable(e.value) && Distinct(e.value)
             && (i > 0 ==> KeyLess(es[i - 1].key, e.key)) && (i + 1 < |es| ==> KeyLess(e.key, es[i + 1].key))
    ensures var b := Map(SortEntries(a.entries)[i := e]);
            Encodable(b) && Distinct(b) && SameWire(a, b) && Chain(b.entries)
  {
    hide KeyLe, SortEntries, Utf8, Scalars;
    var es := SortEntries(a.entries);
    var fs := es[i := e];
    ChainOfMap(a);
    SameBytes(e.key, es[i].key);
    assert |es| == |a.entries|;
    forall j | 0 <= j < |es|
      ensures es[j] in a.entries && Encodable(es[j].value) && Distinct(es[j].value) && |Utf8(es[j].key)| < TWO_TO_THE_32
      ensures SameWire(es[j].value, es[j].value)
    {
      assert es[j] in a.entries;
      SameReflexive(es[j].value);
      SameIsWire(es[j].value, es[j].value);
    }
    assert Chain(fs);
    ChainIsDistinct(fs);
    SortedStays(fs);
  }

  /** Another value with the same bytes. */
  lemma {:induction false} OtherValue(a: Value) returns (b: Value)
    requires Encodable(a) && Distinct(a) && !Fixed(a)
    ensures Encodable(b) && Distinct(b) && SameWire(a, b) && !Same(a, b)
    decreases a
  {
    hide KeyLe, SortEntries, Utf8, Scalars, Clear, Find;
    match a
    case Text(s) =>
      var u := Twin(s);
      SameBytes(u, s);
      b := Text(u);
    case List(items) =>
      var i :| 0 <= i < |items| && !Fixed(items[i]);
      var other := OtherValue(items[i]);
      b := List(items[i := other]);
      forall j | 0 <= j < |items|
        ensures SameWire(items[j], items[j])
      {
        SameReflexive(items[j]);
        SameIsWire(items[j], items[j]);
      }
      assert !Same(items[i], b.items[i]);
    case Map(entries) =>
      var es := SortEntries(entries);
      ChainOfMap(a);
      var i :| 0 <= i < |es| && !(es[i] in entries && KeyFixed(es, i) && Fixed(es[i].value));
      assert es[i] in entries;
      if !Fixed(es[i].value) {
        var other := OtherValue(es[i].value);
        b := Map(es[i := Entry(es[i].key, other)]);
        WithEntry(a, i, Entry(es[i].key, other));
        OtherField(a, b, i, es[i], Entry(es[i].key, other));
      } else {
        var k: JsString :| Fits(es, i, k) && k != es[i].key;
        SameBytes(k, es[i].key);
        SameReflexive(es[i].value);
        SameIsWire(es[i].value, es[i].value);
        b := Map(es[i := Entry(k, es[i].value)]);
        WithEntry(a, i, Entry(k, es[i].value));
        OtherKey(a, b, i, k);
      }
  }

  /** A field with another value makes another map. */
  lemma OtherField(a: Value, b: Value, i: nat, e: Entry, f: Entry)
    requires a.Map? && b.Map? && Distinct(b) && e in a.entries && i < |b.entries| && b.entries[i] == f
    requires e.key == f.key && !Same(e.value, f.value)
    ensures !Same(a, b)
  {
    FindOnly(b.entries, f);
    var j :| 0 <= j < |a.entries| && a.entries[j] == e;
    assert Find(b.entries, a.entries[j].key) == Some(f.value);
  }

  /** A key between its neighbours that is not the key of that place is no key of the map. */
  lemma OtherKey(a: Value, b: Value, i: nat, k: JsString)
    requires a.Map? && b.Map? && Distinct(a) && i < |SortEntries(a.entries)|
    requires var es := SortEntries(a.entries);
             && b.entries == es[i := Entry(k, es[i].value)] && k != es[i].key && Chain(b.entries)
    ensures !Same(a, b)
  {
    hide KeyLe, SortEntries;
    var es := SortEntries(a.entries);
    if Find(a.entries, k).Some? {
      var e := Entry(k, Find(a.entries, k).value);
      assert e in es;
      var j :| 0 <= j < |es| && es[j] == e;
      assert b.entries[j].key == k;
      if j < i {
        ChainOrder(b.entries, j, i);
      } else {
        ChainOrder(b.entries, i, j);
      }
    }
    assert b.entries[i].key == k;
  }

  lemma OnlyOneIsFixed(a: Value)
    requires Encodable(a) && Distinct(a)
    ensures OnlyOne(a) <==> Fixed(a)
  {
    hide Encode, Same, SameWire, Fixed, Distinct, Encodable;
    if Fixed(a) {
      forall b | Encodable(b) && Distinct(b) && Encode(b) == Encode(a)
        ensures Same(a, b)
      {
        EncodeExact(a, b);
        FixedIsOnly(a, b);
      }
    } else {
      var b := OtherValue(a);
      EncodeExact(a, b);
    }
  }

  // ----- what a caller can look at

  /** The next spelling of key `i` does not stand before the next key, nor the one before it behind the key before. */
  predicate KeySettled(es: seq<Entry>, i: nat)
    requires i < |es|
  {
    var next, previous := Next(es[i].key), Previous(es[i].key);
    && (next.Some? ==> i + 1 < |es| && !KeyLess(next.value, es[i + 1].key))
    && (previous.Some? ==> i > 0 && !KeyLess(es[i - 1].key, previous.value))
  }

  /** Strings have neither an unpaired surrogate nor U+FFFD, and every key is settled. */
  predicate Settled(v: Value) {
    match v
    case Text(s) => Clear(s)
    case List(items) => forall i :: 0 <= i < |items| ==> Settled(items[i])
    case Map(entries) =>
      var es := SortEntries(entries);
      forall i :: 0 <= i < |es| ==> es[i] in entries && KeySettled(es, i) && Settled(es[i].value)
    case _ => true
  }

  /** Among strings with the same bytes the key order is the string order. */
  lemma SameBytesOrder(a: JsString, b: JsString)
    requires Utf8(a) == Utf8(b)
    ensures KeyLe(a, b) <==> LexLe(a, b)
    ensures KeyLess(a, b) <==> Less(a, b)
  {
    hide Utf8, LexLe;
  }

  lemma NextFits(es: seq<Entry>, i: nat)
    requires Chain(es) && i < |es|
    ensures var n := Next(es[i].key);
            n.Some? && (i + 1 == |es| || KeyLess(n.value, es[i + 1].key)) ==> Fits(es, i, n.value) && n.value != es[i].key
    ensures var p := Previous(es[i].key);
            p.Some? && (i == 0 || KeyLess(es[i - 1].key, p.value)) ==> Fits(es, i, p.value) && p.value != es[i].key
  {
    hide Utf8, LexLe, KeyLe, Next, Previous;
    var key := es[i].key;
    NeighboursExact(key, key);
    if Next(key).Some? {
      var n := Next(key).value;
      SameBytesOrder(key, n);
      if i > 0 {
        KeyLessTransitive(es[i - 1].key, key, n);
      }
    }
    if Previous(key).Some? {
      var p := Previous(key).value;
      SameBytesOrder(p, key);
      if i + 1 < |es| {
        KeyLessTransitive(p, key, es[i + 1].key);
      }
    }
  }

  /** No string at all fits in the place of a key exactly when its two neighbouring spellings do not. */
  lemma KeySettledExact(es: seq<Entry>, i: nat)
    requires Chain(es) && i < |es|
    ensures KeyFixed(es, i) <==> KeySettled(es, i)
  {
    hide Utf8, LexLe, KeyLe, Next, Previous;
    NextFits(es, i);
    if KeySettled(es, i) {
      forall k: JsString | Fits(es, i, k)
        ensures k == es[i].key
      {
        OnlySettledFits(es, i, k);
      }
    }
  }

  lemma OnlySettledFits(es: seq<Entry>, i: nat, k: JsString)
    requires i < |es| && KeySettled(es, i) && Fits(es, i, k)
    ensures k == es[i].key
  {
    hide Utf8, LexLe, KeyLe, Next, Previous;
    var key := es[i].key;
    NeighboursExact(key, k);
    if k != key {
      if Next(key).Some? && LexLe(Next(key).value, k) {
        SameBytesOrder(Next(key).value, k);
        KeyLessTransitive(Next(key).value, k, es[i + 1].key);
      } else {
        SameBytesOrder(k, Previous(key).value);
        KeyLessTransitive(es[i - 1].key, k, Previous(key).value);
      }
    }
  }

  lemma {:induction false} SettledExact(v: Value)
    requires Distinct(v)
    ensures Fixed(v) <==> Settled(v)
    decreases v
  {
    hide SortEntries, Clear, KeyFixed, KeySettled;
    match v
    case List(items) =>
      forall i | 0 <= i < |items|
        ensures Fixed(items[i]) <==> Settled(items[i])
      {
        SettledExact(items[i]);
      }
    case Map(entries) =>
      var es := SortEntries(entries);
      ChainOfMap(v);
      forall i | 0 <= i < |es|
        ensures es[i] in entries && (KeyFixed(es, i) <==> KeySettled(es, i)) && (Fixed(es[i].value) <==> Settled(es[i].value))
      {
        assert es[i] in entries;
        KeySettledExact(es, i);
        SettledExact(es[i].value);
      }
    case _ =>
  }

  /**
   A value is the only one with its bytes exactly when its strings have neither an unpaired surrogate nor
   U+FFFD and the two neighbouring spellings of each key do not fit in its place.
   */
  lemma OnlyOneExact(a: Value)
    requires Encodable(a) && Distinct(a)
    ensures OnlyOne(a) <==> Settled(a)
  {
    hide OnlyOne, Fixed, Settled;
    OnlyOneIsFixed(a);
    SettledExact(a);
  }

  /** No string and no key has an unpaired surrogate or U+FFFD. */
  ghost predicate AllClear(v: Value) {
    match v
    case Text(s) => Clear(s)
    case List(items) => forall i :: 0 <= i < |items| ==> AllClear(items[i])
    case Map(entries) => forall i :: 0 <= i < |entries| ==> Clear(entries[i].key) && AllClear(entries[i].value)
    case _ => true
  }

  /** Every map has at most one entry. */
  ghost predicate SingleKeys(v: Value) {
    match v
    case List(items) => forall i :: 0 <= i < |items| ==> SingleKeys(items[i])
    case Map(entries) => |entries| <= 1 && forall i :: 0 <= i < |entries| ==> SingleKeys(entries[i].value)
    case _ => true
  }

  lemma {:induction false} ClearIsFixed(v: Value)
    requires AllClear(v)
    ensures Fixed(v)
    decreases v
  {
    hide SortEntries, Clear, Utf8, KeyLe;
    match v
    case List(items) =>
      forall i | 0 <= i < |items|
        ensures Fixed(items[i])
      {
        ClearIsFixed(items[i]);
      }
    case Map(entries) =>
      var es := SortEntries(entries);
      forall i | 0 <= i < |es|
        ensures es[i] in entries && KeyFixed(es, i) && Fixed(es[i].value)
      {
        assert es[i] in entries;
        BytesUnique(es[i].key);
        ClearIsFixed(es[i].value);
      }
    case _ =>
  }

  lemma {:induction false} FixedIsClear(v: Value)
    requires Fixed(v) && SingleKeys(v)
    ensures AllClear(v)
    decreases v
  {
    hide Clear, Utf8, KeyLe;
    match v
    case List(items) =>
      forall i | 0 <= i < |items|
        ensures AllClear(items[i])
      {
        FixedIsClear(items[i]);
      }
    case Map(entries) =>
      if entries != [] {
        var e := entries[0];
        assert entries == [Entry(e.key, e.value)];
        OneFieldSorted(e.key, e.value);
        var es := SortEntries(entries);
        forall u: JsString | Utf8(u) == Utf8(e.key)
          ensures u == e.key
        {
          OnlyFit(es, 0, u);
        }
        BytesUnique(e.key);
        FixedIsClear(e.value);
      }
    case _ =>
  }

  /**
   A value without unpaired surrogates and U+FFFD is the only one with its bytes; where no map has two
   keys, only such a value is.
   */
  lemma ClearIsOnlyOne(a: Value)
    requires Encodable(a) && Distinct(a)
    ensures AllClear(a) ==> OnlyOne(a)
    ensures SingleKeys(a) ==> (OnlyOne(a) <==> AllClear(a))
  {
    hide OnlyOne, Fixed, AllClear, SingleKeys, Encodable, Distinct;
    OnlyOneIsFixed(a);
    if AllClear(a) {
      ClearIsFixed(a);
    }
    if SingleKeys(a) && Fixed(a) {
      FixedIsClear(a);
    }
  }

  /**
   With two keys a U+FFFD can be pinned by its place: {"\ue000": null, "\ufffd": null} is the only value
   with its bytes, because every surrogate sorts before U+E000.
   */
  lemma PinnedKey()
    ensures var a := Map([Entry([0xE000], Null), Entry([REPLACEMENT], Null)]);
            Encodable(a) && Distinct(a) && OnlyOne(a) && !AllClear(a)
  {
    hide Utf8, Clear, LexLe, Encode, KeyFixed, SortEntries, OnlyOne;
    var p: JsString, q: JsString := [0xE000], [REPLACEMENT];
    var es := [Entry(p, Null), Entry(q, Null)];
    PinnedKeys();
    assert p[0] != q[0];
    SortedStays(es);
    PinnedFixed(es, p, q);
    PinnedMap(es, p, q);
    OnlyOneIsFixed(Map(es));
  }

  lemma PinnedMap(es: seq<Entry>, p: JsString, q: JsString)
    requires es == [Entry(p, Null), Entry(q, Null)] && p != q && Clear(p) && !Clear(q)
    requires SortEntries(es) == es && KeyFixed(es, 0) && KeyFixed(es, 1)
    ensures Fixed(Map(es)) && !AllClear(Map(es)) && Distinct(Map(es))
  {
    hide SortEntries, KeyFixed, Clear;
    assert es[1].key == q;
  }

  lemma PinnedFixed(es: seq<Entry>, p: JsString, q: JsString)
    requires p == [0xE000] && q == [REPLACEMENT] && es == [Entry(p, Null), Entry(q, Null)]
    ensures KeyFixed(es, 0) && KeyFixed(es, 1)
  {
    hide Utf8, KeyLe;
    PinnedKeys();
    BytesUnique(p);
    forall k: JsString | Fits(es, 1, k)
      ensures k == q
    {
      PinnedUnit(k);
    }
  }

  lemma PinnedKeys()
    ensures |Utf8([0xE000])| == 3 && |Utf8([REPLACEMENT])| == 3 && LexLe([0xE000], [REPLACEMENT])
    ensures Clear([0xE000]) && !Clear([REPLACEMENT])
  {
    LoneUnits();
    assert [0xE000][1..] == [];
    assert Scalars([0xE000]) == [0xE000] + Scalars([]);
    assert Utf8Of([0xE000]) == Utf8Char(0xE000) + Utf8Of([]);
    ClearExact([0xE000]);
    ClearExact([REPLACEMENT]);
  }

  lemma PairSpells(k: JsString)
    ensures StartsPair(k) ==> Scalars(k) != [] && Scalars(k)[0] >= 0x1_0000
  {
  }

  lemma PinnedUnit(k: JsString)
    requires Utf8(k) == Utf8([REPLACEMENT]) && KeyLess([0xE000], k)
    ensures k == [REPLACEMENT]
  {
    LoneUnits();
    SameBytes(k, [REPLACEMENT]);
    PinnedKeys();
    assert Scalars(k) == [REPLACEMENT];
    PairSpells(k);
    assert Scalars(k)[1..] == Scalars(k[1..]);
    assert k[1..] == [];
    assert k == [k[0]];
  }
}
