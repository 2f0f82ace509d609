/** The dag-cbor of signed heads (cbor in deploy/graph_head.cljk). */
module Cbor {
  import opened Bytes
  import opened Unicode

  datatype Value =
    | Null
    | Boolean(b: bool)
    | Integer(n: int)
    | Text(s: JsString)
    | List(items: seq<Value>)
    | Map(entries: seq<Entry>)

  /** A map is its entries in insertion order, as the caller built it. */
  datatype Entry = Entry(key: JsString, value: Value)

  // ----- heads

  /** cbor-head and cbor_length: the shortest head, for numbers below 2^32. */
  function Head(major: nat, n: nat): (d: Data)
    requires major < 8 && n < TWO_TO_THE_32
    ensures 1 <= |d| <= 5
  {
    if n < 24 then [major * 32 + n]
    else if n < 0x100 then [major * 32 + 24] + BE(1, n)
    else if n < 0x1_0000 then [major * 32 + 25] + BE(2, n)
    else [major * 32 + 26] + BE(4, n)
  }

  function HeadWidth(n: nat): nat {
    if n < 24 then 0 else if n < 0x100 then 1 else if n < 0x1_0000 then 2 else 4
  }

  lemma HeadShape(major: nat, n: nat)
    requires major < 8 && n < TWO_TO_THE_32
    ensures var d := Head(major, n);
            && d[0] / 32 == major && |d| == 1 + HeadWidth(n)
            && d[0] % 32 == (if n < 24 then n else if n < 0x100 then 24 else if n < 0x1_0000 then 25 else 26)
            && d[1..] == BE(HeadWidth(n), if n < 24 then 0 else n)
  {
  }

  /** Two heads that start the same bytes are the same head. */
  lemma HeadUnique(m: nat, n: nat, k: nat, l: nat, s: Data, t: Data)
    requires m < 8 && n < TWO_TO_THE_32 && k < 8 && l < TWO_TO_THE_32
    requires Head(m, n) + s == Head(k, l) + t
    ensures m == k && n == l && s == t
  {
    hide BE;
    HeadShape(m, n);
    HeadShape(k, l);
    var a, b := Head(m, n), Head(k, l);
    hide Head;
    assert (a + s)[0] == a[0] && (b + t)[0] == b[0];
    assert HeadWidth(n) == HeadWidth(l);
    assert (a + s)[..|a|] == a && (b + t)[..|b|] == b;
    assert (a + s)[|a|..] == s && (b + t)[|b|..] == t;
    if n >= 24 {
      Pow256();
      BEInjective(HeadWidth(n), n, l);
    }
  }

  // ----- map order

  /** sort-by [(count (utf8 k)) k]: shorter UTF-8 first, then JavaScript's string order. */
  predicate KeyLe(a: JsString, b: JsString) {
    |Utf8(a)| < |Utf8(b)| || (|Utf8(a)| == |Utf8(b)| && LexLe(a, b))
  }

  lemma KeyTotal(a: JsString, b: JsString)
    ensures KeyLe(a, b) || KeyLe(b, a)
    ensures KeyLe(a, b) && KeyLe(b, a) ==> a == b
  {
    LexTotal(a, b);
  }

  lemma KeyTransitive(a: JsString, b: JsString, c: JsString)
    requires KeyLe(a, b) && KeyLe(b, c)
    ensures KeyLe(a, c)
  {
    if |Utf8(a)| == |Utf8(b)| == |Utf8(c)| {
      LexTransitive(a, b, c);
    }
  }

  /**
   Keys with bytes of one length stand in the byte order of RFC 8949 section 4.2.3 exactly when neither, or
   each, of two things turns their order round: replacing unpaired surrogates, and a first difference that
   crosses. Without unpaired surrogates only the crossing is left.
   */
  lemma KeyOrderIsCanonical(a: JsString, b: JsString)
    requires Utf8(a) != Utf8(b) && |Utf8(a)| == |Utf8(b)|
    ensures (KeyLe(a, b) <==> LexLe(Utf8(a), Utf8(b))) <==> (RepairMoves(a, b) <==> CrossesFirst(Scalars(a), Scalars(b)))
    ensures Paired(a) && Paired(b) ==>
              ((KeyLe(a, b) <==> LexLe(Utf8(a), Utf8(b))) <==> !CrossesFirst(Scalars(a), Scalars(b)))
  {
    OrdersAgree(a, b);
  }

  /** U+E000 and "x" against U+10000: four bytes each, in one order here and in the other in RFC 8949. */
  lemma KeyOrderDiffers()
    ensures var a: JsString, b: JsString := [0xE000, 0x78], [0xD800, 0xDC00];
            |Utf8(a)| == |Utf8(b)| && KeyLe(b, a) && !KeyLe(a, b) && LexLe(Utf8(a), Utf8(b)) && !LexLe(Utf8(b), Utf8(a))
  {
    var a: JsString, b: JsString := [0xE000, 0x78], [0xD800, 0xDC00];
    assert a[1..] == [0x78] && a[1..][1..] == [] && b[2..] == [];
    var x, y := Scalars(a), Scalars(b);
    assert Scalars(a[1..]) == [0x78] + [];
    assert x == [0xE000] + [0x78] && y == [0x1_0000] + [];
    assert x[1..] == [0x78] && x[1..][1..] == [] && y[1..] == [];
    assert Utf8Of(x[1..]) == Utf8Char(0x78) + Utf8Of([]);
    Utf8Order(x[0], y[0], Utf8Of(x[1..]), Utf8Of(y[1..]));
    Utf8Order(y[0], x[0], Utf8Of(y[1..]), Utf8Of(x[1..]));
  }

  function Insert(e: Entry, s: seq<Entry>): (r: seq<Entry>)
    ensures multiset(r) == multiset(s) + multiset{e}
  {
    if s == [] then [e]
    else if KeyLe(e.key, s[0].key) then [e] + s
    else
      assert s == [s[0]] + s[1..];
      [s[0]] + Insert(e, s[1..])
  }

  function SortEntries(s: seq<Entry>): (r: seq<Entry>)
    ensures multiset(r) == multiset(s)
    ensures |r| == |s|
    ensures forall e :: e in r <==> e in s
  {
    if s == [] then []
    else
      assert s == [s[0]] + s[1..];
      var r := Insert(s[0], SortEntries(s[1..]));
      assert |multiset(r)| == |multiset(s)|;
      assert forall e :: e in r <==> e in multiset(r);
      r
  }

  // ----- encoding

  /** The keys of every map in the value are distinct, as a Clojure map's are. */
  ghost predicate Distinct(v: Value) {
    match v
    case List(items) => forall i :: 0 <= i < |items| ==> Distinct(items[i])
    case Map(entries) =>
      && (forall i, j :: 0 <= i < j < |entries| ==> entries[i].key != entries[j].key)
      && (forall i :: 0 <= i < |entries| ==> Distinct(entries[i].value))
    case _ => true
  }

  /** No number in the value needs a head of 2^32 or more. */
  predicate Encodable(v: Value) {
    match v
    case Null => true
    case Boolean(_) => true
    case Integer(n) => -(TWO_TO_THE_32 as int) <= n < TWO_TO_THE_32
    case Text(s) => |Utf8(s)| < TWO_TO_THE_32
    case List(items) => |items| < TWO_TO_THE_32 && forall i :: 0 <= i < |items| ==> Encodable(items[i])
    case Map(entries) =>
      && |entries| < TWO_TO_THE_32
      && forall i :: 0 <= i < |entries| ==> |Utf8(entries[i].key)| < TWO_TO_THE_32 && Encodable(entries[i].value)
  }

  function EncodeText(s: JsString): Data
    requires |Utf8(s)| < TWO_TO_THE_32
  {
    Head(3, |Utf8(s)|) + Utf8(s)
  }

  function Encode(v: Value): Data
    requires Encodable(v)
    decreases v, 1
  {
    match v
    case Null => [0xf6]
    case Boolean(b) => [if b then 0xf5 else 0xf4]
    case Integer(n) => if n >= 0 then Head(0, n) else Head(1, -1 - n)
    case Text(s) => EncodeText(s)
    case List(items) => Head(4, |items|) + EncodeItems(v, items)
    case Map(entries) => Head(5, |entries|) + EncodeEntries(v, SortEntries(entries))
  }

  function EncodeItems(parent: Value, items: seq<Value>): Data
    requires Items(parent, items)
    decreases parent, 0, |items|
  {
    if items == [] then []
    else
      ItemsTail(parent, items);
      Encode(items[0]) + EncodeItems(parent, items[1..])
  }

  function EncodeEntries(parent: Value, es: seq<Entry>): Data
    requires Entries(parent, es)
    decreases parent, 0, |es|
  {
    if es == [] then []
    else
      EntriesTail(parent, es);
      EncodeText(es[0].key) + Encode(es[0].value) + EncodeEntries(parent, es[1..])
  }

  /** Encodable parts of one list. */
  ghost predicate Items(parent: Value, items: seq<Value>) {
    forall x :: x in items ==> x < parent && Encodable(x)
  }

  /** Encodable parts of one map. */
  ghost predicate Entries(parent: Value, es: seq<Entry>) {
    forall e :: e in es ==> e.value < parent && |Utf8(e.key)| < TWO_TO_THE_32 && Encodable(e.value)
  }

  lemma ItemsTail(parent: Value, items: seq<Value>)
    requires Items(parent, items) && items != []
    ensures items[0] < parent && Encodable(items[0]) && Items(parent, items[1..])
  {
    hide Encodable;
    assert items[0] in items;
    assert forall x :: x in items[1..] ==> x in items;
  }

  lemma EntriesTail(parent: Value, es: seq<Entry>)
    requires Entries(parent, es) && es != []
    ensures es[0].value < parent && |Utf8(es[0].key)| < TWO_TO_THE_32 && Encodable(es[0].value)
    ensures Entries(parent, es[1..])
  {
    hide Encodable;
    assert es[0] in es;
    assert forall e :: e in es[1..] ==> e in es;
  }

  /** cbor: refused when some number is too large. */
  function DagCbor(v: Value): Option<Data> {
    if Encodable(v) then Some(Encode(v)) else None
  }

  // ----- unique decoding

  function Find(es: seq<Entry>, key: JsString): (r: Option<Value>)
    ensures r.Some? ==> Entry(key, r.value) in es
    ensures r.None? ==> forall e :: e in es ==> e.key != key
  {
    if es == [] then None else if es[0].key == key then Some(es[0].value) else Find(es[1..], key)
  }

  /** The same value: maps are compared by what each key holds, not by insertion order. */
  ghost predicate Same(a: Value, b: Value) {
    match a
    case List(items) =>
      b.List? && |items| == |b.items| && forall i :: 0 <= i < |items| ==> Same(items[i], b.items[i])
    case Map(entries) =>
      && b.Map?
      && (forall i :: 0 <= i < |b.entries| ==> Find(entries, b.entries[i].key).Some?)
      && forall i :: 0 <= i < |entries| ==>
           var w := Find(b.entries, entries[i].key);
           w.Some? && Same(entries[i].value, w.value)
    case _ => a == b
  }

  /**
   The same on the wire: strings that spell the same, and maps whose sorted entries match one by one.
   Nothing here looks at an encoding.
   */
  ghost predicate SameWire(a: Value, b: Value) {
    match a
    case Text(s) => b.Text? && Scalars(s) == Scalars(b.s)
    case List(items) =>
      b.List? && |items| == |b.items| && forall i :: 0 <= i < |items| ==> SameWire(items[i], b.items[i])
    case Map(entries) =>
      && b.Map?
      && var es, fs := SortEntries(entries), SortEntries(b.entries);
         && |es| == |fs|
         && forall i :: 0 <= i < |es| ==>
              es[i] in entries && Scalars(es[i].key) == Scalars(fs[i].key) && SameWire(es[i].value, fs[i].value)
    case _ => a == b
  }

  lemma TextUnique(a: JsString, b: JsString, s: Data, t: Data)
    requires |Utf8(a)| < TWO_TO_THE_32 && |Utf8(b)| < TWO_TO_THE_32
    requires EncodeText(a) + s == EncodeText(b) + t
    ensures Scalars(a) == Scalars(b) && s == t
  {
    hide Head, Utf8;
    var x, y := Utf8(a), Utf8(b);
    assert EncodeText(a) + s == Head(3, |x|) + (x + s);
    assert EncodeText(b) + t == Head(3, |y|) + (y + t);
    HeadUnique(3, |x|, 3, |y|, x + s, y + t);
    assert x == (x + s)[..|x|] && y == (y + t)[..|y|];
    assert s == (x + s)[|x|..] && t == (y + t)[|y|..];
    SameBytes(a, b);
  }

  function Major(v: Value): nat {
    match v
    case Null => 7
    case Boolean(_) => 7
    case Integer(n) => if n >= 0 then 0 else 1
    case Text(_) => 3
    case List(_) => 4
    case Map(_) => 5
  }

  lemma MajorOfFirst(v: Value)
    requires Encodable(v)
    ensures Encode(v) != [] && Encode(v)[0] / 32 == Major(v)
  {
    match v
    case Null =>
    case Boolean(_) =>
    case Integer(n) => HeadShape(Major(v), if n >= 0 then n else -1 - n);
    case Text(s) => HeadShape(3, |Utf8(s)|);
    case List(items) => HeadShape(4, |items|);
    case Map(entries) => HeadShape(5, |entries|);
  }

  /**
   Encodings are uniquely decodable up to what strings spell: equal bytes with anything behind them come
   from values that are the same on the wire, and what is behind them is the same. So no encoding is a
   proper prefix of another.
   */
  lemma {:induction false} EncodeUnique(a: Value, b: Value, s: Data, t: Data)
    requires Encodable(a) && Encodable(b)
    requires Encode(a) + s == Encode(b) + t
    ensures SameWire(a, b) && s == t
    decreases a, 1
  {
    hide Head, Utf8, EncodeItems, EncodeEntries, SortEntries;
    MajorOfFirst(a);
    MajorOfFirst(b);
    assert (Encode(a) + s)[0] == Encode(a)[0] && (Encode(b) + t)[0] == Encode(b)[0];
    match a
    case Null =>
      assert (Encode(a) + s)[1..] == s && (Encode(b) + t)[1..] == t;
    case Boolean(_) =>
      assert (Encode(a) + s)[1..] == s && (Encode(b) + t)[1..] == t;
    case Integer(n) =>
      HeadUnique(Major(a), if n >= 0 then n else -1 - n, Major(b), if b.n >= 0 then b.n else -1 - b.n, s, t);
    case Text(x) =>
      TextUnique(x, b.s, s, t);
    case List(items) =>
      var x, y := EncodeItems(a, items), EncodeItems(b, b.items);
      HeadBody(a, 4, |items|, x, b, |b.items|, y, s, t);
      ItemsUnique(a, items, b, b.items, s, t);
    case Map(entries) =>
      var es, fs := SortEntries(entries), SortEntries(b.entries);
      HeadBody(a, 5, |entries|, EncodeEntries(a, es), b, |b.entries|, EncodeEntries(b, fs), s, t);
      EntriesUnique(a, es, b, fs, s, t);
  }

  lemma HeadBody(a: Value, major: nat, n: nat, x: Data, b: Value, k: nat, y: Data, s: Data, t: Data)
    requires Encodable(a) && Encodable(b) && major < 8 && n < TWO_TO_THE_32 && k < TWO_TO_THE_32
    requires Encode(a) == Head(major, n) + x && Encode(b) == Head(major, k) + y
    requires Encode(a) + s == Encode(b) + t
    ensures n == k && x + s == y + t
  {
    hide Head, Encode, Encodable;
    assert Encode(a) + s == Head(major, n) + (x + s);
    assert Encode(b) + t == Head(major, k) + (y + t);
    HeadUnique(major, n, major, k, x + s, y + t);
  }

  lemma SortedDistinct(v: Value, es: seq<Entry>)
    requires v.Map? && Distinct(v) && es == SortEntries(v.entries)
    ensures DistinctEntries(es)
  {
    forall i | 0 <= i < |es|
      ensures Distinct(es[i].value)
    {
      assert es[i] in v.entries;
    }
  }

  lemma {:induction false} ItemsUnique(a: Value, xs: seq<Value>, b: Value, ys: seq<Value>, s: Data, t: Data)
    requires Items(a, xs) && Items(b, ys)
    requires |xs| == |ys| && EncodeItems(a, xs) + s == EncodeItems(b, ys) + t
    ensures s == t && forall i :: 0 <= i < |xs| ==> SameWire(xs[i], ys[i])
    decreases a, 0, |xs|
  {
    hide Items, Encodable, Encode, SameWire;
    if xs == [] {
      assert [] + s == s && [] + t == t;
    } else {
      ItemsTail(a, xs);
      ItemsTail(b, ys);
      var x, y := EncodeItems(a, xs[1..]), EncodeItems(b, ys[1..]);
      assert EncodeItems(a, xs) + s == Encode(xs[0]) + (x + s);
      assert EncodeItems(b, ys) + t == Encode(ys[0]) + (y + t);
      EncodeUnique(xs[0], ys[0], x + s, y + t);
      ItemsUnique(a, xs[1..], b, ys[1..], s, t);
    }
  }

  ghost predicate DistinctEntries(es: seq<Entry>) {
    forall i :: 0 <= i < |es| ==> Distinct(es[i].value)
  }

  lemma {:induction false} EntriesUnique(a: Value, es: seq<Entry>, b: Value, fs: seq<Entry>, s: Data, t: Data)
    requires Entries(a, es) && Entries(b, fs)
    requires |es| == |fs| && EncodeEntries(a, es) + s == EncodeEntries(b, fs) + t
    ensures s == t
    ensures forall i :: 0 <= i < |es| ==> Scalars(es[i].key) == Scalars(fs[i].key) && SameWire(es[i].value, fs[i].value)
    decreases a, 0, |es|
  {
    hide Entries, Encodable, Encode, EncodeText, Utf8, Scalars, SameWire;
    if es == [] {
      assert [] + s == s && [] + t == t;
    } else {
      EntriesTail(a, es);
      EntriesTail(b, fs);
      var x, y := EncodeEntries(a, es[1..]), EncodeEntries(b, fs[1..]);
      var p, q := Encode(es[0].value), Encode(fs[0].value);
      assert EncodeEntries(a, es) + s == EncodeText(es[0].key) + (p + (x + s));
      assert EncodeEntries(b, fs) + t == EncodeText(fs[0].key) + (q + (y + t));
      TextUnique(es[0].key, fs[0].key, p + (x + s), q + (y + t));
      EncodeUnique(es[0].value, fs[0].value, x + s, y + t);
      EntriesUnique(a, es[1..], b, fs[1..], s, t);
    }
  }

  ghost predicate DistinctKeys(es: seq<Entry>) {
    forall i, j :: 0 <= i < j < |es| ==> es[i].key != es[j].key
  }

  lemma {:induction false} FindOnly(es: seq<Entry>, e: Entry)
    requires DistinctKeys(es) && e in es
    ensures Find(es, e.key) == Some(e.value)
  {
    if es[0].key != e.key {
      FindOnly(es[1..], e);
    } else {
      var i :| 0 <= i < |es| && es[i] == e;
      assert i == 0;
    }
  }

  lemma SameMaps(a: Value, es: seq<Entry>, b: Value, fs: seq<Entry>)
    requires a.Map? && b.Map? && Distinct(b)
    requires es == SortEntries(a.entries) && fs == SortEntries(b.entries) && |es| == |fs|
    requires forall i :: 0 <= i < |es| ==> es[i].key == fs[i].key && Same(es[i].value, fs[i].value)
    ensures Same(a, b)
  {
    hide SortEntries;
    forall i | 0 <= i < |a.entries|
      ensures var w := Find(b.entries, a.entries[i].key); w.Some? && Same(a.entries[i].value, w.value)
    {
      assert a.entries[i] in es;
      var j :| 0 <= j < |es| && es[j] == a.entries[i];
      assert fs[j] in b.entries;
      FindOnly(b.entries, fs[j]);
    }
    forall i | 0 <= i < |b.entries|
      ensures Find(a.entries, b.entries[i].key).Some?
    {
      assert b.entries[i] in fs;
      var j :| 0 <= j < |fs| && fs[j] == b.entries[i];
      assert es[j] in a.entries;
    }
  }

  // ----- insertion order

  ghost predicate KeySorted(es: seq<Entry>) {
    forall i, j :: 0 <= i < j < |es| ==> KeyLe(es[i].key, es[j].key)
  }

  lemma {:induction false} InsertKeepsSorted(e: Entry, s: seq<Entry>)
    requires KeySorted(s)
    ensures KeySorted(Insert(e, s))
  {
    hide KeyLe;
    if s != [] {
      if KeyLe(e.key, s[0].key) {
        forall j | 0 < j < |s|
          ensures KeyLe(e.key, s[j].key)
        {
          KeyTransitive(e.key, s[0].key, s[j].key);
        }
      } else {
        KeyTotal(e.key, s[0].key);
        InsertKeepsSorted(e, s[1..]);
        var rest := Insert(e, s[1..]);
        forall j | 0 <= j < |rest|
          ensures KeyLe(s[0].key, rest[j].key)
        {
          assert rest[j] in multiset(rest);
          assert rest[j] == e || rest[j] in s[1..];
        }
      }
    }
  }

  lemma {:induction false} SortSorts(s: seq<Entry>)
    ensures KeySorted(SortEntries(s))
  {
    if s != [] {
      SortSorts(s[1..]);
      InsertKeepsSorted(s[0], SortEntries(s[1..]));
    }
  }

  function Keys(es: seq<Entry>): (ks: seq<JsString>)
    ensures |ks| == |es| && forall i :: 0 <= i < |es| ==> ks[i] == es[i].key
  {
    seq(|es|, i requires 0 <= i < |es| => es[i].key)
  }

  ghost predicate StrictlySorted(ks: seq<JsString>) {
    forall i, j :: 0 <= i < j < |ks| ==> KeyLe(ks[i], ks[j]) && ks[i] != ks[j]
  }

  ghost predicate SameKeys(xs: seq<JsString>, ys: seq<JsString>) {
    forall k :: k in xs <==> k in ys
  }

  lemma SmallestFirst(xs: seq<JsString>, ys: seq<JsString>)
    requires xs != [] && ys != [] && StrictlySorted(xs) && StrictlySorted(ys) && SameKeys(xs, ys)
    ensures xs[0] == ys[0]
  {
    hide KeyLe;
    assert xs[0] in ys && ys[0] in xs;
    KeyTotal(xs[0], ys[0]);
  }

  lemma TailKeys(xs: seq<JsString>, ys: seq<JsString>, k: JsString)
    requires xs != [] && ys != [] && xs[0] == ys[0] && StrictlySorted(xs) && SameKeys(xs, ys)
    ensures k in xs[1..] ==> k in ys[1..]
  {
    if k in xs[1..] {
      var i :| 0 <= i < |xs[1..]| && xs[1..][i] == k;
      assert xs[i + 1] == k && k != xs[0];
      assert k in xs;
      assert ys == [ys[0]] + ys[1..];
    }
  }

  /** The same keys are listed in the same order. */
  lemma {:induction false} SameKeyOrder(xs: seq<JsString>, ys: seq<JsString>)
    requires StrictlySorted(xs) && StrictlySorted(ys) && SameKeys(xs, ys)
    ensures xs == ys
  {
    hide KeyLe;
    assert xs != [] ==> xs[0] in ys;
    assert ys != [] ==> ys[0] in xs;
    if xs != [] && ys != [] {
      SmallestFirst(xs, ys);
      forall k
        ensures k in xs[1..] <==> k in ys[1..]
      {
        TailKeys(xs, ys, k);
        TailKeys(ys, xs, k);
      }
      SameKeyOrder(xs[1..], ys[1..]);
      assert xs == [xs[0]] + xs[1..] && ys == [ys[0]] + ys[1..];
    }
  }

  lemma SortKeepsDistinct(s: seq<Entry>)
    requires DistinctKeys(s)
    ensures DistinctKeys(SortEntries(s))
  {
    var r := SortEntries(s);
    forall i, j | 0 <= i < j < |r|
      ensures r[i].key != r[j].key
    {
      if r[i].key == r[j].key {
        assert r[i] in s && r[j] in s;
        FindOnly(s, r[i]);
        FindOnly(s, r[j]);
        assert r[i] == r[j];
        TwiceInMultiset(r, i, j);
        OnceInMultiset(s, r[i]);
      }
    }
  }

  lemma TwiceInMultiset(s: seq<Entry>, i: nat, j: nat)
    requires i < j < |s| && s[i] == s[j]
    ensures multiset(s)[s[i]] >= 2
  {
    assert s == s[..j] + [s[j]] + s[j + 1..];
    assert s[..j][i] in multiset(s[..j]);
  }

  lemma {:induction false} OnceInMultiset(s: seq<Entry>, e: Entry)
    requires DistinctKeys(s)
    ensures multiset(s)[e] <= 1
  {
    if s != [] {
      OnceInMultiset(s[1..], e);
      assert s == [s[0]] + s[1..];
      if e == s[0] {
        assert forall i :: 0 <= i < |s[1..]| ==> s[1..][i] != e;
        assert e !in s[1..];
      }
    }
  }

  lemma SortedKeys(v: Value)
    requires v.Map? && Distinct(v)
    ensures StrictlySorted(Keys(SortEntries(v.entries)))
  {
    hide KeyLe, SortEntries;
    SortSorts(v.entries);
    SortKeepsDistinct(v.entries);
  }

  lemma KeysCarry(es: seq<Entry>, fs: seq<Entry>, k: JsString)
    requires forall i :: 0 <= i < |es| ==> Find(fs, es[i].key).Some?
    ensures k in Keys(SortEntries(es)) ==> k in Keys(SortEntries(fs))
  {
    hide SortEntries;
    var xs, ys := SortEntries(es), SortEntries(fs);
    if k in Keys(xs) {
      var i :| 0 <= i < |xs| && xs[i].key == k;
      assert xs[i] in es;
      var f := Entry(k, Find(fs, k).value);
      assert f in ys;
      var n :| 0 <= n < |ys| && ys[n] == f;
      assert Keys(ys)[n] == k;
    }
  }

  lemma SameSortedKeys(a: Value, b: Value)
    requires a.Map? && Distinct(a) && Distinct(b) && Same(a, b)
    ensures Keys(SortEntries(a.entries)) == Keys(SortEntries(b.entries))
  {
    hide SortEntries, KeyLe, Keys;
    SortedKeys(a);
    SortedKeys(b);
    forall k
      ensures k in Keys(SortEntries(a.entries)) <==> k in Keys(SortEntries(b.entries))
    {
      KeysCarry(a.entries, b.entries, k);
      KeysCarry(b.entries, a.entries, k);
    }
    SameKeyOrder(Keys(SortEntries(a.entries)), Keys(SortEntries(b.entries)));
  }

  lemma SamePairs(a: Value, b: Value, es: seq<Entry>, fs: seq<Entry>, i: nat)
    requires a.Map? && Distinct(a) && Distinct(b) && Same(a, b)
    requires es == SortEntries(a.entries) && fs == SortEntries(b.entries) && i < |es| == |fs|
    requires es[i].key == fs[i].key
    ensures Same(es[i].value, fs[i].value)
  {
    hide SortEntries;
    assert es[i] in a.entries && fs[i] in b.entries;
    var j :| 0 <= j < |a.entries| && a.entries[j] == es[i];
    FindOnly(b.entries, fs[i]);
    assert Find(b.entries, a.entries[j].key) == Some(fs[i].value);
  }

  /** The same value is the same on the wire, whatever order its maps were built in. */
  lemma {:induction false} SameIsWire(a: Value, b: Value)
    requires Distinct(a) && Distinct(b) && Same(a, b)
    ensures SameWire(a, b)
    decreases a
  {
    hide KeyLe, SortEntries, Keys, Find, Scalars;
    match a
    case List(items) =>
      forall i | 0 <= i < |items|
        ensures SameWire(items[i], b.items[i])
      {
        SameIsWire(items[i], b.items[i]);
      }
    case Map(entries) =>
      var es, fs := SortEntries(entries), SortEntries(b.entries);
      SameSortedKeys(a, b);
      assert |es| == |Keys(es)| == |Keys(fs)| == |fs|;
      SortedDistinct(a, es);
      SortedDistinct(b, fs);
      forall i | 0 <= i < |es|
        ensures es[i] in entries && es[i].key == fs[i].key && SameWire(es[i].value, fs[i].value)
      {
        assert Keys(es)[i] == Keys(fs)[i];
        SamePairs(a, b, es, fs, i);
        assert es[i] in entries;
        SameIsWire(es[i].value, fs[i].value);
      }
    case _ =>
  }

  /** What is the same on the wire has one encoding. */
  lemma {:induction false} WireEncodes(a: Value, b: Value)
    requires Encodable(a) && Encodable(b) && SameWire(a, b)
    ensures Encode(a) == Encode(b)
    decreases a, 1
  {
    hide Head, KeyLe, SortEntries, Scalars, EncodeItems, EncodeEntries;
    match a
    case Text(s) => SameBytes(s, b.s);
    case List(items) => WireItems(a, items, b, b.items);
    case Map(entries) => WireEntries(a, SortEntries(entries), b, SortEntries(b.entries));
    case _ =>
  }

  lemma {:induction false} WireItems(a: Value, xs: seq<Value>, b: Value, ys: seq<Value>)
    requires Items(a, xs) && Items(b, ys)
    requires |xs| == |ys| && forall i :: 0 <= i < |xs| ==> SameWire(xs[i], ys[i])
    ensures EncodeItems(a, xs) == EncodeItems(b, ys)
    decreases a, 0, |xs|
  {
    hide Items, Encodable, Encode, SameWire;
    if xs != [] {
      ItemsTail(a, xs);
      ItemsTail(b, ys);
      WireEncodes(xs[0], ys[0]);
      WireItems(a, xs[1..], b, ys[1..]);
    }
  }

  lemma {:induction false} WireEntries(a: Value, es: seq<Entry>, b: Value, fs: seq<Entry>)
    requires Entries(a, es) && Entries(b, fs)
    requires |es| == |fs|
    requires forall i :: 0 <= i < |es| ==> Scalars(es[i].key) == Scalars(fs[i].key) && SameWire(es[i].value, fs[i].value)
    ensures EncodeEntries(a, es) == EncodeEntries(b, fs)
    decreases a, 0, |es|
  {
    hide Entries, Encodable, Encode, Head, SameWire, Utf8, Scalars;
    if es != [] {
      EntriesTail(a, es);
      EntriesTail(b, fs);
      SameBytes(es[0].key, fs[0].key);
      WireEncodes(es[0].value, fs[0].value);
      WireEntries(a, es[1..], b, fs[1..]);
    }
  }

  /** Two encodable values have the same bytes exactly when they are the same on the wire. */
  lemma EncodeExact(a: Value, b: Value)
    requires Encodable(a) && Encodable(b)
    ensures Encode(a) == Encode(b) <==> SameWire(a, b)
  {
    if Encode(a) == Encode(b) {
      assert Encode(a) + [] == Encode(b) + [];
      EncodeUnique(a, b, [], []);
    }
    if SameWire(a, b) {
      WireEncodes(a, b);
    }
  }

  lemma {:induction false} SameReflexive(v: Value)
    requires Distinct(v)
    ensures Same(v, v)
    decreases v
  {
    match v
    case List(items) =>
      forall i | 0 <= i < |items|
        ensures Same(items[i], items[i])
      {
        SameReflexive(items[i]);
      }
    case Map(entries) =>
      forall i | 0 <= i < |entries|
        ensures Find(entries, entries[i].key) == Some(entries[i].value)
        ensures Same(entries[i].value, entries[i].value)
      {
        FindOnly(entries, entries[i]);
        SameReflexive(entries[i].value);
      }
    case _ =>
  }

  /** The bytes of a map do not depend on the order its entries were inserted. */
  lemma InsertionOrder(es: seq<Entry>, fs: seq<Entry>)
    requires multiset(es) == multiset(fs)
    requires Distinct(Map(es)) && Distinct(Map(fs)) && Encodable(Map(es)) && Encodable(Map(fs))
    ensures Encode(Map(es)) == Encode(Map(fs))
  {
    hide Encode, Encodable;
    forall i | 0 <= i < |es|
      ensures Find(fs, es[i].key) == Some(es[i].value) && Same(es[i].value, es[i].value)
    {
      assert es[i] in multiset(fs);
      FindOnly(fs, es[i]);
      SameReflexive(es[i].value);
    }
    forall i | 0 <= i < |fs|
      ensures Find(es, fs[i].key).Some?
    {
      assert fs[i] in multiset(es);
      FindOnly(es, fs[i]);
    }
    SameIsWire(Map(es), Map(fs));
    WireEncodes(Map(es), Map(fs));
  }
}
