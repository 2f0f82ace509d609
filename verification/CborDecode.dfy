/** A reader of CBOR written from section 3 of RFC 8949, and what it reads from the bytes of a head. */
module CborDecode {
  import opened Bytes
  import opened Unicode
  import opened Cbor

  /** The data items of RFC 8949 without floating-point numbers and indefinite lengths. */
  datatype Item =
    | Unsigned(n: nat)
    | Negative(n: nat)
    | ByteString(bytes: Data)
    | TextString(bytes: Data)
    | Array(items: seq<Item>)
    | Pairs(pairs: seq<Pair>)
    | Tagged(tag: nat, item: Item)
    | Simple(n: nat)

  datatype Pair = Pair(key: Item, value: Item)

  datatype Initial = Initial(major: nat, info: nat, argument: nat, length: nat)

  function ArgumentWidth(info: nat): nat
    requires info < 28
  {
    if info < 24 then 0 else if info == 24 then 1 else if info == 25 then 2 else if info == 26 then 4 else 8
  }

  /** The initial byte and its argument. */
  function ReadLead(d: Data): (r: Option<Initial>)
    ensures r.Some? ==> 1 <= r.value.length <= |d|
  {
    if d == [] || d[0] % 32 >= 28 then None
    else
      var info := d[0] % 32;
      var width := ArgumentWidth(info);
      if |d| < 1 + width then None
      else Some(Initial(d[0] / 32, info, if info < 24 then info else FromBE(d[1..1 + width]), 1 + width))
  }

  /** The first data item and what follows it. */
  function Decode(d: Data): (r: Option<(Item, Data)>)
    ensures r.Some? ==> |r.value.1| < |d|
    decreases |d|, 0
  {
    var lead := ReadLead(d);
    if lead.None? then None
    else
      var major, n, rest := lead.value.major, lead.value.argument, d[lead.value.length..];
      if major == 0 then Some((Unsigned(n), rest))
      else if major == 1 then Some((Negative(n), rest))
      else if major == 2 || major == 3 then
        if |rest| < n then None
        else Some((if major == 2 then ByteString(rest[..n]) else TextString(rest[..n]), rest[n..]))
      else if major == 4 then
        var items := DecodeItems(rest, n);
        if items.None? then None else Some((Array(items.value.0), items.value.1))
      else if major == 5 then
        var pairs := DecodePairs(rest, n);
        if pairs.None? then None else Some((Pairs(pairs.value.0), pairs.value.1))
      else if major == 6 then
        var item := Decode(rest);
        if item.None? then None else Some((Tagged(n, item.value.0), item.value.1))
      else if lead.value.info < 24 then Some((Simple(n), rest))
      else None
  }

  function DecodeItems(d: Data, count: nat): (r: Option<(seq<Item>, Data)>)
    ensures r.Some? ==> |r.value.1| <= |d|
    decreases |d|, 1
  {
    if count == 0 then Some(([], d))
    else
      var first := Decode(d);
      if first.None? then None
      else
        var more := DecodeItems(first.value.1, count - 1);
        if more.None? then None else Some(([first.value.0] + more.value.0, more.value.1))
  }

  function DecodePairs(d: Data, count: nat): (r: Option<(seq<Pair>, Data)>)
    ensures r.Some? ==> |r.value.1| <= |d|
    decreases |d|, 1
  {
    if count == 0 then Some(([], d))
    else
      var key := Decode(d);
      if key.None? then None
      else
        var value := Decode(key.value.1);
        if value.None? then None
        else
          var more := DecodePairs(value.value.1, count - 1);
          if more.None? then None else Some(([Pair(key.value.0, value.value.0)] + more.value.0, more.value.1))
  }

  // ----- heads

  lemma LeadOfHead(major: nat, n: nat, rest: Data)
    requires major < 8 && n < TWO_TO_THE_32
    ensures var lead := ReadLead(Head(major, n) + rest);
            && lead.Some? && lead.value.major == major && lead.value.argument == n
            && lead.value.length == |Head(major, n)| && (Head(major, n) + rest)[lead.value.length..] == rest
  {
    hide BE, FromBE;
    HeadShape(major, n);
    var head := Head(major, n);
    hide Head;
    var d := head + rest;
    assert d[0] == head[0] && d[1..|head|] == head[1..];
    if n >= 24 {
      Pow256();
      FromBEOfBE(HeadWidth(n), n);
    }
  }

  /** Strings of bytes or text. */
  lemma DecodeString(major: nat, body: Data, rest: Data)
    requires (major == 2 || major == 3) && |body| < TWO_TO_THE_32
    ensures Decode(Head(major, |body|) + body + rest) ==
            Some((if major == 2 then ByteString(body) else TextString(body), rest))
  {
    hide Head, ReadLead;
    LeadOfHead(major, |body|, body + rest);
    assert Head(major, |body|) + body + rest == Head(major, |body|) + (body + rest);
    assert (body + rest)[..|body|] == body && (body + rest)[|body|..] == rest;
  }

  lemma DecodeTag(tag: nat, d: Data)
    requires tag < TWO_TO_THE_32 && Decode(d).Some?
    ensures Decode(Head(6, tag) + d) == Some((Tagged(tag, Decode(d).value.0), Decode(d).value.1))
  {
    hide Head, ReadLead;
    LeadOfHead(6, tag, d);
  }

  lemma DecodeArray(n: nat, d: Data)
    requires n < TWO_TO_THE_32 && DecodeItems(d, n).Some?
    ensures Decode(Head(4, n) + d) == Some((Array(DecodeItems(d, n).value.0), DecodeItems(d, n).value.1))
  {
    hide Head, ReadLead, DecodeItems;
    LeadOfHead(4, n, d);
  }

  lemma DecodeMap(n: nat, d: Data)
    requires n < TWO_TO_THE_32 && DecodePairs(d, n).Some?
    ensures Decode(Head(5, n) + d) == Some((Pairs(DecodePairs(d, n).value.0), DecodePairs(d, n).value.1))
  {
    hide Head, ReadLead, DecodePairs;
    LeadOfHead(5, n, d);
  }

  lemma DecodeInteger(n: int, rest: Data)
    requires -(TWO_TO_THE_32 as int) <= n < TWO_TO_THE_32
    ensures n >= 0 ==> Decode(Head(0, n) + rest) == Some((Unsigned(n), rest))
    ensures n < 0 ==> Decode(Head(1, -1 - n) + rest) == Some((Negative(-1 - n), rest))
  {
    hide Head, ReadLead;
    LeadOfHead(if n >= 0 then 0 else 1, if n >= 0 then n else -1 - n, rest);
  }

  lemma DecodeSimple(n: nat, rest: Data)
    requires n < 24
    ensures Decode([0xE0 + n] + rest) == Some((Simple(n), rest))
  {
    assert ([0xE0 + n] + rest)[1..] == rest;
  }

  // ----- a value and the item read from its bytes

  const FALSE: nat := 20
  const TRUE: nat := 21
  const NULL: nat := 22

  /** Shorter keys first, counted in bytes; keys of one length in JavaScript's order. */
  ghost predicate InKeyOrder(es: seq<Entry>) {
    forall i, j :: 0 <= i < j < |es| ==>
      |Utf8(es[i].key)| < |Utf8(es[j].key)| ||
      (|Utf8(es[i].key)| == |Utf8(es[j].key)| && InOrder(es[i].key, es[j].key))
  }

  /** The item is the value; a map's pairs are its entries in key order. */
  ghost predicate Represents(item: Item, v: Value)
    decreases v
  {
    match v
    case Null => item == Simple(NULL)
    case Boolean(b) => item == Simple(if b then TRUE else FALSE)
    case Integer(n) => item == if n >= 0 then Unsigned(n) else Negative(-1 - n)
    case Text(s) => item == TextString(Utf8(s))
    case List(items) =>
      item.Array? && |item.items| == |items| && forall i :: 0 <= i < |items| ==> Represents(item.items[i], items[i])
    case Map(entries) =>
      item.Pairs? && exists es: seq<Entry> ::
        && multiset(es) == multiset(entries) && InKeyOrder(es) && |es| == |item.pairs|
        && forall i :: 0 <= i < |es| ==>
             && es[i] in entries && item.pairs[i].key == TextString(Utf8(es[i].key))
             && Represents(item.pairs[i].value, es[i].value)
  }

  /** The bytes of a value followed by anything are read as that value, and what follows is left. */
  lemma {:induction false} DecodeOfEncode(v: Value, rest: Data) returns (item: Item)
    requires Encodable(v)
    ensures Decode(Encode(v) + rest) == Some((item, rest)) && Represents(item, v)
    decreases v, 1
  {
    hide Head, Decode, DecodeItems, DecodePairs, SortEntries, Utf8, Represents;
    match v
    case Null =>
      DecodeSimple(NULL, rest);
      item := Simple(NULL);
      Leaf(item, v);
    case Boolean(b) =>
      DecodeSimple(if b then TRUE else FALSE, rest);
      item := Simple(if b then TRUE else FALSE);
      Leaf(item, v);
    case Integer(n) =>
      DecodeInteger(n, rest);
      item := if n >= 0 then Unsigned(n) else Negative(-1 - n);
      Leaf(item, v);
    case Text(s) =>
      DecodeString(3, Utf8(s), rest);
      item := TextString(Utf8(s));
      Leaf(item, v);
    case List(items) =>
      var read := ItemsOf(v, items, rest);
      assert Encode(v) + rest == Head(4, |items|) + (EncodeItems(v, items) + rest);
      DecodeArray(|items|, EncodeItems(v, items) + rest);
      item := Array(read);
      ListItem(read, v);
    case Map(entries) =>
      var es := SortEntries(entries);
      EntriesOf(v);
      var read := PairsOf(v, es, rest);
      assert Encode(v) + rest == Head(5, |es|) + (EncodeEntries(v, es) + rest);
      DecodeMap(|es|, EncodeEntries(v, es) + rest);
      item := Pairs(read);
      SortedInKeyOrder(entries);
      MapItem(read, es, v);
  }

  lemma EntriesOf(v: Value)
    requires v.Map? && Encodable(v)
    ensures Entries(v, SortEntries(v.entries)) && |SortEntries(v.entries)| < TWO_TO_THE_32
    ensures Encode(v) == Head(5, |v.entries|) + EncodeEntries(v, SortEntries(v.entries))
  {
    hide SortEntries, Head;
  }

  lemma {:induction false} ItemsOf(parent: Value, items: seq<Value>, rest: Data) returns (read: seq<Item>)
    requires Items(parent, items)
    ensures DecodeItems(EncodeItems(parent, items) + rest, |items|) == Some((read, rest))
    ensures |read| == |items| && forall i :: 0 <= i < |items| ==> Represents(read[i], items[i])
    decreases parent, 0, |items|
  {
    hide Decode, Represents, Encode, Encodable, Items;
    if items == [] {
      read := [];
      assert [] + rest == rest;
    } else {
      ItemsTail(parent, items);
      var after := EncodeItems(parent, items[1..]) + rest;
      assert EncodeItems(parent, items) + rest == Encode(items[0]) + after;
      var first := DecodeOfEncode(items[0], after);
      var more := ItemsOf(parent, items[1..], rest);
      read := [first] + more;
    }
  }

  lemma {:induction false} PairsOf(parent: Value, es: seq<Entry>, rest: Data) returns (read: seq<Pair>)
    requires Entries(parent, es)
    ensures DecodePairs(EncodeEntries(parent, es) + rest, |es|) == Some((read, rest))
    ensures |read| == |es|
    ensures forall i :: 0 <= i < |es| ==>
              read[i].key == TextString(Utf8(es[i].key)) && Represents(read[i].value, es[i].value)
    decreases parent, 0, |es|
  {
    hide Decode, Represents, Encode, Encodable, Entries, Head, Utf8;
    if es == [] {
      read := [];
      assert [] + rest == rest;
    } else {
      EntriesTail(parent, es);
      var after := EncodeEntries(parent, es[1..]) + rest;
      var value := Encode(es[0].value) + after;
      assert EncodeEntries(parent, es) + rest == EncodeText(es[0].key) + value;
      DecodeString(3, Utf8(es[0].key), value);
      var first := DecodeOfEncode(es[0].value, after);
      var more := PairsOf(parent, es[1..], rest);
      read := [Pair(TextString(Utf8(es[0].key)), first)] + more;
    }
  }

  lemma Leaf(item: Item, v: Value)
    requires !v.List? && !v.Map?
    requires match v
             case Null => item == Simple(NULL)
             case Boolean(b) => item == Simple(if b then TRUE else FALSE)
             case Integer(n) => item == (if n >= 0 then Unsigned(n) else Negative(-1 - n))
             case Text(s) => item == TextString(Utf8(s))
             case _ => false
    ensures Represents(item, v)
  {
  }

  lemma ListItem(read: seq<Item>, v: Value)
    requires v.List? && |read| == |v.items| && forall i :: 0 <= i < |read| ==> Represents(read[i], v.items[i])
    ensures Represents(Array(read), v)
  {
  }

  lemma MapItem(read: seq<Pair>, es: seq<Entry>, v: Value)
    requires v.Map? && multiset(es) == multiset(v.entries) && InKeyOrder(es) && |es| == |read|
    requires forall i :: 0 <= i < |es| ==> read[i].key == TextString(Utf8(es[i].key)) && Represents(read[i].value, es[i].value)
    ensures Represents(Pairs(read), v)
  {
    hide InKeyOrder, Utf8;
    forall i | 0 <= i < |es|
      ensures es[i] in v.entries
    {
      assert es[i] in multiset(es);
    }
  }

  // ----- the key order

  lemma SortedInKeyOrder(entries: seq<Entry>)
    ensures InKeyOrder(SortEntries(entries))
  {
    hide Utf8, SortEntries;
    SortSorts(entries);
    var es := SortEntries(entries);
    forall i, j | 0 <= i < j < |es|
      ensures |Utf8(es[i].key)| < |Utf8(es[j].key)| ||
              (|Utf8(es[i].key)| == |Utf8(es[j].key)| && InOrder(es[i].key, es[j].key))
    {
      assert KeyLe(es[i].key, es[j].key);
      LexExact(es[i].key, es[j].key);
    }
  }

  /** The order of RFC 8949 section 4.2.3 for encoded text keys: shorter first, then bytewise. */
  ghost predicate LengthFirst(a: Data, b: Data) {
    |a| < |b| || (|a| == |b| && InOrder(a, b))
  }

  /**
   Two keys of the written map stand in the order of RFC 8949 section 4.2.3 exactly when they differ in length
   or their first difference does not cross, as long as no surrogate is unpaired.
   */
  lemma SortedIsCanonical(entries: seq<Entry>, i: nat, j: nat)
    requires i < j < |SortEntries(entries)|
    requires var es := SortEntries(entries); Paired(es[i].key) && Paired(es[j].key) && Utf8(es[i].key) != Utf8(es[j].key)
    ensures var a, b := SortEntries(entries)[i].key, SortEntries(entries)[j].key;
            && |Utf8(a)| <= |Utf8(b)|
            && (LengthFirst(Utf8(a), Utf8(b)) <==> |Utf8(a)| < |Utf8(b)| || !CrossesFirst(Scalars(a), Scalars(b)))
  {
    hide Utf8, SortEntries, LexLe, InOrder, Paired;
    SortSorts(entries);
    var a, b := SortEntries(entries)[i].key, SortEntries(entries)[j].key;
    assert KeyLe(a, b);
    if |Utf8(a)| == |Utf8(b)| {
      KeyOrderIsCanonical(a, b);
      LexExact(Utf8(a), Utf8(b));
    }
  }
}
