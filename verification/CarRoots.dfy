/** The headers of CAR files as a CBOR reader reads them. */
module CarRoots {
  import opened Bytes
  import opened Varint
  import opened CborDecode
  import CarExport
  import CarV2
  import Cbor

  const DAG_LINK: nat := 42

  /** A link of dag-cbor: tag 42 on the CID behind a zero byte. */
  function Link(cid: Data): Item {
    Tagged(DAG_LINK, ByteString([0x00] + cid))
  }

  function Links(cids: seq<Data>): (items: seq<Item>)
    ensures |items| == |cids|
    ensures forall i :: 0 <= i < |cids| ==> items[i] == Link(cids[i])
  {
    seq(|cids|, i requires 0 <= i < |cids| => Link(cids[i]))
  }

  /** The header of a CARv1 file with these roots. */
  function HeaderItem(cids: seq<Data>): Item {
    Pairs([Pair(TextString(Ascii("roots")), Array(Links(cids))), Pair(TextString(Ascii("version")), Unsigned(1))])
  }

  /** A CARv1 header written from the CARv1 specification: its length, its one data item, and what follows. */
  function ReadCarHeader(file: Data): Option<(Item, Data)> {
    var size := ReadVarint(file, 0, |file|);
    if size.Err? || size.value.length + size.value.value > |file| then None
    else
      var end := size.value.length + size.value.value;
      var item := Decode(file[size.value.length..end]);
      if item.Some? && item.value.1 == [] then Some((item.value.0, file[end..])) else None
  }

  function CidsOf(items: seq<CarExport.Item>): (cids: seq<Data>)
    ensures |cids| == |items| && forall i :: 0 <= i < |items| ==> cids[i] == items[i].cid
  {
    seq(|items|, i requires 0 <= i < |items| => items[i].cid)
  }

  lemma KnownTexts()
    ensures [0x72, 0x6F, 0x6F, 0x74, 0x73] == Ascii("roots")
    ensures [0x76, 0x65, 0x72, 0x73, 0x69, 0x6F, 0x6E] == Ascii("version")
  {
  }

  lemma KnownHeads()
    ensures Cbor.Head(5, 2) == [0xA2] && Cbor.Head(5, 1) == [0xA1]
    ensures Cbor.Head(3, 5) == [0x65] && Cbor.Head(3, 7) == [0x67]
    ensures Cbor.Head(0, 1) == [0x01] && Cbor.Head(0, 2) == [0x02] && Cbor.Head(6, DAG_LINK) == [0xD8, 0x2A]
  {
    assert BE(1, DAG_LINK) == BE(0, 0) + [DAG_LINK];
  }

  lemma RootIsLink(cid: Data, rest: Data)
    requires |cid| + 1 < TWO_TO_THE_32
    ensures Decode(CarExport.Root(cid) + rest) == Some((Link(cid), rest))
  {
    hide Cbor.Head, Decode;
    KnownHeads();
    var body := Cbor.Head(2, |cid| + 1) + ([0x00] + cid) + rest;
    DecodeString(2, [0x00] + cid, rest);
    DecodeTag(DAG_LINK, body);
    assert CarExport.Root(cid) + rest == Cbor.Head(6, DAG_LINK) + body;
  }

  lemma {:induction false} RootsAreLinks(items: seq<CarExport.Item>, rest: Data)
    requires forall i :: 0 <= i < |items| ==> |items[i].cid| + 1 < TWO_TO_THE_32
    ensures DecodeItems(CarExport.Roots(items) + rest, |items|) == Some((Links(CidsOf(items)), rest))
  {
    hide Decode, CarExport.Root;
    if items == [] {
      assert [] + rest == rest;
      assert Links(CidsOf(items)) == [];
    } else {
      var after := CarExport.Roots(items[1..]) + rest;
      assert CarExport.Roots(items) + rest == CarExport.Root(items[0].cid) + after;
      RootIsLink(items[0].cid, after);
      RootsAreLinks(items[1..], rest);
      assert Links(CidsOf(items)) == [Link(items[0].cid)] + Links(CidsOf(items[1..]));
    }
  }

  /** A text key and a value in front of other pairs. */
  lemma PairInFront(key: Data, v: Data, x: Item, after: Data, n: nat, ps: seq<Pair>, rest: Data)
    requires |key| < TWO_TO_THE_32
    requires Decode(v) == Some((x, after)) && DecodePairs(after, n) == Some((ps, rest))
    ensures DecodePairs(Cbor.Head(3, |key|) + key + v, n + 1) == Some(([Pair(TextString(key), x)] + ps, rest))
  {
    hide Cbor.Head, Decode;
    DecodeString(3, key, v);
  }

  /** Two text keys with their values, as the pairs of one map. */
  lemma TwoPairs(key: Data, value: Data, x: Item, next: Data, last: Data, y: Item, rest: Data)
    requires |key| < TWO_TO_THE_32 && |next| < TWO_TO_THE_32 && Decode(last + rest) == Some((y, rest))
    requires var after := Cbor.Head(3, |next|) + next + (last + rest); Decode(value + after) == Some((x, after))
    ensures var after := Cbor.Head(3, |next|) + next + (last + rest);
            Decode(Cbor.Head(5, 2) + (Cbor.Head(3, |key|) + key + (value + after))) ==
            Some((Pairs([Pair(TextString(key), x), Pair(TextString(next), y)]), rest))
  {
    hide Cbor.Head, Decode, DecodePairs;
    var after := Cbor.Head(3, |next|) + next + (last + rest);
    NoPairs(rest);
    PairInFront(next, last + rest, y, rest, 0, [], rest);
    PairInFront(key, value + after, x, after, 1, [Pair(TextString(next), y)] + [], rest);
    assert [Pair(TextString(key), x)] + ([Pair(TextString(next), y)] + []) ==
           [Pair(TextString(key), x), Pair(TextString(next), y)];
    DecodeMap(2, Cbor.Head(3, |key|) + key + (value + after));
  }

  lemma NoPairs(d: Data)
    ensures DecodePairs(d, 0) == Some(([], d))
  {
  }

  /** The header's one data item: the roots, a link to each item's CID in order, and version 1. */
  lemma HeaderBodyIsItem(items: seq<CarExport.Item>, rest: Data)
    requires CarExport.CidsFit(items)
    ensures Decode(CarExport.HeaderBody(items) + rest) == Some((HeaderItem(CidsOf(items)), rest))
  {
    hide Cbor.Head, Decode, DecodeItems, CarExport.Roots;
    KnownHeads();
    KnownTexts();
    var roots, version := Ascii("roots"), Ascii("version");
    var value := Cbor.Head(4, |items|) + CarExport.Roots(items);
    var after := Cbor.Head(3, 7) + version + (Cbor.Head(0, 1) + rest);
    RootsAreLinks(items, after);
    DecodeArray(|items|, CarExport.Roots(items) + after);
    assert value + after == Cbor.Head(4, |items|) + (CarExport.Roots(items) + after);
    DecodeInteger(1, rest);
    TwoPairs(roots, value, Array(Links(CidsOf(items))), version, Cbor.Head(0, 1), Unsigned(1), rest);
    assert CarExport.HeaderBody(items) + rest == Cbor.Head(5, 2) + (Cbor.Head(3, 5) + roots + (value + after));
  }

  /** An exported file starts with a CARv1 header of exactly the items' CIDs, and the frames follow it. */
  lemma ExportedHeader(items: seq<CarExport.Item>, blocks: seq<Data>)
    requires |items| == |blocks| && CarExport.CidsFit(items) && |CarExport.HeaderBody(items)| < TWO_TO_THE_64
    ensures ReadCarHeader(CarExport.CarFile(items, blocks)) ==
            Some((HeaderItem(CidsOf(items)), CarExport.Frames(items, blocks)))
  {
    hide Decode, CarExport.HeaderBody, CarExport.Frames, Uvarint, ReadVarint, HeaderItem;
    var body := CarExport.HeaderBody(items);
    HeaderBodyIsItem(items, []);
    assert body + [] == body;
    HeaderAt(Uvarint(|body|), body, CarExport.Frames(items, blocks));
  }

  /** The pragma of a CARv2 file is a header with version 2 and nothing else. */
  lemma PragmaIsVersion(rest: Data)
    ensures ReadCarHeader(CarV2.PRAGMA + rest) ==
            Some((Pairs([Pair(TextString(Ascii("version")), Unsigned(2))]), rest))
  {
    hide Cbor.Head, Decode, DecodePairs, ReadVarint, Uvarint;
    KnownHeads();
    KnownTexts();
    var version := Ascii("version");
    var body := Cbor.Head(3, 7) + version + (Cbor.Head(0, 2) + []);
    NoPairs([]);
    DecodeInteger(2, []);
    PairInFront(version, Cbor.Head(0, 2) + [], Unsigned(2), [], 0, [], []);
    assert [Pair(TextString(version), Unsigned(2))] + [] == [Pair(TextString(version), Unsigned(2))];
    DecodeMap(1, body);
    ShortVarint(10);
    var item := Cbor.Head(5, 1) + body;
    assert CarV2.PRAGMA == Uvarint(10) + item;
    HeaderAt(Uvarint(10), item, rest);
  }

  /** A length, an item of that length, and what follows. */
  lemma HeaderAt(prefix: Data, item: Data, rest: Data)
    requires prefix == Uvarint(|item|) && |item| < TWO_TO_THE_64
    requires Decode(item).Some? && Decode(item).value.1 == []
    ensures ReadCarHeader(prefix + item + rest) == Some((Decode(item).value.0, rest))
  {
    hide Decode, ReadVarint, Uvarint;
    var file := prefix + item + rest;
    ReadVarintOfUvarint([], |item|, item + rest, |file|);
    assert [] + prefix + (item + rest) == file;
    assert file[|prefix|..|prefix| + |item|] == item && file[|prefix| + |item|..] == rest;
  }

  lemma ShortVarint(n: nat)
    requires n < 128
    ensures Uvarint(n) == [n]
  {
  }
}
