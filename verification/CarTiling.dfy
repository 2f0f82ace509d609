/** What an accepted CARv1 section consists of (copy_carv1_payload in deploy/carv2_zstd.py). */
module CarTiling {
  import opened Bytes
  import opened Varint
  import opened CarReader

  /** Where row `i`'s frame ends: at the next frame, or at the end of the section. */
  function FrameEnd(rows: seq<Row>, total: nat, i: nat): nat
    requires i < |rows|
  {
    if i + 1 < |rows| then rows[i + 1].offset else total
  }

  /** The bytes from `from` to `to` end with a digest and the block it is the digest of. */
  ghost predicate BlockFrame(sha: Data -> Data, d: Data, from: nat, to: nat, digest: Data) {
    exists k: nat :: from + DIGEST_BYTES < k <= to <= |d| && d[k - DIGEST_BYTES..k] == digest == sha(d[k..to])
  }

  ghost predicate TileAt(sha: Data -> Data, d: Data, base: nat, rows: seq<Row>, end: nat, i: nat)
    requires i < |rows|
  {
    && rows[i].offset < FrameEnd(rows, end, i)
    && BlockFrame(sha, d, base + rows[i].offset, base + FrameEnd(rows, end, i), rows[i].digest)
  }

  /** The frames of `rows` follow one another from `at` to `end`, each with its own block. */
  ghost predicate Tiles(sha: Data -> Data, d: Data, base: nat, rows: seq<Row>, at: nat, end: nat) {
    && base + end <= |d|
    && (rows == [] ==> at == end)
    && (rows != [] ==> rows[0].offset == at)
    && forall i :: 0 <= i < |rows| ==> TileAt(sha, d, base, rows, end, i)
  }

  lemma FrameHasBlock(sha: Data -> Data, d: Data, base: nat, at: nat, total: nat)
    requires ReadFrame(sha, d, base, at, total).Ok?
    ensures var f := ReadFrame(sha, d, base, at, total).value;
            f.row.offset == at && BlockFrame(sha, d, base + at, base + f.next, f.row.digest)
  {
    hide ReadVarint, ReadCidHead, Uvarint;
    var size := ReadVarint(d, base + at, total).value;
    var cid := ReadCidHead(d, base + at + size.length).value;
    var k := cid.end + DIGEST_BYTES;
    assert d[k - DIGEST_BYTES..k] == d[cid.end..k];
  }

  lemma {:induction false} FramesTile(sha: Data -> Data, d: Data, base: nat, at: nat, total: nat, left: int)
    requires ReadFrames(sha, d, base, at, total, left).Ok?
    requires ReadFrames(sha, d, base, at, total, left).value.1 == total && base + total <= |d|
    ensures Tiles(sha, d, base, ReadFrames(sha, d, base, at, total, left).value.0, at, total)
    decreases total - at
  {
    FramesStep(sha, d, base, at, total, left);
    hide ReadFrame, ReadFrames, BlockFrame, TileAt;
    if at < total {
      var frame := ReadFrame(sha, d, base, at, total).value;
      var rest := ReadFrames(sha, d, base, frame.next, total, left - 1).value.0;
      FrameHasBlock(sha, d, base, at, total);
      FramesTile(sha, d, base, frame.next, total, left - 1);
      TilesFirst(sha, d, base, frame.row, rest, frame.next, total);
    }
  }

  lemma FramesStep(sha: Data -> Data, d: Data, base: nat, at: nat, total: nat, left: int)
    requires ReadFrames(sha, d, base, at, total, left).Ok?
    ensures at >= total ==> ReadFrames(sha, d, base, at, total, left).value == ([], at)
    ensures at < total ==>
              var frame := ReadFrame(sha, d, base, at, total);
              && frame.Ok?
              && var rest := ReadFrames(sha, d, base, frame.value.next, total, left - 1);
                 rest.Ok? && ReadFrames(sha, d, base, at, total, left).value == ([frame.value.row] + rest.value.0, rest.value.1)
  {
    hide ReadFrame;
  }

  lemma TilesFirst(sha: Data -> Data, d: Data, base: nat, row: Row, rest: seq<Row>, next: nat, end: nat)
    requires Tiles(sha, d, base, rest, next, end) && row.offset < next
    requires BlockFrame(sha, d, base + row.offset, base + next, row.digest)
    ensures Tiles(sha, d, base, [row] + rest, row.offset, end)
  {
    hide BlockFrame;
    var rows := [row] + rest;
    forall i | 0 <= i < |rows|
      ensures TileAt(sha, d, base, rows, end, i)
    {
      if i > 0 {
        assert TileAt(sha, d, base, rest, end, i - 1);
      }
    }
  }

  /**
   An accepted section is a header and, without a gap, one frame per row; each frame ends with the row's
   digest and the block whose hash that digest is, and the last one ends with the section.
   */
  lemma AcceptedTiles(sha: Data -> Data, d: Data, base: nat, total: nat, maxBlocks: int, eof: bool)
    requires ReadPayload(sha, d, base, total, maxBlocks, eof).Ok? && base + total <= |d|
    ensures var rows := ReadPayload(sha, d, base, total, maxBlocks, eof).value;
            && rows != []
            && Tiles(sha, d, base, rows, ReadHeader(d, base).value, total)
            && (eof ==> |d| == base + total)
  {
    hide ReadFrames, ReadHeader, Tiles;
    FramesTile(sha, d, base, ReadHeader(d, base).value, total, maxBlocks);
  }

  /** The frame's CID starts with a sha2-256 multihash whose length is not written in its shortest form. */
  predicate LongDigestLength(d: Data, cidAt: nat) {
    cidAt < |d| && d[cidAt] == SHA2_256 &&
    var n := ReadVarint(d, cidAt + 1, MAX_DIGEST_NUMBER);
    n.Ok? && n.value.length > |Uvarint(n.value.value)|
  }

  /**
   A frame reaches as far as its size prefix says exactly when it has no CIDv0 with a padded digest
   length: that length is counted by re-encoding it, so the frame then takes more bytes than declared.
   */
  lemma DeclaredSizeExact(sha: Data -> Data, d: Data, base: nat, at: nat, total: nat)
    requires ReadFrame(sha, d, base, at, total).Ok?
    ensures var size := ReadVarint(d, base + at, total).value;
            var declared := at + size.length + size.value;
            var next := ReadFrame(sha, d, base, at, total).value.next;
            && declared <= next
            && (next == declared <==> !LongDigestLength(d, base + at + size.length))
  {
    hide ReadVarint, Uvarint;
    var size := ReadVarint(d, base + at, total).value;
    var cidAt := base + at + size.length;
    if d[cidAt] == SHA2_256 {
      UvarintShortest(d, cidAt + 1, MAX_DIGEST_NUMBER);
    }
  }

  /** A one-byte header and one frame whose CIDv0 writes the digest length 32 in two bytes. */
  function PaddedCar(sha: Data -> Data, block: Data): Data {
    [0x01, 0xA0] + Uvarint(34 + |block|) + [0x12, 0xA0, 0x00] + sha(block) + block
  }

  lemma PaddedLength(d: Data, at: nat)
    requires at + 1 < |d| && d[at] == 0xA0 && d[at + 1] == 0
    ensures ReadVarint(d, at, MAX_DIGEST_NUMBER) == Ok(Number(32, 2)) && |Uvarint(32)| == 1
  {
    Pow128();
    GroupsStep(d, at, 0, 0);
    GroupsStep(d, at + 1, 1, 32);
    assert Group(0xA0, 0) == 32 && Group(0, 1) == 0;
  }

  lemma OneByteHeader(d: Data)
    requires |d| >= 2 && d[0] == 1
    ensures ReadHeader(d, 0) == Ok(2)
  {
    GroupsStep(d, 0, 0, 0);
    assert Group(1, 0) == 1;
  }

  /** One frame that ends the section is the whole section. */
  lemma OneFrame(sha: Data -> Data, d: Data, row: Row)
    requires |d| >= 2 && d[0] == 1 && ReadFrame(sha, d, 0, 2, |d|) == Ok(Frame(row, |d|))
    ensures ReadPayload(sha, d, 0, |d|, 1, true) == Ok([row])
  {
    hide ReadFrame, ReadHeader;
    OneByteHeader(d);
    assert ReadFrames(sha, d, 0, |d|, |d|, 0) == Ok(([], |d|));
    assert [row] + [] == [row];
  }

  /** For every block this is an accepted section whose only frame takes one byte more than it declares. */
  lemma PaddedIsAccepted(sha: Data -> Data, block: Data)
    requires |sha(block)| == DIGEST_BYTES && |block| < TWO_TO_THE_64
    ensures var d := PaddedCar(sha, block);
            var size := ReadVarint(d, 2, |d|);
            && ReadPayload(sha, d, 0, |d|, 1, true) == Ok([Row(SHA2_256, sha(block), 2)])
            && size.Ok? && 2 + size.value.length + size.value.value + 1 == |d|
            && LongDigestLength(d, 2 + size.value.length)
  {
    hide Uvarint, ReadVarint, ReadPayload;
    var d, prefix := PaddedCar(sha, block), Uvarint(34 + |block|);
    var rest := [0x12, 0xA0, 0x00] + sha(block) + block;
    assert d == [0x01, 0xA0] + prefix + rest;
    ReadVarintOfUvarint([0x01, 0xA0], 34 + |block|, rest, |d|);
    var cidAt := 2 + |prefix|;
    assert d[cidAt..] == rest;
    assert d[cidAt + 3..cidAt + 35] == rest[3..35] == sha(block);
    assert d[cidAt + 35..cidAt + 35 + |block|] == rest[35..] == block;
    assert d[cidAt] == rest[0] && d[cidAt + 1] == rest[1] && d[cidAt + 2] == rest[2];
    PaddedLength(d, cidAt + 1);
    assert ReadCidHead(d, cidAt) == Ok(CidHead(SHA2_256, 32, cidAt + 3, 2));
    OneFrame(sha, d, Row(SHA2_256, sha(block), 2));
  }
}
