/** An accepted CARv1 section is judged by its own bytes, wherever it stands in a file. */
module CarLocality {
  import opened Bytes
  import opened Varint
  import opened CarReader

  lemma ReadCidHeadLocal(d: Data, a: nat, e: Data, b: nat, n: nat, i: nat)
    requires Agree(d, a, e, b, n)
    requires var r := ReadCidHead(d, a + i); r.Ok? && r.value.end <= a + n
    ensures var r := ReadCidHead(d, a + i).value;
            ReadCidHead(e, b + i) == Ok(r.(end := b + (r.end - a)))
  {
    hide ReadVarint;
    AgreeAt(d, a, e, b, n, i);
    if d[a + i] == SHA2_256 {
      ReadVarintLocal(d, a, e, b, n, i + 1, MAX_DIGEST_NUMBER);
    } else {
      var codec := ReadVarint(d, a + i + 1, MAX_CID_NUMBER).value;
      var j := i + 1 + codec.length;
      var code := ReadVarint(d, a + j, MAX_CID_NUMBER).value;
      ReadVarintLocal(d, a, e, b, n, i + 1, MAX_CID_NUMBER);
      ReadVarintLocal(d, a, e, b, n, j, MAX_CID_NUMBER);
      ReadVarintLocal(d, a, e, b, n, j + code.length, MAX_DIGEST_NUMBER);
    }
  }

  lemma AgreeSlice(d: Data, a: nat, e: Data, b: nat, n: nat, i: nat, j: nat)
    requires Agree(d, a, e, b, n) && i <= j <= n
    ensures d[a + i..a + j] == e[b + i..b + j]
  {
    SliceOfSlice(d, a, n, i, j);
    SliceOfSlice(e, b, n, i, j);
  }

  lemma ReadFrameLocal(sha: Data -> Data, d: Data, a: nat, e: Data, b: nat, n: nat, at: nat, total: nat)
    requires Agree(d, a, e, b, n)
    requires var r := ReadFrame(sha, d, a, at, total); r.Ok? && r.value.next <= n
    ensures ReadFrame(sha, e, b, at, total) == ReadFrame(sha, d, a, at, total)
  {
    hide ReadVarint, ReadCidHead;
    var size := ReadVarint(d, a + at, total).value;
    var cidAt := at + size.length;
    var cid := ReadCidHead(d, a + cidAt).value;
    var digestAt := cid.end - a;
    var payloadAt := digestAt + DIGEST_BYTES;
    var next := payloadAt + (size.value - (cid.counted + DIGEST_BYTES));
    ReadVarintLocal(d, a, e, b, n, at, total);
    ReadCidHeadLocal(d, a, e, b, n, cidAt);
    AgreeSlice(d, a, e, b, n, digestAt, payloadAt);
    AgreeSlice(d, a, e, b, n, payloadAt, next);
  }

  lemma {:induction false} ReadFramesLocal(sha: Data -> Data, d: Data, a: nat, e: Data, b: nat, n: nat,
                                           at: nat, total: nat, left: int)
    requires Agree(d, a, e, b, n)
    requires var r := ReadFrames(sha, d, a, at, total, left); r.Ok? && r.value.1 <= n
    ensures ReadFrames(sha, e, b, at, total, left) == ReadFrames(sha, d, a, at, total, left)
    decreases total - at
  {
    hide ReadFrame;
    if at < total {
      var frame := ReadFrame(sha, d, a, at, total).value;
      ReadFramesLocal(sha, d, a, e, b, n, frame.next, total, left - 1);
      ReadFrameLocal(sha, d, a, e, b, n, at, total);
    }
  }

  /** Two files that agree on the section accept the same rows, when nothing after it is looked at. */
  lemma ReadPayloadLocal(sha: Data -> Data, d: Data, a: nat, e: Data, b: nat, total: nat, maxBlocks: int,
                         eofD: bool, eofE: bool)
    requires Agree(d, a, e, b, total)
    requires eofE ==> b + total == |e|
    requires ReadPayload(sha, d, a, total, maxBlocks, eofD).Ok?
    ensures ReadPayload(sha, e, b, total, maxBlocks, eofE) == ReadPayload(sha, d, a, total, maxBlocks, eofD)
  {
    hide ReadVarint, ReadFrames;
    ReadVarintLocal(d, a, e, b, total, 0, MAX_HEADER_BYTES);
    ReadFramesLocal(sha, d, a, e, b, total, ReadHeader(d, a).value, total, maxBlocks);
  }
}
