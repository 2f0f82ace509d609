/** copy_carv1_payload as it runs: reading, hashing and copying one section frame by frame. */
module CarCopy {
  import opened Bytes
  import opened Varint
  import opened Files
  import opened CarReader

  method CopyCidHead(source: Source, sink: Sink, ghost before: Data, ghost base: nat)
    returns (r: Result<CidHead, ArchiveError>)
    requires Copied(source, sink, before, base)
    modifies source, sink
    ensures r == ReadCidHead(source.data, old(source.pos))
    ensures r.Ok? ==> source.pos == r.value.end && Copied(source, sink, before, base)
  {
    hide Copied, Groups;
    var first :- CopyBytes(source, sink, 1, before, base);
    if first[0] == SHA2_256 {
      var n :- ReadUvarint(source, sink, MAX_DIGEST_NUMBER, before, base);
      var again := EncodeUvarint(n.value);
      return Ok(CidHead(SHA2_256, n.value, source.pos, 1 + |again.value|));
    }
    if first[0] != 1 {
      return Err(UnsupportedVersion);
    }
    var codec :- ReadUvarint(source, sink, MAX_CID_NUMBER, before, base);
    var code :- ReadUvarint(source, sink, MAX_CID_NUMBER, before, base);
    var size :- ReadUvarint(source, sink, MAX_DIGEST_NUMBER, before, base);
    return Ok(CidHead(code.value, size.value, source.pos, 1 + codec.length + code.length + size.length));
  }

  method CopyFrame(sha: Data -> Data, source: Source, sink: Sink, written: nat, total: nat,
                   ghost before: Data, ghost base: nat)
    returns (r: Result<Frame, ArchiveError>)
    requires Copied(source, sink, before, base) && source.pos == base + written
    modifies source, sink
    ensures r == ReadFrame(sha, source.data, base, written, total)
    ensures r.Ok? ==> source.pos == base + r.value.next && Copied(source, sink, before, base)
  {
    hide Copied, Groups, ReadCidHead;
    var start := source.pos;
    var size :- ReadUvarint(source, sink, total, before, base);
    if size.value < 1 || written + size.length + size.value > total {
      return Err(FrameExceedsData);
    }
    var cid :- CopyCidHead(source, sink, before, base);
    if cid.digestSize != DIGEST_BYTES || cid.code != SHA2_256 {
      return Err(UnsupportedHash);
    }
    var digest :- CopyBytes(source, sink, cid.digestSize, before, base);
    if cid.counted + cid.digestSize > size.value {
      return Err(CidLongerThanFrame);
    }
    var block :- CopyExact(source, sink, size.value - (cid.counted + cid.digestSize), before, base);
    if sha(block) != digest {
      return Err(DigestMismatch);
    }
    return Ok(Frame(Row(cid.code, digest, written), written + (source.pos - start)));
  }

  ghost function Prepend(rows: seq<Row>, r: Result<(seq<Row>, nat), ArchiveError>)
    : Result<(seq<Row>, nat), ArchiveError>
  {
    if r.Err? then r else Ok((rows + r.value.0, r.value.1))
  }

  lemma PrependStep(sha: Data -> Data, d: Data, base: nat, at: nat, total: nat, left: int, rows: seq<Row>, frame: Frame)
    requires at < total
    requires ReadFrame(sha, d, base, at, total) == Ok(frame)
    ensures Prepend(rows, ReadFrames(sha, d, base, at, total, left)) ==
            if left < 1 then Err(TooManyBlocks)
            else Prepend(rows + [frame.row], ReadFrames(sha, d, base, frame.next, total, left - 1))
  {
    hide ReadFrame;
    var rest := ReadFrames(sha, d, base, frame.next, total, left - 1);
    if left >= 1 && rest.Ok? {
      assert rows + ([frame.row] + rest.value.0) == rows + [frame.row] + rest.value.0;
    }
  }

  method CopyHeader(source: Source, sink: Sink, ghost before: Data, ghost base: nat)
    returns (r: Result<nat, ArchiveError>)
    requires Copied(source, sink, before, base)
    modifies source, sink
    ensures r == ReadHeader(source.data, old(source.pos))
    ensures r.Ok? ==> source.pos == old(source.pos) + r.value && Copied(source, sink, before, base)
  {
    var size :- ReadUvarint(source, sink, MAX_HEADER_BYTES, before, base);
    if size.value < 1 || size.value > MAX_HEADER_BYTES {
      return Err(InvalidHeaderSize);
    }
    var header :- CopyBytes(source, sink, size.value, before, base);
    return Ok(size.length + size.value);
  }

  /** copy_carv1_payload: the rows of the section, which is copied to the destination unchanged. */
  method CopyCarv1Payload(sha: Data -> Data, source: Source, sink: Sink, total: nat, maxBlocks: int,
                          start: nat, requireEof: bool)
    returns (r: Result<seq<Row>, ArchiveError>)
    requires start <= |source.data|
    modifies source, sink
    ensures r == ReadPayload(sha, source.data, start, total, maxBlocks, requireEof)
    ensures r.Ok? ==> start + total <= |source.data|
    ensures r.Ok? ==> sink.content == old(sink.content) + source.data[start..start + total]
  {
    hide Groups, ReadFrame;
    ghost var d, before := source.data, sink.content;
    source.Seek(start);
    var written: nat :- CopyHeader(source, sink, before, start);
    ghost var g := ReadFrames(sha, d, start, written, total, maxBlocks);
    var rows: seq<Row> := [];
    assert g.Ok? ==> rows + g.value.0 == g.value.0;
    while written < total
      invariant source.pos == start + written && Copied(source, sink, before, start)
      invariant g == Prepend(rows, ReadFrames(sha, d, start, written, total, maxBlocks - |rows|))
      decreases total - written
    {
      var frame :- CopyFrame(sha, source, sink, written, total, before, start);
      PrependStep(sha, d, start, written, total, maxBlocks - |rows|, rows, frame);
      rows := rows + [frame.row];
      written := frame.next;
      if |rows| > maxBlocks {
        return Err(TooManyBlocks);
      }
    }
    assert rows + [] == rows;
    assert g == Ok((rows, written));
    if written != total {
      return Err(TrailingOrMissing);
    }
    if requireEof {
      var more := source.Read(1);
      if more != [] {
        return Err(TrailingOrMissing);
      }
    }
    if rows == [] {
      return Err(NoBlocks);
    }
    return Ok(rows);
  }
}
