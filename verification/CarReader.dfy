/** Reading one CARv1 data section: header, then sha2-256 frames (deploy/carv2_zstd.py). */
module CarReader {
  import opened Bytes
  import opened Varint

  const SHA2_256: nat := 0x12
  const MAX_HEADER_BYTES: nat := 16 * 1024 * 1024
  const MAX_CID_NUMBER: nat := TWO_TO_THE_64 - 1
  const MAX_DIGEST_NUMBER: nat := 1024
  const DIGEST_BYTES: nat := 32

  /** One index row: the multihash code, the digest, and where the frame starts in the data section. */
  datatype Row = Row(code: nat, digest: Data, offset: nat)

  /** A CID up to its digest: `end` is where the digest starts, `counted` the bytes the reader counts. */
  datatype CidHead = CidHead(code: nat, digestSize: nat, end: nat, counted: nat)

  datatype Frame = Frame(row: Row, next: nat)

  /** The two CID shapes. The CIDv0 branch counts the digest length by re-encoding it. */
  function ReadCidHead(d: Data, at: nat): (r: Result<CidHead, ArchiveError>)
    ensures r.Ok? ==> at < r.value.end <= |d| && r.value.counted <= r.value.end - at
  {
    if at >= |d| then Err(TruncatedData)
    else if d[at] == SHA2_256 then
      var n :- ReadVarint(d, at + 1, MAX_DIGEST_NUMBER);
      UvarintShortest(d, at + 1, MAX_DIGEST_NUMBER);
      Ok(CidHead(SHA2_256, n.value, at + 1 + n.length, 1 + |Uvarint(n.value)|))
    else if d[at] != 1 then Err(UnsupportedVersion)
    else
      var codec :- ReadVarint(d, at + 1, MAX_CID_NUMBER);
      var code :- ReadVarint(d, at + 1 + codec.length, MAX_CID_NUMBER);
      var size :- ReadVarint(d, at + 1 + codec.length + code.length, MAX_DIGEST_NUMBER);
      var counted := 1 + codec.length + code.length + size.length;
      Ok(CidHead(code.value, size.value, at + counted, counted))
  }

  /** What a varint adds from here is `rest`, whose minimal form is no longer than what was read. */
  lemma {:induction false} GroupsRest(d: Data, at: nat, length: nat, value: nat) returns (rest: nat)
    requires length <= MAX_VARINT_BYTES
    requires Groups(d, at, length, value).Ok?
    ensures Groups(d, at, length, value).value.value == value + rest * Pow(128, length)
    ensures length + |Uvarint(rest)| <= Groups(d, at, length, value).value.length
    decreases MAX_VARINT_BYTES - length
  {
    hide Groups, Pow;
    GroupsStep(d, at, length, value);
    rest := d[at] % 128;
    if d[at] >= 128 {
      var high := GroupsRest(d, at + 1, length + 1, value + Group(d[at], length));
      rest := rest + 128 * high;
      SplitGroup(rest, length);
      assert rest / 128 == high && rest % 128 == d[at] % 128;
      assert Group(rest % 128 + 128, length) == Group(d[at], length);
    }
  }

  /** No varint is shorter than the minimal one of the same value. */
  lemma UvarintShortest(d: Data, at: nat, limit: nat)
    ensures var n := ReadVarint(d, at, limit); n.Ok? ==> |Uvarint(n.value.value)| <= n.value.length
  {
    if ReadVarint(d, at, limit).Ok? {
      var rest := GroupsRest(d, at, 0, 0);
      assert rest * Pow(128, 0) == rest;
    }
  }

  /** One frame at `at`, both counted from `base`: its index row and where the next frame starts. */
  function ReadFrame(sha: Data -> Data, d: Data, base: nat, at: nat, total: nat): (r: Result<Frame, ArchiveError>)
    ensures r.Ok? ==> at < r.value.next && base + r.value.next <= |d|
  {
    var size :- ReadVarint(d, base + at, total);
    var cidAt := at + size.length;
    if size.value < 1 || cidAt + size.value > total then Err(FrameExceedsData)
    else
      var cid :- ReadCidHead(d, base + cidAt);
      if cid.digestSize != DIGEST_BYTES || cid.code != SHA2_256 then Err(UnsupportedHash)
      else if cid.end + DIGEST_BYTES > |d| then Err(TruncatedData)
      else if cid.counted + DIGEST_BYTES > size.value then Err(CidLongerThanFrame)
      else
        var payloadAt := cid.end + DIGEST_BYTES;
        var payloadSize := size.value - (cid.counted + DIGEST_BYTES);
        if payloadAt + payloadSize > |d| then Err(TruncatedData)
        else if sha(d[payloadAt..payloadAt + payloadSize]) != d[cid.end..payloadAt] then Err(DigestMismatch)
        else Ok(Frame(Row(cid.code, d[cid.end..payloadAt], at), payloadAt + payloadSize - base))
  }

  /** Frames from `at` while they start before `total`; `left` more blocks are allowed. */
  function ReadFrames(sha: Data -> Data, d: Data, base: nat, at: nat, total: nat, left: int)
    : (r: Result<(seq<Row>, nat), ArchiveError>)
    ensures r.Ok? ==> r.value.1 >= total && r.value.1 >= at
    decreases total - at
  {
    if at >= total then Ok(([], at))
    else
      var frame :- ReadFrame(sha, d, base, at, total);
      if left < 1 then Err(TooManyBlocks)
      else
        var rest :- ReadFrames(sha, d, base, frame.next, total, left - 1);
        Ok(([frame.row] + rest.0, rest.1))
  }

  /** Where the frames start, after the header. */
  function ReadHeader(d: Data, base: nat): (r: Result<nat, ArchiveError>)
    ensures r.Ok? ==> base + r.value <= |d|
  {
    var size :- ReadVarint(d, base, MAX_HEADER_BYTES);
    if size.value < 1 then Err(InvalidHeaderSize)
    else if base + size.length + size.value > |d| then Err(TruncatedData)
    else Ok(size.length + size.value)
  }

  /** copy_carv1_payload: the index rows of the `total` bytes at `base`, when they are one CARv1 section. */
  function ReadPayload(sha: Data -> Data, d: Data, base: nat, total: nat, maxBlocks: int, requireEof: bool)
    : (r: Result<seq<Row>, ArchiveError>)
  {
    var at :- ReadHeader(d, base);
    var frames :- ReadFrames(sha, d, base, at, total, maxBlocks);
    if frames.1 != total || (requireEof && base + total < |d|) then Err(TrailingOrMissing)
    else if frames.0 == [] then Err(NoBlocks)
    else Ok(frames.0)
  }
}
