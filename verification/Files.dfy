/** Open files: a source with a read position, and a destination written at its end. */
module Files {
  import opened Bytes
  import opened Varint

  const COPY_CHUNK_BYTES: nat := 1024 * 1024

  class Source {
    const data: Data
    var pos: nat

    constructor (data: Data)
      ensures this.data == data && pos == 0
    {
      this.data := data;
      pos := 0;
    }

    method Seek(offset: nat)
      modifies this
      ensures pos == offset
    {
      pos := offset;
    }

    /** Up to `size` bytes; fewer only at the end of the file. */
    method Read(size: nat) returns (part: Data)
      modifies this
      ensures var from := Min(old(pos), |data|); var to := Min(old(pos) + size, |data|);
              part == data[from..Max(from, to)]
      ensures pos == old(pos) + |part|
    {
      var from := Min(pos, |data|);
      part := data[from..Max(from, Min(pos + size, |data|))];
      pos := pos + |part|;
    }
  }

  class Sink {
    var content: Data

    constructor ()
      ensures content == []
    {
      content := [];
    }

    method Write(part: Data)
      modifies this
      ensures content == old(content) + part
    {
      content := content + part;
    }

    /** seek(at) followed by write(part), inside what is already written. */
    method WriteAt(at: nat, part: Data)
      requires at + |part| <= |content|
      modifies this
      ensures content == old(content)[..at] + part + old(content)[at + |part|..]
    {
      content := content[..at] + part + content[at + |part|..];
    }
  }

  /** read_exact: the next `size` bytes in chunks, refused when the file ends first. */
  method ReadExact(source: Source, size: nat) returns (r: Result<Data, ArchiveError>)
    requires source.pos <= |source.data|
    modifies source
    ensures var at := old(source.pos);
            if at + size <= |source.data|
            then r == Ok(source.data[at..at + size]) && source.pos == at + size
            else r == Err(TruncatedData)
  {
    var chunks: Data := [];
    ghost var at := source.pos;
    while |chunks| < size
      invariant |chunks| <= size && source.pos == at + |chunks| <= |source.data|
      invariant chunks == source.data[at..at + |chunks|]
    {
      var part := source.Read(Min(COPY_CHUNK_BYTES, size - |chunks|));
      if part == [] {
        return Err(TruncatedData);
      }
      chunks := chunks + part;
    }
    return Ok(chunks);
  }

  /** Everything read since `base` stands in the destination behind what it held `before`. */
  ghost predicate Copied(source: Source, sink: Sink, before: Data, base: nat)
    reads source, sink
  {
    && base <= source.pos <= |source.data|
    && sink.content == before + source.data[base..source.pos]
  }

  lemma JoinSlices(before: Data, d: Data, a: nat, b: nat, c: nat)
    requires a <= b <= c <= |d|
    ensures before + d[a..b] + d[b..c] == before + d[a..c]
  {
    assert d[a..c] == d[a..b] + d[b..c];
  }

  /** read_exact and write: the next `size` bytes, copied. */
  method CopyBytes(source: Source, sink: Sink, size: nat, ghost before: Data, ghost base: nat)
    returns (r: Result<Data, ArchiveError>)
    requires Copied(source, sink, before, base)
    modifies source, sink
    ensures var at := old(source.pos);
            if at + size <= |source.data|
            then r == Ok(source.data[at..at + size]) && source.pos == at + size
            else r == Err(TruncatedData)
    ensures r.Ok? ==> Copied(source, sink, before, base)
  {
    ghost var at := source.pos;
    var part :- ReadExact(source, size);
    sink.Write(part);
    JoinSlices(before, source.data, base, at, at + size);
    return Ok(part);
  }

  /** copy_exact: the same bytes, written on and fed to the hash chunk by chunk. */
  method CopyExact(source: Source, sink: Sink, size: nat, ghost before: Data, ghost base: nat)
    returns (r: Result<Data, ArchiveError>)
    requires Copied(source, sink, before, base)
    modifies source, sink
    ensures var at := old(source.pos);
            if at + size <= |source.data|
            then r == Ok(source.data[at..at + size]) && source.pos == at + size
            else r == Err(TruncatedData)
    ensures r.Ok? ==> Copied(source, sink, before, base)
  {
    var remaining, hashed: Data := size, [];
    ghost var at, d := source.pos, source.data;
    while remaining > 0
      invariant 0 <= remaining <= size && |hashed| == size - remaining
      invariant source.pos == at + |hashed| <= |d|
      invariant hashed == d[at..at + |hashed|]
      invariant Copied(source, sink, before, base)
    {
      ghost var here := source.pos;
      assert sink.content == before + d[base..here];
      var part := source.Read(Min(COPY_CHUNK_BYTES, remaining));
      if part == [] {
        return Err(TruncatedData);
      }
      sink.Write(part);
      JoinSlices(before, d, base, here, source.pos);
      hashed := hashed + part;
      remaining := remaining - |part|;
    }
    return Ok(hashed);
  }

  /** One byte, read and captured; [] at the end of the file. */
  method ReadCaptured(source: Source, sink: Sink, ghost before: Data, ghost base: nat) returns (raw: Data)
    requires Copied(source, sink, before, base)
    modifies source, sink
    ensures var at := old(source.pos);
            if at < |source.data| then raw == [source.data[at]] && source.pos == at + 1
            else raw == [] && source.pos == at
    ensures Copied(source, sink, before, base)
  {
    ghost var at := source.pos;
    raw := source.Read(1);
    sink.Write(raw);
    JoinSlices(before, source.data, base, at, source.pos);
  }

  /** read_uvarint with every byte it reads captured by the destination. */
  method ReadUvarint(source: Source, sink: Sink, limit: nat, ghost before: Data, ghost base: nat)
    returns (r: Result<Number, ArchiveError>)
    requires Copied(source, sink, before, base)
    modifies source, sink
    ensures r == ReadVarint(source.data, old(source.pos), limit)
    ensures r.Ok? ==> source.pos == old(source.pos) + r.value.length
    ensures r.Ok? ==> Copied(source, sink, before, base)
  {
    hide Copied, Groups, Group;
    var value: nat, length: nat := 0, 0;
    ghost var at, d := source.pos, source.data;
    ghost var g := Groups(d, at, 0, 0);
    while length < MAX_VARINT_BYTES
      invariant length <= MAX_VARINT_BYTES && source.pos == at + length
      invariant g == Groups(d, at + length, length, value)
      invariant Copied(source, sink, before, base)
    {
      GroupsStep(d, at + length, length, value);
      var raw := ReadCaptured(source, sink, before, base);
      if raw == [] {
        return Err(TruncatedVarint);
      }
      value := value + Group(raw[0], length);
      length := length + 1;
      if raw[0] < 128 {
        if value > limit {
          return Err(VarintTooLarge);
        }
        return Ok(Number(value, length));
      }
    }
    GroupsStep(d, at + length, length, value);
    return Err(InvalidVarint);
  }
}
