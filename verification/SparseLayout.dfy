/** What a sparse image expands to, where its chunks lie in the file, and how edits of the bytes act on both. */
module SparseLayout {
  import opened Bytes
  import opened Struct
  import opened SparseFormat

  /** The program's in-memory record of one chunk. */
  datatype ImageChunk = ImageChunk(chunkType: Kind, chunkOffset: nat, outputOffset: nat, outputSize: nat,
                                   inputOffset: Option<nat>, fillData: Option<bytes>)

  /** Chunks the handler can expand: payload present, no checksum chunks. */
  predicate Plain(cs: seq<Chunk>, bs: nat) {
    forall i :: 0 <= i < |cs| ==> WFChunk(cs[i], bs) && Complete(cs[i], bs) && !cs[i].kind.Crc32?
  }

  /** n bytes of the four-byte pattern. */
  function Pattern(fill: bytes, n: nat): (r: bytes)
    requires |fill| == 4
    ensures |r| == n
  {
    seq(n, i requires 0 <= i < n => fill[i % 4])
  }

  /** The bytes a chunk stands for. */
  function ChunkBytes(c: Chunk, bs: nat): (r: bytes)
    requires Complete(c, bs) && !c.kind.Crc32?
    ensures |r| == c.blocks * bs
  {
    match c.kind
    case Raw => c.payload
    case Fill => Pattern(c.payload, c.blocks * bs)
    case _ => Zeros(c.blocks * bs)
  }

  /** The flat image. */
  function Expand(cs: seq<Chunk>, bs: nat): bytes
    requires Plain(cs, bs)
  {
    if cs == [] then [] else ChunkBytes(cs[0], bs) + Expand(cs[1..], bs)
  }

  /** Bytes covered by a number of blocks. */
  function Area(blocks: nat, bs: nat): nat {
    blocks * bs
  }

  function LayoutOne(c: Chunk, bs: nat, pos: nat, out: nat): seq<ImageChunk> {
    if c.kind.Crc32? then []
    else [ImageChunk(c.kind, pos, out, Area(c.blocks, bs), if c.kind.Raw? then Some(pos + CHUNK_HDR_SZ) else None,
                     if c.kind.Fill? then Some(c.payload) else None)]
  }

  /** The records built while reading: checksum chunks get none but still move both offsets on. */
  function Layout(cs: seq<Chunk>, bs: nat, pos: nat, out: nat): seq<ImageChunk> {
    if cs == [] then []
    else
      LayoutOne(cs[0], bs, pos, out)
      + Layout(cs[1..], bs, pos + CHUNK_HDR_SZ + ChunkPayloadSize(cs[0], bs), out + Area(cs[0].blocks, bs))
  }

  // ------------------------------------------------------------- concatenation

  lemma {:induction false} ExpandSize(cs: seq<Chunk>, bs: nat)
    requires Plain(cs, bs)
    ensures |Expand(cs, bs)| == TotalBlocks(cs) * bs
  {
    hide WFChunk, PayloadSize;
    if cs != [] {
      ExpandSize(cs[1..], bs);
      Distribute(cs[0].blocks, TotalBlocks(cs[1..]), bs);
    }
  }

  lemma {:induction false} ExpandConcat(a: seq<Chunk>, b: seq<Chunk>, bs: nat)
    requires Plain(a, bs) && Plain(b, bs)
    ensures Plain(a + b, bs)
    ensures Expand(a + b, bs) == Expand(a, bs) + Expand(b, bs)
  {
    hide WFChunk, Complete, ChunkBytes;
    if a == [] {
      assert a + b == b;
    } else {
      ConsConcat(a, b);
      ExpandConcat(a[1..], b, bs);
      var x, y, z := ChunkBytes(a[0], bs), Expand(a[1..], bs), Expand(b, bs);
      assert (x + y) + z == x + (y + z);
    }
  }

  lemma {:induction false} EncodeConcat(a: seq<Chunk>, b: seq<Chunk>, bs: nat)
    requires forall i :: 0 <= i < |a| ==> WFChunk(a[i], bs)
    requires forall i :: 0 <= i < |b| ==> WFChunk(b[i], bs)
    ensures EncodeChunks(a + b, bs) == EncodeChunks(a, bs) + EncodeChunks(b, bs)
  {
    hide WFChunk, EncodeChunk;
    if a == [] {
      assert a + b == b;
    } else {
      ConsConcat(a, b);
      EncodeConcat(a[1..], b, bs);
      EncodeChunksCons(a[0], a[1..] + b, bs);
      var x, y, z := EncodeChunk(a[0], bs), EncodeChunks(a[1..], bs), EncodeChunks(b, bs);
      assert (x + y) + z == x + (y + z);
    }
  }

  lemma {:induction false} TotalBlocksConcat(a: seq<Chunk>, b: seq<Chunk>)
    ensures TotalBlocks(a + b) == TotalBlocks(a) + TotalBlocks(b)
  {
    if a == [] {
      assert a + b == b;
    } else {
      ConsConcat(a, b);
      TotalBlocksConcat(a[1..], b);
    }
  }

  /** Bytes of the file taken by the chunks according to their headers. */
  function Extent(cs: seq<Chunk>, bs: nat): nat {
    if cs == [] then 0 else CHUNK_HDR_SZ + ChunkPayloadSize(cs[0], bs) + Extent(cs[1..], bs)
  }

  lemma {:induction false} ExtentIsSize(cs: seq<Chunk>, bs: nat)
    requires Plain(cs, bs)
    ensures |EncodeChunks(cs, bs)| == Extent(cs, bs)
  {
    if cs != [] {
      ExtentIsSize(cs[1..], bs);
    }
  }

  lemma {:induction false} ExtentConcat(a: seq<Chunk>, b: seq<Chunk>, bs: nat)
    ensures Extent(a + b, bs) == Extent(a, bs) + Extent(b, bs)
  {
    if a == [] {
      assert a + b == b;
    } else {
      ConsConcat(a, b);
      ExtentConcat(a[1..], b, bs);
    }
  }

  lemma {:induction false} LayoutConcat(a: seq<Chunk>, b: seq<Chunk>, bs: nat, pos: nat, out: nat)
    ensures Layout(a + b, bs, pos, out)
         == Layout(a, bs, pos, out) + Layout(b, bs, pos + Extent(a, bs), out + Area(TotalBlocks(a), bs))
  {
    hide PayloadSize, LayoutOne;
    if a == [] {
      assert a + b == b;
    } else {
      ConsConcat(a, b);
      var pos', out' := pos + CHUNK_HDR_SZ + ChunkPayloadSize(a[0], bs), out + Area(a[0].blocks, bs);
      LayoutConcat(a[1..], b, bs, pos', out');
      Distribute(a[0].blocks, TotalBlocks(a[1..]), bs);
      Assoc(LayoutOne(a[0], bs, pos, out), Layout(a[1..], bs, pos', out'),
            Layout(b, bs, pos' + Extent(a[1..], bs), out' + Area(TotalBlocks(a[1..]), bs)));
    }
  }

  // ------------------------------------------------------------- one chunk inside the image

  lemma SplitChunks(cs: seq<Chunk>, k: nat)
    requires k < |cs|
    ensures cs == cs[..k] + ([cs[k]] + cs[k + 1..])
  {
  }

  lemma {:induction false} LayoutLength(cs: seq<Chunk>, bs: nat, pos: nat, out: nat)
    requires Plain(cs, bs)
    ensures |Layout(cs, bs, pos, out)| == |cs|
  {
    if cs != [] {
      LayoutLength(cs[1..], bs, pos + CHUNK_HDR_SZ + ChunkPayloadSize(cs[0], bs), out + Area(cs[0].blocks, bs));
    }
  }

  /** Where chunk k is recorded to be, in the file and in the flat image. */
  lemma LayoutAt(cs: seq<Chunk>, bs: nat, k: nat)
    requires Plain(cs, bs) && k < |cs|
    ensures |Layout(cs, bs, FILE_HDR_SZ, 0)| == |cs|
    ensures var c, ic := cs[k], Layout(cs, bs, FILE_HDR_SZ, 0)[k];
            && ic.chunkType == c.kind
            && ic.chunkOffset == FILE_HDR_SZ + |EncodeChunks(cs[..k], bs)|
            && ic.outputOffset == |Expand(cs[..k], bs)|
            && ic.outputOffset == Area(TotalBlocks(cs[..k]), bs)
            && ic.outputSize == Area(c.blocks, bs)
            && ic.inputOffset == (if c.kind.Raw? then Some(ic.chunkOffset + CHUNK_HDR_SZ) else None)
            && ic.fillData == (if c.kind.Fill? then Some(c.payload) else None)
  {
    hide Expand, EncodeChunks, TotalBlocks, Extent;
    var a, b := cs[..k], cs[k..];
    assert cs == a + b;
    LayoutConcat(a, b, bs, FILE_HDR_SZ, 0);
    LayoutLength(a, bs, FILE_HDR_SZ, 0);
    LayoutLength(cs, bs, FILE_HDR_SZ, 0);
    ExtentIsSize(a, bs);
    ExpandSize(a, bs);
    assert b[0] == cs[k];
  }

  /** The flat image shows chunk k's bytes at its output offset. */
  lemma ExpandAt(cs: seq<Chunk>, bs: nat, k: nat)
    requires Plain(cs, bs) && k < |cs|
    ensures Expand(cs, bs) == Expand(cs[..k], bs) + (ChunkBytes(cs[k], bs) + Expand(cs[k + 1..], bs))
    ensures Expand(cs[..k + 1], bs) == Expand(cs[..k], bs) + ChunkBytes(cs[k], bs)
    ensures |ChunkBytes(cs[k], bs)| == Area(cs[k].blocks, bs)
  {
    hide WFChunk, Complete, ChunkBytes;
    var a, c, b := cs[..k], cs[k], cs[k + 1..];
    SplitChunks(cs, k);
    ExpandConcat([c], b, bs);
    ExpandConcat(a, [c] + b, bs);
    ExpandConcat(a, [c], bs);
    assert cs[..k + 1] == a + [c];
    ExpandOne(c, bs);
  }

  lemma ExpandOne(c: Chunk, bs: nat)
    requires WFChunk(c, bs) && Complete(c, bs) && !c.kind.Crc32?
    ensures Expand([c], bs) == ChunkBytes(c, bs) && |ChunkBytes(c, bs)| == Area(c.blocks, bs)
  {
    assert [c][0] == c && [c][1..] == [];
    assert ChunkBytes(c, bs) + [] == ChunkBytes(c, bs);
  }

  /** Chunk k's record ends where the next one starts, or where the image ends. */
  lemma LayoutNext(cs: seq<Chunk>, bs: nat, k: nat)
    requires Plain(cs, bs) && k < |cs|
    ensures |Layout(cs, bs, FILE_HDR_SZ, 0)| == |cs|
    ensures var ics := Layout(cs, bs, FILE_HDR_SZ, 0);
            ics[k].outputOffset + ics[k].outputSize
            == if k + 1 < |cs| then ics[k + 1].outputOffset else |Expand(cs, bs)|
  {
    hide WFChunk, Complete, ChunkBytes, Layout;
    LayoutAt(cs, bs, k);
    ExpandAt(cs, bs, k);
    if k + 1 < |cs| {
      LayoutAt(cs, bs, k + 1);
    } else {
      assert cs[..k + 1] == cs;
    }
  }

  lemma {:induction false} OffsetsOrdered(cs: seq<Chunk>, bs: nat, p: nat, q: nat)
    requires Plain(cs, bs) && p <= q < |cs|
    ensures |Layout(cs, bs, FILE_HDR_SZ, 0)| == |cs|
    ensures var ics := Layout(cs, bs, FILE_HDR_SZ, 0); ics[p].outputOffset <= ics[q].outputOffset
    decreases q - p
  {
    hide WFChunk, Complete, Layout;
    LayoutAt(cs, bs, p);
    if p < q {
      LayoutNext(cs, bs, p);
      OffsetsOrdered(cs, bs, p + 1, q);
    }
  }

  /** The file holds chunk k's encoding at its chunk offset. */
  lemma EncodeAt(cs: seq<Chunk>, bs: nat, k: nat)
    requires Plain(cs, bs) && k < |cs|
    ensures var off := |EncodeChunks(cs[..k], bs)|;
            && off + |EncodeChunk(cs[k], bs)| <= |EncodeChunks(cs, bs)|
            && EncodeChunks(cs, bs)[off..off + |EncodeChunk(cs[k], bs)|] == EncodeChunk(cs[k], bs)
            && EncodeChunks(cs, bs)[..off] == EncodeChunks(cs[..k], bs)
  {
    hide WFChunk, Complete, EncodeChunk;
    var a, c, b := cs[..k], cs[k], cs[k + 1..];
    SplitChunks(cs, k);
    EncodeConcat(a, [c] + b, bs);
    EncodeChunksCons(c, b, bs);
  }

  // ------------------------------------------------------------- editing the header

  const PREFIX_FORMAT: Format := U(4, U(2, U(2, U(2, U(2, U(4, End))))))

  function PrefixValues(bs: nat): Values {
    Int(MAGIC, Int(1, Int(0, Int(FILE_HDR_SZ, Int(CHUNK_HDR_SZ, Int(bs, Done))))))
  }

  function EncodePrefix(bs: nat): (r: bytes)
    requires bs < U32
    ensures |r| == NUM_CHUNKS_AND_BLOCKS_OFFSET
  {
    Pack(Little, PREFIX_FORMAT, PrefixValues(bs))
  }

  function EncodeCounts(blocks: nat, chunks: nat): (r: bytes)
    requires blocks < U32 && chunks < U32
    ensures |r| == 8
  {
    Pack(Little, NUM_CHUNKS_AND_BLOCKS_FORMAT, Int(blocks, Int(chunks, Done)))
  }

  function EncodeTail(checksum: nat): (r: bytes)
    requires checksum < U32
    ensures |r| == 4
  {
    Pack(Little, U(4, End), Int(checksum, Done))
  }

  lemma HeaderParts(bs: nat, blocks: nat, chunks: nat, checksum: nat)
    requires bs < U32 && blocks < U32 && chunks < U32 && checksum < U32
    ensures EncodeHeader(bs, blocks, chunks, checksum)
         == EncodePrefix(bs) + (EncodeCounts(blocks, chunks) + EncodeTail(checksum))
  {
    var pv, cv, tv := PrefixValues(bs), Int(blocks, Int(chunks, Done)), Int(checksum, Done);
    PackAppend(Little, NUM_CHUNKS_AND_BLOCKS_FORMAT, cv, U(4, End), tv);
    PackAppend(Little, PREFIX_FORMAT, pv, Append(NUM_CHUNKS_AND_BLOCKS_FORMAT, U(4, End)), AppendValues(cv, tv));
  }

  /** Rewriting the two count fields in place is re-encoding the header with the new counts. */
  lemma PatchCounts(bs: nat, b0: nat, n0: nat, b1: nat, n1: nat, checksum: nat, body: bytes)
    requires bs < U32 && b0 < U32 && n0 < U32 && b1 < U32 && n1 < U32 && checksum < U32
    ensures WriteAt(EncodeHeader(bs, b0, n0, checksum) + body, NUM_CHUNKS_AND_BLOCKS_OFFSET, EncodeCounts(b1, n1))
         == EncodeHeader(bs, b1, n1, checksum) + body
  {
    HeaderParts(bs, b0, n0, checksum);
    HeaderParts(bs, b1, n1, checksum);
    hide EncodePrefix, EncodeCounts, EncodeTail, EncodeHeader;
    Splice(EncodePrefix(bs), EncodeCounts(b0, n0), EncodeCounts(b1, n1), EncodeTail(checksum), body);
  }

  lemma Splice(p: bytes, c0: bytes, c1: bytes, t: bytes, body: bytes)
    requires |c0| == |c1|
    ensures WriteAt((p + (c0 + t)) + body, |p|, c1) == (p + (c1 + t)) + body
  {
    var f := (p + (c0 + t)) + body;
    assert f[..|p|] == p;
    assert f[|p| + |c1|..] == t + body;
    if c1 == [] {
      assert c0 == c1;
    } else {
      assert WriteAt(f, |p|, c1) == p + c1 + (t + body);
    }
  }

  // ------------------------------------------------------------- editing the chunk list

  /** The file of an image whose header claims the given counts. */
  function EncodeWith(sp: Sparse, blocks: nat, chunks: nat): bytes
    requires sp.blockSize < U32 && sp.checksum < U32 && blocks < U32 && chunks < U32
    requires Plain(sp.chunks, sp.blockSize)
  {
    EncodeHeader(sp.blockSize, blocks, chunks, sp.checksum) + EncodeChunks(sp.chunks, sp.blockSize)
  }

  predicate PlainImage(sp: Sparse) {
    WF(sp) && Plain(sp.chunks, sp.blockSize) && sp.blockSize > 0
  }

  lemma EncodeIsEncodeWith(sp: Sparse)
    requires PlainImage(sp)
    ensures Encode(sp) == EncodeWith(sp, TotalBlocks(sp.chunks), |sp.chunks|)
    ensures |Encode(sp)| == FILE_HDR_SZ + |EncodeChunks(sp.chunks, sp.blockSize)|
  {
  }

  /** A file whose header claims one chunk more than there are is refused. */
  lemma OvercountedRefused(sp: Sparse, blocks: nat)
    requires PlainImage(sp) && blocks < U32 && |sp.chunks| + 1 < U32
    ensures Decode(EncodeWith(sp, blocks, |sp.chunks| + 1)).Err?
  {
    hide DecodeHeader, EncodeHeader, DecodeChunks, EncodeChunks, WFChunk, Complete;
    var n, bs := |sp.chunks|, sp.blockSize;
    var h, body := EncodeHeader(bs, blocks, n + 1, sp.checksum), EncodeChunks(sp.chunks, bs);
    DecodeHeaderEncode(bs, blocks, n + 1, sp.checksum);
    NothingShort(sp.chunks, bs);
    DecodeChunksEncode(sp.chunks, [], bs);
    assert body + [] == body;
    DecodeOneTooMany(body, n, bs);
    HeadAndBody(h, body);
  }

  lemma NothingShort(cs: seq<Chunk>, bs: nat)
    requires Plain(cs, bs)
    ensures WFChunks(cs, bs) && Ends(cs, [], bs)
  {
  }

  lemma HeadAndBody(h: bytes, body: bytes)
    requires |h| == FILE_HDR_SZ
    ensures var f := h + body; Slice(f, 0, FILE_HDR_SZ) == h && Slice(f, FILE_HDR_SZ, |f|) == body
  {
  }

  /** The image with its chunk list replaced. */
  function WithChunks(sp: Sparse, cs: seq<Chunk>): Sparse {
    sp.(chunks := cs)
  }

  /** Bumping the counts and writing a chunk at the end of the file encodes the longer chunk list. */
  lemma AppendChunkEncodes(sp: Sparse, c: Chunk)
    requires PlainImage(sp) && WFChunk(c, sp.blockSize) && Complete(c, sp.blockSize) && !c.kind.Crc32?
    requires TotalBlocks(sp.chunks) + c.blocks < U32 && |sp.chunks| + 1 < U32
    ensures var sp' := WithChunks(sp, sp.chunks + [c]);
            && PlainImage(sp')
            && TotalBlocks(sp'.chunks) == TotalBlocks(sp.chunks) + c.blocks
            && WriteAt(Encode(sp), NUM_CHUNKS_AND_BLOCKS_OFFSET,
                       EncodeCounts(TotalBlocks(sp'.chunks), |sp'.chunks|)) + EncodeChunk(c, sp.blockSize)
               == Encode(sp')
  {
    hide WFChunk, Complete, EncodeChunk, EncodeHeader;
    assert Plain([c], sp.blockSize);
    var cs, bs := sp.chunks, sp.blockSize;
    var b1, n1 := TotalBlocks(cs) + c.blocks, |cs| + 1;
    TotalBlocksConcat(cs, [c]);
    assert [c][1..] == [];
    assert TotalBlocks([c]) == c.blocks;
    EncodeConcat(cs, [c], bs);
    EncodeChunksCons(c, [], bs);
    assert EncodeChunks([c], bs) == EncodeChunk(c, bs) + [];
    PatchCounts(bs, TotalBlocks(cs), |cs|, b1, n1, sp.checksum, EncodeChunks(cs, bs));
    Assoc(EncodeHeader(bs, b1, n1, sp.checksum), EncodeChunks(cs, bs), EncodeChunk(c, bs));
    PlainConcat(cs, [c], bs);
  }

  lemma PlainConcat(a: seq<Chunk>, b: seq<Chunk>, bs: nat)
    requires Plain(a, bs) && Plain(b, bs)
    ensures Plain(a + b, bs) && WFChunks(a + b, bs)
  {
  }

  /** A chunk cut down to its first blocks. */
  function CutChunk(c: Chunk, blocks: nat, bs: nat): Chunk
    requires Complete(c, bs) && blocks <= c.blocks
  {
    MulGrows(blocks, c.blocks, bs);
    Chunk(c.kind, 0, blocks, if c.kind.Raw? then c.payload[..blocks * bs] else c.payload)
  }

  /** Cutting a chunk cuts what it stands for. */
  lemma CutChunkBytes(c: Chunk, blocks: nat, bs: nat)
    requires WFChunk(c, bs) && Complete(c, bs) && !c.kind.Crc32? && blocks <= c.blocks
    ensures var c' := CutChunk(c, blocks, bs);
            && Plain([c'], bs)
            && blocks * bs <= c.blocks * bs
            && ChunkBytes(c', bs) == ChunkBytes(c, bs)[..blocks * bs]
  {
    MulGrows(blocks, c.blocks, bs);
  }

  lemma {:induction false} TotalBlocksPrefix(cs: seq<Chunk>, k: nat)
    requires k <= |cs|
    ensures TotalBlocks(cs[..k]) <= TotalBlocks(cs)
    ensures k < |cs| ==> TotalBlocks(cs[..k]) + cs[k].blocks <= TotalBlocks(cs)
  {
    assert cs == cs[..k] + cs[k..];
    TotalBlocksConcat(cs[..k], cs[k..]);
  }

  /** Dropping chunks: new counts in the header, then the file cut where chunk k began. */
  lemma DropChunksEncodes(sp: Sparse, b0: nat, n0: nat, k: nat)
    requires PlainImage(sp) && b0 < U32 && n0 < U32 && k <= |sp.chunks|
    ensures var cs := sp.chunks[..k];
            && PlainImage(WithChunks(sp, cs))
            && Resize(WriteAt(EncodeWith(sp, b0, n0), NUM_CHUNKS_AND_BLOCKS_OFFSET, EncodeCounts(TotalBlocks(cs), k)),
                      FILE_HDR_SZ + |EncodeChunks(cs, sp.blockSize)|)
               == Encode(WithChunks(sp, cs))
  {
    hide WFChunk, Complete, EncodeChunk, EncodeHeader;
    var bs, a, b := sp.blockSize, sp.chunks[..k], sp.chunks[k..];
    assert sp.chunks == a + b;
    TotalBlocksPrefix(sp.chunks, k);
    EncodeConcat(a, b, bs);
    PatchCounts(bs, b0, n0, TotalBlocks(a), k, sp.checksum, EncodeChunks(sp.chunks, bs));
    var h := EncodeHeader(bs, TotalBlocks(a), k, sp.checksum);
    assert (h + (EncodeChunks(a, bs) + EncodeChunks(b, bs)))[..|h| + |EncodeChunks(a, bs)|] == h + EncodeChunks(a, bs);
  }

  /** Rewriting chunk k's header in place, fixing the counts and cutting the file encodes the cut chunk list. */
  lemma CutChunkEncodes(sp: Sparse, b0: nat, n0: nat, k: nat, blocks: nat)
    requires PlainImage(sp) && b0 < U32 && n0 < U32 && k < |sp.chunks| && blocks <= sp.chunks[k].blocks
    ensures var bs, c := sp.blockSize, sp.chunks[k];
            var c' := CutChunk(c, blocks, bs);
            var cs := sp.chunks[..k] + [c'];
            && PlainImage(WithChunks(sp, cs))
            && TotalBlocks(cs) == TotalBlocks(sp.chunks[..k]) + blocks
            && CHUNK_HDR_SZ + ChunkPayloadSize(c', bs) < U32
            && var at := FILE_HDR_SZ + |EncodeChunks(sp.chunks[..k], bs)|;
               var hdr := EncodeChunkHeader(c.kind, 0, blocks, CHUNK_HDR_SZ + ChunkPayloadSize(c', bs));
               Resize(WriteAt(WriteAt(EncodeWith(sp, b0, n0), at, hdr), NUM_CHUNKS_AND_BLOCKS_OFFSET,
                              EncodeCounts(TotalBlocks(cs), k + 1)),
                      at + CHUNK_HDR_SZ + ChunkPayloadSize(c', bs))
               == Encode(WithChunks(sp, cs))
  {
    hide EncodeHeader, EncodeCounts, WriteAt, Resize, WF;
    var bs, a, c, b := sp.blockSize, sp.chunks[..k], sp.chunks[k], sp.chunks[k + 1..];
    var c' := CutChunk(c, blocks, bs);
    CutChunkBytes(c, blocks, bs);
    var hdr := EncodeChunkHeader(c.kind, 0, blocks, CHUNK_HDR_SZ + ChunkPayloadSize(c', bs));
    var hdr0 := EncodeChunkHeader(c.kind, c.reserved, c.blocks, CHUNK_HDR_SZ + ChunkPayloadSize(c, bs));
    assert EncodeChunk(c, bs) == hdr0 + c.payload;
    assert EncodeChunk(c', bs) == hdr + c'.payload;
    assert c'.payload == c.payload[..|c'.payload|];
    hide EncodeChunkHeader, EncodeChunk, CutChunk;
    CutFile(sp, b0, n0, k, hdr0, hdr, c');
  }

  lemma TotalBlocksOne(c: Chunk)
    ensures TotalBlocks([c]) == c.blocks
  {
    assert [c][1..] == [];
  }

  lemma EncodeOne(c: Chunk, bs: nat)
    requires WFChunk(c, bs)
    ensures EncodeChunks([c], bs) == EncodeChunk(c, bs) + []
  {
    assert [c][1..] == [];
  }

  lemma CutFile(sp: Sparse, b0: nat, n0: nat, k: nat, hdr0: bytes, hdr: bytes, c': Chunk)
    requires PlainImage(sp) && b0 < U32 && n0 < U32 && k < |sp.chunks|
    requires |hdr0| == |hdr| == CHUNK_HDR_SZ && Plain([c'], sp.blockSize) && c'.blocks <= sp.chunks[k].blocks
    requires Plain([sp.chunks[k]], sp.blockSize)
    requires EncodeChunk(sp.chunks[k], sp.blockSize) == hdr0 + sp.chunks[k].payload
    requires EncodeChunk([c'][0], sp.blockSize) == hdr + c'.payload
    requires |c'.payload| <= |sp.chunks[k].payload| && c'.payload == sp.chunks[k].payload[..|c'.payload|]
    ensures var bs := sp.blockSize;
            var cs := sp.chunks[..k] + [c'];
            && PlainImage(WithChunks(sp, cs))
            && TotalBlocks(cs) == TotalBlocks(sp.chunks[..k]) + c'.blocks
            && var at := FILE_HDR_SZ + |EncodeChunks(sp.chunks[..k], bs)|;
               Resize(WriteAt(WriteAt(EncodeWith(sp, b0, n0), at, hdr), NUM_CHUNKS_AND_BLOCKS_OFFSET,
                              EncodeCounts(TotalBlocks(cs), k + 1)), at + CHUNK_HDR_SZ + |c'.payload|)
               == Encode(WithChunks(sp, cs))
  {
    hide WFChunk, Complete, EncodeChunk, EncodeHeader, EncodeCounts, WriteAt, Resize, EncodeChunks, TotalBlocks;
    var bs, a, c, b := sp.blockSize, sp.chunks[..k], sp.chunks[k], sp.chunks[k + 1..];
    TotalBlocksPrefix(sp.chunks, k);
    TotalBlocksConcat(a, [c']);
    TotalBlocksOne(c');
    PlainConcat(a, [c'], bs);
    EncodeConcat(a, [c'], bs);
    EncodeOne(c', bs);
    SplitChunks(sp.chunks, k);
    EncodeConcat(a, [c] + b, bs);
    EncodeChunksCons(c, b, bs);
    var ea, eb := EncodeChunks(a, bs), EncodeChunks(b, bs);
    var h0 := EncodeHeader(bs, b0, n0, sp.checksum);
    var b1 := TotalBlocks(a) + c'.blocks;
    var h1 := EncodeHeader(bs, b1, k + 1, sp.checksum);
    assert EncodeWith(sp, b0, n0) == h0 + (ea + ((hdr0 + c.payload) + eb));
    assert EncodeChunks(a + [c'], bs) == ea + (hdr + c'.payload + []);
    ReplaceHeader(h0, ea, hdr0, hdr, c.payload, eb);
    PatchCounts(bs, b0, n0, b1, k + 1, sp.checksum, ea + ((hdr + c.payload) + eb));
    CutTail(h1, ea, hdr, c.payload, eb, |c'.payload|);
  }

  lemma ReplaceHeader(h: bytes, a: bytes, hdr0: bytes, hdr: bytes, payload: bytes, b: bytes)
    requires |hdr0| == |hdr| > 0
    ensures WriteAt(h + (a + ((hdr0 + payload) + b)), |h| + |a|, hdr) == h + (a + ((hdr + payload) + b))
  {
    var f, tail := h + (a + ((hdr0 + payload) + b)), hdr + (payload + b);
    assert f[..|h| + |a|] == h + a;
    assert f[|h| + |a| + |hdr|..] == payload + b;
    Assoc(hdr, payload, b);
    Assoc(h, a, tail);
    Assoc(h + a, hdr, payload + b);
  }

  lemma CutTail(h: bytes, a: bytes, hdr: bytes, payload: bytes, b: bytes, n: nat)
    requires n <= |payload|
    ensures Resize(h + (a + ((hdr + payload) + b)), |h| + |a| + |hdr| + n) == h + (a + (hdr + payload[..n] + []))
  {
  }

  /** Appending a chunk appends what it stands for. */
  lemma AppendChunkExpands(cs: seq<Chunk>, c: Chunk, bs: nat)
    requires Plain(cs, bs) && WFChunk(c, bs) && Complete(c, bs) && !c.kind.Crc32?
    ensures Plain(cs + [c], bs)
    ensures Expand(cs + [c], bs) == Expand(cs, bs) + ChunkBytes(c, bs)
  {
    hide WFChunk, ChunkBytes;
    assert Plain([c], bs);
    ExpandConcat(cs, [c], bs);
    ExpandOne(c, bs);
  }

  // ------------------------------------------------------------- files cut short

  predicate AllComplete(cs: seq<Chunk>, bs: nat) {
    forall i :: 0 <= i < |cs| ==> Complete(cs[i], bs)
  }

  lemma {:induction false} EncodedSize(cs: seq<Chunk>, bs: nat)
    requires forall i :: 0 <= i < |cs| ==> WFChunk(cs[i], bs)
    ensures |EncodeChunks(cs, bs)| <= Extent(cs, bs)
    ensures |EncodeChunks(cs, bs)| == Extent(cs, bs) <==> AllComplete(cs, bs)
  {
    hide ChunkPayloadSize, EncodeChunkHeader;
    if cs != [] {
      var t := cs[1..];
      assert forall i :: 0 <= i < |t| ==> t[i] == cs[i + 1];
      assert forall i :: 0 < i < |cs| ==> cs[i] == t[i - 1];
      EncodedSize(t, bs);
    }
  }

  /** A file that opens has all its payloads exactly when it is as long as its headers announce; it is never longer. */
  lemma CompleteIff(f: bytes, sp: Sparse)
    requires Decode(f) == Ok(Some(sp))
    ensures |f| <= FILE_HDR_SZ + Extent(sp.chunks, sp.blockSize)
    ensures AllComplete(sp.chunks, sp.blockSize) <==> |f| == FILE_HDR_SZ + Extent(sp.chunks, sp.blockSize)
  {
    hide Decode, EncodeHeader, EncodeChunks, AllComplete, Extent, WFChunk;
    DecodeIff(f, sp);
    EncodedSize(sp.chunks, sp.blockSize);
  }

  /** The last chunk without its last n bytes of payload. */
  function CutShort(sp: Sparse, n: nat): Sparse
    requires sp.chunks != [] && n <= |sp.chunks[|sp.chunks| - 1].payload|
  {
    var k := |sp.chunks| - 1;
    var c := sp.chunks[k];
    sp.(chunks := sp.chunks[..k] + [c.(payload := c.payload[..|c.payload| - n])])
  }

  /** A file whose last payload is cut short still opens, because the reader seeks over payloads. */
  lemma CutShortOpens(sp: Sparse, n: nat)
    requires WF(sp) && sp.chunks != [] && n <= |sp.chunks[|sp.chunks| - 1].payload|
    ensures n <= |Encode(sp)| && Decode(Encode(sp)[..|Encode(sp)| - n]) == Ok(Some(CutShort(sp, n)))
  {
    hide Decode, EncodeHeader, WFChunk, EncodeChunks, ChunkPayloadSize, EncodeChunk;
    var k, bs, t := |sp.chunks| - 1, sp.blockSize, CutShort(sp, n);
    var front, c, d := sp.chunks[..k], sp.chunks[k], t.chunks[k];
    assert sp.chunks == front + [c] && t.chunks == front + [d];
    CutChunkWF(c, d, n, bs);
    TotalBlocksConcat(front, [c]);
    TotalBlocksConcat(front, [d]);
    TotalBlocksOne(c);
    TotalBlocksOne(d);
    EncodeConcat(front, [c], bs);
    EncodeConcat(front, [d], bs);
    EncodeOne(c, bs);
    EncodeOne(d, bs);
    var h := EncodeHeader(bs, TotalBlocks(sp.chunks), |sp.chunks|, sp.checksum);
    CutBehind(h, EncodeChunks(front, bs), EncodeChunk(c, bs), EncodeChunk(d, bs), n);
    DecodeIff(Encode(sp)[..|Encode(sp)| - n], t);
  }

  lemma CutChunkWF(c: Chunk, d: Chunk, n: nat, bs: nat)
    requires WFChunk(c, bs) && n <= |c.payload| && d == c.(payload := c.payload[..|c.payload| - n])
    ensures WFChunk(d, bs) && n <= |EncodeChunk(c, bs)|
    ensures EncodeChunk(d, bs) == EncodeChunk(c, bs)[..|EncodeChunk(c, bs)| - n]
  {
    hide EncodeChunkHeader;
  }

  lemma CutBehind(h: bytes, x: bytes, c: bytes, d: bytes, n: nat)
    requires n <= |c| && d == c[..|c| - n]
    ensures var f := h + (x + (c + [])); f[..|f| - n] == h + (x + (d + []))
  {
  }

  // ------------------------------------------------------------- octets of the flat image

  /** The octet at place i of chunk k: of a RAW chunk its own, of a FILL chunk the four in turn, of others NUL. */
  lemma OctetAt(cs: seq<Chunk>, bs: nat, k: nat, i: nat)
    requires Plain(cs, bs) && k < |cs| && i < cs[k].blocks * bs
    ensures var at := TotalBlocks(cs[..k]) * bs + i;
            && at < |Expand(cs, bs)|
            && Expand(cs, bs)[at]
               == match cs[k].kind case Raw => cs[k].payload[i] case Fill => cs[k].payload[i % 4] case _ => 0
  {
    hide Expand;
    PlainParts(cs, bs, k);
    ExpandAt(cs, bs, k);
    ExpandSize(cs[..k], bs);
    var a, c, b := Expand(cs[..k], bs), ChunkBytes(cs[k], bs), Expand(cs[k + 1..], bs);
    assert (a + (c + b))[|a| + i] == c[i];
  }

  /** A flat image f holds at place p the octet i of chunk c. */
  predicate ChunkHolds(c: Chunk, i: nat, f: bytes, p: int) {
    && 0 <= p < |f|
    && match c.kind
       case Raw => i < |c.payload| && f[p] == c.payload[i]
       case Fill => |c.payload| == 4 && f[p] == c.payload[i % 4]
       case _ => f[p] == 0
  }

  lemma PlainParts(cs: seq<Chunk>, bs: nat, k: nat)
    requires Plain(cs, bs) && k < |cs|
    ensures Plain(cs[..k], bs) && Plain(cs[k + 1..], bs)
  {
  }

  /** And there is nothing else: an octet of the flat image lies in one of the chunks. */
  lemma {:induction false} OctetOf(cs: seq<Chunk>, bs: nat, p: nat) returns (k: nat, i: nat)
    requires Plain(cs, bs) && p < |Expand(cs, bs)|
    ensures k < |cs| && i < cs[k].blocks * bs && p == TotalBlocks(cs[..k]) * bs + i
  {
    hide ChunkBytes;
    ExpandSize(cs, bs);
    var n := cs[0].blocks * bs;
    assert |ChunkBytes(cs[0], bs)| == n;
    if p < n {
      k, i := 0, p;
      assert cs[..0] == [];
    } else {
      k, i := OctetOf(cs[1..], bs, p - n);
      assert cs[..k + 1] == [cs[0]] + cs[1..][..k];
      TotalBlocksConcat([cs[0]], cs[1..][..k]);
      TotalBlocksOne(cs[0]);
      Distribute(cs[0].blocks, TotalBlocks(cs[1..][..k]), bs);
      k := k + 1;
    }
  }
}
