/** The image file object: one interface over plain files and Android sparse files. */
module ImageHandling {
  import opened Bytes
  import opened Struct
  import opened SparseFormat
  import opened SparseLayout

  const DEFAULT_BLOCK_SIZE := 4096

  ghost predicate Sorted(a: seq<nat>) {
    forall p, q :: 0 <= p <= q < |a| ==> a[p] <= a[q]
  }

  /** bisect.bisect_right on a sorted list: how many elements are at most x. */
  function BisectRight(a: seq<nat>, x: nat): (i: nat)
    requires Sorted(a)
    ensures i <= |a|
    ensures forall k :: 0 <= k < i ==> a[k] <= x
    ensures forall k :: i <= k < |a| ==> a[k] > x
  {
    if a == [] then 0
    else if a[|a| - 1] <= x then
      assert forall k :: 0 <= k < |a| ==> a[k] <= a[|a| - 1];
      |a|
    else BisectRight(a[..|a| - 1], x)
  }

  /** Of chunks with these output offsets, how many stay when the image is cut at size. */
  function KeptChunks(offsets: seq<nat>, size: nat): (n: nat)
    ensures n <= |offsets|
  {
    if offsets == [] then 0
    else
      var last := |offsets| - 1;
      if offsets[last] < size then |offsets|
      else if offsets[last] == size then last
      else KeptChunks(offsets[..last], size)
  }

  lemma {:induction false} KeptIs(offsets: seq<nat>, size: nat)
    requires Sorted(offsets)
    ensures var i := BisectRight(offsets, size);
            KeptChunks(offsets, size) == if i > 0 && offsets[i - 1] == size then i - 1 else i
  {
    if offsets != [] && offsets[|offsets| - 1] > size {
      KeptIs(offsets[..|offsets| - 1], size);
    }
  }

  function OutputOffsets(ics: seq<ImageChunk>): seq<nat> {
    seq(|ics|, i requires 0 <= i < |ics| => ics[i].outputOffset)
  }

  lemma SliceSlice<T>(f: seq<T>, p: nat, a: nat, b: nat)
    ensures Slice(Slice(f, p, |f|), a, b) == Slice(f, p + a, p + b)
  {
    if p + a <= |f| && a <= b {
      var hi := if p + b <= |f| then p + b else |f|;
      SubSlice(f, p, |f|, a, hi - p);
    }
  }

  lemma SliceLength<T>(f: seq<T>, lo: nat, hi: nat)
    requires lo <= |f| && lo <= hi
    ensures |Slice(f, lo, hi)| == if hi <= |f| then hi - lo else |f| - lo
  {
  }

  /** Reading n bytes and seeking over n bytes leave the same suffix. */
  lemma SliceEnd<T>(f: seq<T>, at: nat, n: nat)
    requires at <= |f|
    ensures Slice(f, at + n, |f|) == Slice(f, at + |Slice(f, at, at + n)|, |f|)
    ensures at + n > |f| ==> at + |Slice(f, at, at + n)| == |f|
  {
  }

  /** Decoding the chunk at pos, in terms of the header found there. */
  lemma ChunkCases(f: bytes, pos: nat, bs: nat)
    ensures var d := DecodeChunk(Slice(f, pos, |f|), bs);
            match DecodeChunkHeader(Slice(f, pos, pos + CHUNK_HDR_SZ))
            case Err(e) => d == Err(e)
            case Ok(h) =>
              var kind, dataSz := KindOf(h.code), h.total - CHUNK_HDR_SZ;
              && pos + CHUNK_HDR_SZ <= |f|
              && if kind.None? || dataSz != PayloadSize(kind.value, h.blocks, bs) then d == Err(ValueError)
                 else
                   d == Ok((Chunk(kind.value, h.reserved, h.blocks, Slice(f, pos + CHUNK_HDR_SZ, pos + h.total)),
                            Slice(f, pos + h.total, |f|)))
  {
    hide DecodeChunkHeader;
    var s, h := Slice(f, pos, |f|), DecodeChunkHeader(Slice(f, pos, pos + CHUNK_HDR_SZ));
    SliceSlice(f, pos, 0, CHUNK_HDR_SZ);
    if h.Ok? {
      DecodeChunkHeaderSound(Slice(f, pos, pos + CHUNK_HDR_SZ));
      var dataSz := h.value.total - CHUNK_HDR_SZ;
      if dataSz >= 0 {
        SliceSlice(f, pos, CHUNK_HDR_SZ, h.value.total);
        SliceSlice(f, pos, h.value.total, |s|);
        SliceTo(f, pos + h.value.total, pos + |s|);
      }
    }
  }

  lemma SliceTo<T>(f: seq<T>, lo: nat, hi: nat)
    requires hi >= |f| || lo >= |f|
    ensures Slice(f, lo, hi) == Slice(f, lo, |f|)
  {
  }

  /** Decoding of a suffix, with the chunks already read put back in front. */
  ghost function Prepend(done: seq<Chunk>, d: Result<(seq<Chunk>, bytes)>): Result<(seq<Chunk>, bytes)> {
    match d
    case Err(e) => Err(e)
    case Ok((cs, rest)) => Ok((done + cs, rest))
  }

  lemma PrependNothing(d: Result<(seq<Chunk>, bytes)>)
    ensures Prepend([], d) == d
  {
    if d.Ok? {
      assert [] + d.value.0 == d.value.0;
    }
  }

  lemma PrependStep(done: seq<Chunk>, s: bytes, n: nat, bs: nat)
    requires n > 0 && DecodeChunk(s, bs).Ok?
    ensures var (c, rest) := DecodeChunk(s, bs).value;
            Prepend(done, DecodeChunks(s, n, bs)) == Prepend(done + [c], DecodeChunks(rest, n - 1, bs))
  {
    hide DecodeChunk;
    var (c, rest) := DecodeChunk(s, bs).value;
    var d := DecodeChunks(rest, n - 1, bs);
    if d.Ok? {
      Assoc(done, [c], d.value.0);
    }
  }

  lemma LayoutStep(done: seq<Chunk>, c: Chunk, bs: nat)
    ensures var k := TotalBlocks(done);
            && TotalBlocks(done + [c]) == k + c.blocks
            && Area(k + c.blocks, bs) == Area(k, bs) + c.blocks * bs
            && Extent(done + [c], bs) == Extent(done, bs) + CHUNK_HDR_SZ + ChunkPayloadSize(c, bs)
            && Layout(done + [c], bs, FILE_HDR_SZ, 0)
               == Layout(done, bs, FILE_HDR_SZ, 0) + LayoutOne(c, bs, FILE_HDR_SZ + Extent(done, bs), Area(k, bs))
            && (Plain(done + [c], bs) ==> Plain(done, bs) && Complete(c, bs))
  {
    hide LayoutOne, PayloadSize;
    var k := TotalBlocks(done);
    assert [c][1..] == [];
    TotalBlocksConcat(done, [c]);
    ExtentConcat(done, [c], bs);
    LayoutConcat(done, [c], bs, FILE_HDR_SZ, 0);
    Distribute(k, c.blocks, bs);
    var one := LayoutOne(c, bs, FILE_HDR_SZ + Extent(done, bs), Area(k, bs));
    assert one + [] == one;
    assert (done + [c])[|done|] == c;
    if Plain(done + [c], bs) {
      assert forall i :: 0 <= i < |done| ==> done[i] == (done + [c])[i];
    }
  }

  lemma DecodeHeaderNeeds(f: bytes)
    ensures DecodeHeader(Slice(f, 0, FILE_HDR_SZ)).Ok? ==> |f| >= FILE_HDR_SZ
  {
    if DecodeHeader(Slice(f, 0, FILE_HDR_SZ)).Ok? {
      DecodeHeaderSound(Slice(f, 0, FILE_HDR_SZ));
    }
  }

  lemma RawFiles(f: bytes)
    ensures Decode(f) == Ok(None) <==> |f| >= FILE_HDR_SZ && UnpackInt(Little, f[..4]) != MAGIC
    ensures |f| < FILE_HDR_SZ ==> Decode(f) == Err(StructError)
  {
    var h := Slice(f, 0, FILE_HDR_SZ);
    if |f| >= FILE_HDR_SZ {
      assert HasSize(HEADER_FORMAT, |h|);
      assert DecodeHeader(h).Ok?;
      assert h[..4] == f[..4];
      assert DecodeHeader(h).value.magic == UnpackInt(Little, f[..4]);
    }
  }

  lemma OffsetsSorted(cs: seq<Chunk>, bs: nat)
    requires Plain(cs, bs)
    ensures Sorted(OutputOffsets(Layout(cs, bs, FILE_HDR_SZ, 0)))
  {
    hide Layout, Plain;
    var offs := OutputOffsets(Layout(cs, bs, FILE_HDR_SZ, 0));
    LayoutLength(cs, bs, FILE_HDR_SZ, 0);
    forall p, q | 0 <= p <= q < |offs|
      ensures offs[p] <= offs[q]
    {
      OffsetsOrdered(cs, bs, p, q);
    }
  }

  lemma FirstOffset(cs: seq<Chunk>, bs: nat)
    requires Plain(cs, bs) && cs != []
    ensures |Layout(cs, bs, FILE_HDR_SZ, 0)| == |cs| && Layout(cs, bs, FILE_HDR_SZ, 0)[0].outputOffset == 0
  {
    hide Layout;
    LayoutAt(cs, bs, 0);
    assert cs[..0] == [];
  }

  /** The bisected index is a chunk that holds the cursor; the cursor is at its end only at the end of the image. */
  lemma BisectedChunk(cs: seq<Chunk>, bs: nat, pos: nat)
    requires Plain(cs, bs) && pos <= |Expand(cs, bs)|
    ensures var ics := Layout(cs, bs, FILE_HDR_SZ, 0);
            && |ics| == |cs|
            && Sorted(OutputOffsets(ics))
            && var i := BisectRight(OutputOffsets(ics), pos);
               cs != [] ==>
                 && 1 <= i <= |cs|
                 && ics[i - 1].outputOffset <= pos <= ics[i - 1].outputOffset + ics[i - 1].outputSize
                 && (pos < |Expand(cs, bs)| ==> pos < ics[i - 1].outputOffset + ics[i - 1].outputSize)
  {
    hide Layout, Plain, Expand;
    OffsetsSorted(cs, bs);
    LayoutLength(cs, bs, FILE_HDR_SZ, 0);
    if cs != [] {
      var ics := Layout(cs, bs, FILE_HDR_SZ, 0);
      var offs := OutputOffsets(ics);
      var i := BisectRight(offs, pos);
      assert offs[0] == ics[0].outputOffset;
      FirstOffset(cs, bs);
      assert offs[0] == 0;
      assert offs[i - 1] == ics[i - 1].outputOffset <= pos;
      assert i < |cs| ==> pos < offs[i] == ics[i].outputOffset;
      LayoutNext(cs, bs, i - 1);
    }
  }

  /** The bytes the chunk at index k contributes from offset a on. */
  lemma ChunkRange(cs: seq<Chunk>, bs: nat, k: nat, a: nat, n: nat)
    requires Plain(cs, bs) && k < |cs| && a + n <= cs[k].blocks * bs
    ensures |Layout(cs, bs, FILE_HDR_SZ, 0)| == |cs|
    ensures var off := Layout(cs, bs, FILE_HDR_SZ, 0)[k].outputOffset;
            && off + a + n <= |Expand(cs, bs)|
            && Expand(cs, bs)[off + a..off + a + n] == ChunkBytes(cs[k], bs)[a..a + n]
  {
    hide WFChunk, ChunkBytes, Layout, Expand;
    LayoutAt(cs, bs, k);
    ExpandAt(cs, bs, k);
    Inside(Expand(cs[..k], bs), ChunkBytes(cs[k], bs), Expand(cs[k + 1..], bs), a, n);
  }

  lemma Inside<T>(x: seq<T>, y: seq<T>, z: seq<T>, a: nat, n: nat)
    requires a + n <= |y|
    ensures (x + (y + z))[|x| + a..|x| + a + n] == y[a..a + n]
  {
  }

  /** A RAW chunk's payload sits in the file at its input offset. */
  lemma RawInput(sp: Sparse, b0: nat, n0: nat, k: nat, a: nat, n: nat)
    requires PlainImage(sp) && b0 < U32 && n0 < U32 && k < |sp.chunks| && sp.chunks[k].kind.Raw?
    requires a + n <= sp.chunks[k].blocks * sp.blockSize
    ensures |Layout(sp.chunks, sp.blockSize, FILE_HDR_SZ, 0)| == |sp.chunks|
    ensures var ic := Layout(sp.chunks, sp.blockSize, FILE_HDR_SZ, 0)[k];
            && ic.inputOffset.Some?
            && ic.inputOffset.value + a + n <= |EncodeWith(sp, b0, n0)|
            && EncodeWith(sp, b0, n0)[ic.inputOffset.value + a..ic.inputOffset.value + a + n]
               == sp.chunks[k].payload[a..a + n]
  {
    hide Layout, EncodeHeader, EncodeChunkHeader, EncodeChunks, Expand, TotalBlocks;
    var cs, bs, c := sp.chunks, sp.blockSize, sp.chunks[k];
    LayoutAt(cs, bs, k);
    EncodeAt(cs, bs, k);
    var h := EncodeHeader(bs, b0, n0, sp.checksum);
    var ch := EncodeChunkHeader(c.kind, c.reserved, c.blocks, CHUNK_HDR_SZ + ChunkPayloadSize(c, bs));
    var off := |EncodeChunks(cs[..k], bs)|;
    var e := EncodeChunks(cs, bs);
    Window(h, e, off, ch, c.payload, a, n);
  }

  lemma Window(h: bytes, e: bytes, off: nat, ch: bytes, payload: bytes, a: nat, n: nat)
    requires off + |ch| + |payload| <= |e| && e[off..off + |ch| + |payload|] == ch + payload && a + n <= |payload|
    ensures (h + e)[|h| + off + |ch| + a..|h| + off + |ch| + a + n] == payload[a..a + n]
  {
    var w := e[off..off + |ch| + |payload|];
    assert w[|ch| + a..|ch| + a + n] == payload[a..a + n];
    SubSlice(e, off, off + |ch| + |payload|, |ch| + a, |ch| + a + n);
    var x := off + |ch| + a;
    assert (h + e)[|h| + x..|h| + x + n] == e[x..x + n];
  }

  /** fill * k in Python: one repetition behind the other. */
  function Times(fill: bytes, k: nat): (r: bytes)
    requires |fill| == 4
    ensures |r| == 4 * k
  {
    if k == 0 then [] else fill + Times(fill, k - 1)
  }

  lemma {:induction false} TimesAt(fill: bytes, k: nat, i: nat)
    requires |fill| == 4 && i < 4 * k
    ensures Times(fill, k)[i] == fill[i % 4]
  {
    if i >= 4 {
      TimesAt(fill, k - 1, i - 4);
    }
  }

  /** Whole repetitions are the pattern. */
  lemma TimesIsPattern(fill: bytes, n: nat)
    requires |fill| == 4 && n % 4 == 0
    ensures Times(fill, n / 4) == Pattern(fill, n)
  {
    var l, r := Times(fill, n / 4), Pattern(fill, n);
    forall i | 0 <= i < n ensures l[i] == r[i] {
      TimesAt(fill, n / 4, i);
    }
  }

  lemma FillPhase(fill: bytes, k: nat, total: nat, a: nat, i: nat)
    requires |fill| == 4 && a + i < total && a % 4 + i < 4 * k
    ensures Times(fill, k)[a % 4 + i] == Pattern(fill, total)[a + i]
  {
    hide Times;
    TimesAt(fill, k, a % 4 + i);
    ModShift(a, i);
  }

  lemma FillBound(a: nat, n: nat)
    ensures a % 4 + n <= 4 * (n / 4 + 2)
  {
  }

  /** The slice taken from the repeated fill is always long enough and correctly phased. */
  lemma FillSlice(fill: bytes, total: nat, a: nat, n: nat, k: nat, phase: nat)
    requires |fill| == 4 && a + n <= total && k == n / 4 + 2 && phase == a % 4
    ensures phase + n <= |Times(fill, k)|
    ensures Times(fill, k)[phase..phase + n] == Pattern(fill, total)[a..a + n]
  {
    FillBound(a, n);
    hide Times, Pattern;
    var l, r := Times(fill, k)[phase..phase + n], Pattern(fill, total)[a..a + n];
    forall i | 0 <= i < n
      ensures l[i] == r[i]
    {
      FillPhase(fill, k, total, a, i);
    }
    assert l == r;
  }

  lemma FillPiece(c: Chunk, bs: nat, a: nat, n: nat, k: nat, phase: nat)
    requires c.kind.Fill? && Complete(c, bs) && a + n <= |ChunkBytes(c, bs)| && k == n / 4 + 2 && phase == a % 4
    ensures Slice(Times(c.payload, k), phase, phase + n) == ChunkBytes(c, bs)[a..a + n]
  {
    FillSlice(c.payload, c.blocks * bs, a, n, k, phase);
  }

  lemma ZeroPiece(c: Chunk, bs: nat, a: nat, n: nat)
    requires c.kind.DontCare? && Complete(c, bs) && a + n <= |ChunkBytes(c, bs)|
    ensures Zeros(n) == ChunkBytes(c, bs)[a..a + n]
  {
  }

  lemma RawPiece(sp: Sparse, b0: nat, n0: nat, k: nat, a: nat, n: nat)
    requires PlainImage(sp) && b0 < U32 && n0 < U32 && k < |sp.chunks| && sp.chunks[k].kind.Raw?
    requires Complete(sp.chunks[k], sp.blockSize) && a + n <= |ChunkBytes(sp.chunks[k], sp.blockSize)|
    ensures |Layout(sp.chunks, sp.blockSize, FILE_HDR_SZ, 0)| == |sp.chunks|
    ensures var ic := Layout(sp.chunks, sp.blockSize, FILE_HDR_SZ, 0)[k];
            && ic.inputOffset.Some?
            && Slice(EncodeWith(sp, b0, n0), ic.inputOffset.value + a, ic.inputOffset.value + a + n)
               == ChunkBytes(sp.chunks[k], sp.blockSize)[a..a + n]
  {
    hide Layout, EncodeWith, PlainImage, Slice;
    RawInput(sp, b0, n0, k, a, n);
  }

  lemma ModShift(a: nat, i: nat)
    ensures (a % 4 + i) % 4 == (a + i) % 4
  {
  }

  lemma ExtendRange<T>(s: seq<T>, a: nat, b: nat, c: nat)
    requires a <= b <= c <= |s|
    ensures s[a..b] + s[b..c] == s[a..c]
  {
  }

  lemma SliceOf<T>(s: seq<T>, p: nat, n: nat, end: nat)
    requires p <= end <= |s| && end <= p + n && (end == p + n || end == |s|)
    ensures Slice(s, p, p + n) == s[p..end]
  {
  }

  /** A plain file stays plain as long as its first 28 bytes stay. */
  lemma StillRaw(f: bytes, g: bytes)
    requires Decode(f) == Ok(None)
    requires |g| >= FILE_HDR_SZ ==> g[..FILE_HDR_SZ] == f[..Min(FILE_HDR_SZ, |f|)]
    ensures |g| >= FILE_HDR_SZ ==> Decode(g) == Ok(None)
    ensures |g| < FILE_HDR_SZ ==> Decode(g) == Err(StructError)
  {
    hide Decode;
    RawFiles(f);
    RawFiles(g);
    if |g| >= FILE_HDR_SZ {
      SubSlice(g, 0, FILE_HDR_SZ, 0, 4);
      SubSlice(f, 0, FILE_HDR_SZ, 0, 4);
    }
  }

  lemma DontCareBytes(n: nat, bs: nat)
    requires bs > 0 && n % bs == 0
    ensures ChunkBytes(Chunk(DontCare, 0, n / bs, []), bs) == Zeros(n)
  {
    var q := MultipleAsProduct(n, bs);
  }

  lemma ZerosAppended(f: bytes, n: nat)
    ensures Resize(f, |f| + n) == f + Zeros(n)
  {
  }

  /** Blocks covered by recorded chunks. */
  function SumBlocks(ics: seq<ImageChunk>, bs: nat): nat
    requires bs > 0
  {
    if ics == [] then 0 else SumBlocks(ics[..|ics| - 1], bs) + ics[|ics| - 1].outputSize / bs
  }

  lemma SumBlocksStep(ics: seq<ImageChunk>, i: nat, bs: nat)
    requires i < |ics| && bs > 0
    ensures SumBlocks(ics[..i + 1], bs) == SumBlocks(ics[..i], bs) + ics[i].outputSize / bs
  {
    assert ics[..i + 1][..i] == ics[..i];
  }

  /** Dividing the recorded sizes by the block size counts the blocks of the chunks. */
  lemma {:induction false} DropSums(cs: seq<Chunk>, bs: nat, k: nat)
    requires Plain(cs, bs) && bs > 0 && k <= |cs|
    ensures |Layout(cs, bs, FILE_HDR_SZ, 0)| == |cs|
    ensures SumBlocks(Layout(cs, bs, FILE_HDR_SZ, 0)[..k], bs) == TotalBlocks(cs[..k])
  {
    hide Layout, Expand;
    LayoutLength(cs, bs, FILE_HDR_SZ, 0);
    if k > 0 {
      DropSums(cs, bs, k - 1);
      LayoutAt(cs, bs, k - 1);
      SumBlocksStep(Layout(cs, bs, FILE_HDR_SZ, 0), k - 1, bs);
      MulMod(cs[k - 1].blocks, bs);
      assert cs[..k] == cs[..k - 1] + [cs[k - 1]];
      TotalBlocksConcat(cs[..k - 1], [cs[k - 1]]);
      TotalBlocksOne(cs[k - 1]);
    }
  }

  lemma CutSums(cs: seq<Chunk>, bs: nat, k: nat, keep: nat)
    requires Plain(cs, bs) && bs > 0 && k < |cs| && keep <= cs[k].blocks
    ensures |Layout(cs, bs, FILE_HDR_SZ, 0)| == |cs|
    ensures var ics := Layout(cs, bs, FILE_HDR_SZ, 0);
            var cut := ics[k := ics[k].(outputSize := keep * bs)];
            SumBlocks(cut[..k + 1], bs) == TotalBlocks(cs[..k] + [CutChunk(cs[k], keep, bs)])
  {
    hide Layout, CutChunk;
    DropSums(cs, bs, k);
    var ics := Layout(cs, bs, FILE_HDR_SZ, 0);
    var cut := ics[k := ics[k].(outputSize := keep * bs)];
    SumBlocksStep(cut, k, bs);
    assert cut[..k] == ics[..k];
    MulMod(keep, bs);
    CutBlocks(cs[k], keep, bs);
    TotalBlocksConcat(cs[..k], [CutChunk(cs[k], keep, bs)]);
    TotalBlocksOne(CutChunk(cs[k], keep, bs));
  }

  lemma CutBlocks(c: Chunk, keep: nat, bs: nat)
    requires Complete(c, bs) && keep <= c.blocks
    ensures CutChunk(c, keep, bs).blocks == keep && CutChunk(c, keep, bs).kind == c.kind
  {
  }

  lemma CutPayload(c: Chunk, keep: nat, bs: nat)
    requires Complete(c, bs) && keep <= c.blocks
    ensures ChunkPayloadSize(CutChunk(c, keep, bs), bs)
            == if c.kind.Raw? then keep * bs else if c.kind.DontCare? then 0 else 4
  {
  }

  lemma NonEmptyImage(cs: seq<Chunk>, bs: nat, size: nat)
    requires Plain(cs, bs) && size < |Expand(cs, bs)|
    ensures cs != []
  {
  }

  /** How many blocks of a chunk starting at block q lie below size. */
  lemma KeptBlocks(q: nat, blocks: nat, bs: nat, size: nat) returns (keep: nat)
    requires bs > 0 && size % bs == 0 && q * bs <= size <= q * bs + blocks * bs
    ensures size - q * bs == keep * bs && keep == (size - q * bs) / bs && keep <= blocks
  {
    MulMod(q, bs);
    MultiplesClosed(size, q * bs, bs);
    keep := MultipleAsProduct(size - q * bs, bs);
    if keep > blocks {
      MulGrows(blocks, keep, bs);
    }
  }

  /** Shortening chunk k to size cuts the flat image there. */
  lemma CutExpands(cs: seq<Chunk>, bs: nat, k: nat, keep: nat, size: nat)
    requires Plain(cs, bs) && k < |cs| && keep <= cs[k].blocks
    requires size == |Expand(cs[..k], bs)| + keep * bs
    ensures var cs' := cs[..k] + [CutChunk(cs[k], keep, bs)];
            Plain(cs', bs) && size <= |Expand(cs, bs)| && Expand(cs', bs) == Expand(cs, bs)[..size]
  {
    hide Expand, CutChunk, ChunkBytes;
    CutChunkBytes(cs[k], keep, bs);
    CutBlocks(cs[k], keep, bs);
    var c' := CutChunk(cs[k], keep, bs);
    assert Plain([c'], bs) && [c'][0] == c';
    AppendChunkExpands(cs[..k], c', bs);
    ExpandAt(cs, bs, k);
    PrefixInside(Expand(cs[..k], bs), ChunkBytes(cs[k], bs), Expand(cs[k + 1..], bs), keep * bs);
  }

  lemma PrefixInside<T>(x: seq<T>, y: seq<T>, z: seq<T>, n: nat)
    requires n <= |y|
    ensures (x + (y + z))[..|x| + n] == x + y[..n]
  {
  }

  lemma DropExpands(cs: seq<Chunk>, bs: nat, k: nat)
    requires Plain(cs, bs) && k <= |cs|
    ensures |Expand(cs[..k], bs)| <= |Expand(cs, bs)|
    ensures Expand(cs[..k], bs) == Expand(cs, bs)[..|Expand(cs[..k], bs)|]
  {
    hide Expand;
    assert cs == cs[..k] + cs[k..];
    ExpandConcat(cs[..k], cs[k..], bs);
  }

  /** The writing operations of the interface. */
  datatype Op = OpRaw(data: bytes) | OpFill(fill: bytes, size: nat) | OpDontCare(num: nat) | OpTruncate(size: nat)

  /** What an operation does to a flat file. */
  function FlatOp(f: bytes, op: Op): bytes {
    match op
    case OpRaw(data) => f + data
    case OpFill(fill, size) => if |fill| == 4 then f + Pattern(fill, size) else f
    case OpDontCare(num) => f + Zeros(num)
    case OpTruncate(size) => Resize(f, size)
  }

  function FlatRun(f: bytes, ops: seq<Op>): bytes {
    if ops == [] then f else FlatOp(FlatRun(f, ops[..|ops| - 1]), ops[|ops| - 1])
  }

  lemma NothingRun(f: bytes)
    ensures FlatRun(f, []) == f
  {
  }

  lemma FlatRunStep(f: bytes, ops: seq<Op>, i: nat)
    requires i < |ops|
    ensures FlatRun(f, ops[..i + 1]) == FlatOp(FlatRun(f, ops[..i]), ops[i])
  {
    assert ops[..i + 1][..i] == ops[..i];
  }

  /** What an operation asks of its arguments: whole blocks, and no plain file cut below the size of a header. */
  predicate OpFits(op: Op, bs: nat, sparse: bool)
    requires bs > 0
  {
    match op
    case OpRaw(data) => |data| % bs == 0
    case OpFill(fill, size) => |fill| == 4 && size % 4 == 0 && size % bs == 0
    case OpDontCare(num) => num % bs == 0
    case OpTruncate(size) => if sparse then size % bs == 0 else size >= FILE_HDR_SZ
  }

  predicate AllFit(ops: seq<Op>, bs: nat, sparse: bool)
    requires bs > 0
  {
    forall i :: 0 <= i < |ops| ==> OpFits(ops[i], bs, sparse)
  }

  predicate SmallPayload(op: Op) {
    op.OpRaw? ==> CHUNK_HDR_SZ + |op.data| < U32
  }

  /** Every image on the way stays within limit bytes, and all chunks and blocks can be counted. */
  ghost predicate RunRoom(f: bytes, ops: seq<Op>, chunks: nat, bs: nat, limit: nat)
    requires bs > 0
  {
    && limit / bs < U32 && chunks + |ops| < U32
    && (forall i :: 0 <= i < |ops| ==> SmallPayload(ops[i]))
    && (forall i :: 0 <= i <= |ops| ==> |FlatRun(f, ops[..i])| <= limit)
  }

  /** A RAW chunk of n bytes behind the image can be counted, but its own size does not fit 32 bits. */
  predicate Overflows(sp: Sparse, n: nat) {
    && sp.blockSize > 0 && CHUNK_HDR_SZ + n >= U32
    && |sp.chunks| + 1 < U32 && TotalBlocks(sp.chunks) + n / sp.blockSize < U32
  }

  class ImageHandler {
    /** The bytes of the file on disk. */
    var file: bytes
    const readOnly: bool

    var isSparse: bool
    var blockSize: nat
    var imageSize: nat
    var filePos: nat
    var numTotalBlocks: int
    var numTotalChunks: int
    var chunks: seq<ImageChunk>
    var chunkOutputOffsets: seq<nat>
    var sparseEnd: nat

    /** The image the file encodes, and the counts its header claims (they differ only after a failed append). */
    ghost var sp: Sparse
    ghost var hdrBlocks: nat
    ghost var hdrChunks: nat

    /** The handler's fields describe the chunk list sp, whatever the counts say. */
    ghost predicate Anchored()
      reads this`file, this`isSparse, this`blockSize, this`imageSize, this`chunks, this`chunkOutputOffsets
      reads this`sparseEnd, this`sp, this`hdrBlocks, this`hdrChunks
    {
      if isSparse then
        && PlainImage(sp)
        && hdrBlocks < U32 && hdrChunks < U32
        && file == EncodeWith(sp, hdrBlocks, hdrChunks)
        && blockSize == sp.blockSize
        && imageSize == |Expand(sp.chunks, sp.blockSize)|
        && chunks == Layout(sp.chunks, sp.blockSize, FILE_HDR_SZ, 0)
        && chunkOutputOffsets == OutputOffsets(chunks)
        && sparseEnd == |file|
      else
        && Decode(file) == Ok(None)
        && blockSize == DEFAULT_BLOCK_SIZE
        && imageSize == |file|
    }

    ghost predicate Valid()
      reads this`file, this`isSparse, this`blockSize, this`imageSize, this`chunks, this`chunkOutputOffsets
      reads this`sparseEnd, this`sp, this`hdrBlocks, this`hdrChunks
      reads this`numTotalBlocks, this`numTotalChunks
      ensures Valid() ==> Anchored()
    {
      && Anchored()
      && (isSparse ==>
            && hdrBlocks == numTotalBlocks == TotalBlocks(sp.chunks)
            && hdrChunks == numTotalChunks == |sp.chunks|)
    }

    /** The flat file this handler stands for. */
    ghost function Contents(): bytes
      requires Anchored()
      reads this`file, this`isSparse, this`blockSize, this`imageSize, this`chunks, this`chunkOutputOffsets
      reads this`sparseEnd, this`sp, this`hdrBlocks, this`hdrChunks
    {
      if isSparse then Expand(sp.chunks, sp.blockSize) else file
    }

    constructor (file: bytes, readOnly: bool)
      ensures this.file == file && this.readOnly == readOnly
    {
      this.file := file;
      this.readOnly := readOnly;
      isSparse, blockSize, imageSize, filePos := false, DEFAULT_BLOCK_SIZE, 0, 0;
      numTotalBlocks, numTotalChunks, chunks, chunkOutputOffsets, sparseEnd := 0, 0, [], [], 0;
      sp, hdrBlocks, hdrChunks := Sparse(0, 0, []), 0, 0;
    }

    /** Fields after reading a file that decodes to d. */
    ghost predicate Describes(d: Option<Sparse>)
      reads this
    {
      match d
      case None => !isSparse && blockSize == DEFAULT_BLOCK_SIZE && imageSize == |file|
      case Some(s) =>
        && isSparse && blockSize == s.blockSize && sp == s
        && numTotalBlocks == hdrBlocks == TotalBlocks(s.chunks)
        && numTotalChunks == hdrChunks == |s.chunks|
        && imageSize == Area(TotalBlocks(s.chunks), s.blockSize)
        && chunks == Layout(s.chunks, s.blockSize, FILE_HDR_SZ, 0)
        && chunkOutputOffsets == OutputOffsets(chunks)
        && (Plain(s.chunks, s.blockSize) ==> sparseEnd == |file|)
    }

    /** Reads the chunk at pos and records it; next is the file position after it. */
    method ReadChunk(pos: nat, out: nat) returns (r: Result<nat>, next: nat, ghost c: Chunk)
      modifies this`chunks
      ensures r.Err? <==> DecodeChunk(Slice(file, pos, |file|), blockSize).Err?
      ensures r.Err? ==> r.error == DecodeChunk(Slice(file, pos, |file|), blockSize).error
      ensures r.Ok? ==>
                && pos < |file|
                && DecodeChunk(Slice(file, pos, |file|), blockSize) == Ok((c, Slice(file, next, |file|)))
                && r.value == c.blocks
                && chunks == old(chunks) + LayoutOne(c, blockSize, pos, out)
                && (Complete(c, blockSize) ==>
                      next == pos + CHUNK_HDR_SZ + ChunkPayloadSize(c, blockSize) && next <= |file|)
                && (!Complete(c, blockSize) ==> next >= |file|)
    {
      hide DecodeChunkHeader, DecodeChunk, Slice;
      ChunkCases(file, pos, blockSize);
      next, c := pos, Chunk(DontCare, 0, 0, []);
      var ch := DecodeChunkHeader(Slice(file, pos, pos + CHUNK_HDR_SZ));
      if ch.Err? {
        return Err(ch.error), next, c;
      }
      var ChunkHeader(code, reserved, chunkSz, totalSz) := ch.value;
      var dataSz, at := totalSz - CHUNK_HDR_SZ, pos + CHUNK_HDR_SZ;
      if code == TypeCode(Raw) {
        if dataSz != chunkSz * blockSize {
          return Err(ValueError), next, c;
        }
        chunks := chunks + [ImageChunk(Raw, pos, out, chunkSz * blockSize, Some(at), None)];
        next := at + dataSz;
        c := Chunk(Raw, reserved, chunkSz, Slice(file, at, at + dataSz));
      } else if code == TypeCode(Fill) {
        if dataSz != 4 {
          return Err(ValueError), next, c;
        }
        var fillData := Slice(file, at, at + 4);
        chunks := chunks + [ImageChunk(Fill, pos, out, chunkSz * blockSize, None, Some(fillData))];
        next := at + |fillData|;
        c := Chunk(Fill, reserved, chunkSz, fillData);
      } else if code == TypeCode(DontCare) {
        if dataSz != 0 {
          return Err(ValueError), next, c;
        }
        chunks := chunks + [ImageChunk(DontCare, pos, out, chunkSz * blockSize, None, None)];
        next := at;
        c := Chunk(DontCare, reserved, chunkSz, []);
      } else if code == TypeCode(Crc32) {
        if dataSz != 4 {
          return Err(ValueError), next, c;
        }
        var crc := Slice(file, at, at + 4);
        next := at + |crc|;
        c := Chunk(Crc32, reserved, chunkSz, crc);
      } else {
        return Err(ValueError), next, c;
      }
      SliceLength(file, at, at + dataSz);
      SliceEnd(file, at, dataSz);
      return Ok(chunkSz), next, c;
    }

    /** Reads n chunks from behind the header and checks the header's block count and the end of the file. */
    method ReadChunks(n: nat, blocks: nat) returns (r: Result<()>)
      requires |file| >= FILE_HDR_SZ
      modifies this`chunks, this`sparseEnd, this`imageSize
      ensures var d := DecodeChunks(Slice(file, FILE_HDR_SZ, |file|), n, blockSize);
              match d
              case Err(e) => r == Err(e)
              case Ok((cs, junk)) =>
                if blocks != TotalBlocks(cs) || junk != [] then r == Err(ValueError)
                else
                  && r == Ok(())
                  && chunks == Layout(cs, blockSize, FILE_HDR_SZ, 0)
                  && imageSize == Area(blocks, blockSize)
                  && (Plain(cs, blockSize) ==> sparseEnd == |file|)
    {
      hide DecodeChunk, LayoutOne, ChunkPayloadSize;
      chunks := [];
      var offset, outputOffset, pos: nat := 0, 0, FILE_HDR_SZ;
      ghost var done: seq<Chunk> := [];
      ghost var d := DecodeChunks(Slice(file, FILE_HDR_SZ, |file|), n, blockSize);
      PrependNothing(d);
      for i := 0 to n
        invariant |done| == i && file == old(file) && blockSize == old(blockSize)
        invariant d == Prepend(done, DecodeChunks(Slice(file, pos, |file|), n - i, blockSize))
        invariant offset == TotalBlocks(done) && outputOffset == Area(offset, blockSize)
        invariant chunks == Layout(done, blockSize, FILE_HDR_SZ, 0)
        invariant pos == FILE_HDR_SZ + Extent(done, blockSize) || pos >= |file|
        invariant Plain(done, blockSize) ==> pos == FILE_HDR_SZ + Extent(done, blockSize) && pos <= |file|
      {
        var cr, next, c := ReadChunk(pos, outputOffset);
        if cr.Err? {
          return Err(cr.error);
        }
        PrependStep(done, Slice(file, pos, |file|), n - i, blockSize);
        LayoutStep(done, c, blockSize);
        done := done + [c];
        offset := offset + cr.value;
        outputOffset := outputOffset + cr.value * blockSize;
        pos := next;
      }
      assert done + [] == done;
      sparseEnd := pos;
      if blocks != offset {
        return Err(ValueError);
      }
      if pos < |file| {
        return Err(ValueError);
      }
      imageSize := outputOffset;
      return Ok(());
    }

    /** The part of reading a file that only sparse files get to: format checks, then the chunk list. */
    method ReadSparse(h: Header) returns (r: Result<()>)
      requires numTotalBlocks == h.blocks && numTotalChunks == h.chunks && |file| >= FILE_HDR_SZ
      modifies this
      ensures file == old(file) && filePos == old(filePos)
      ensures match DecodeBody(h, Slice(file, FILE_HDR_SZ, |file|))
              case Err(e) => r == Err(e)
              case Ok(s) => r == Ok(()) && Describes(Some(s))
    {
      hide DecodeChunks, Layout, Plain, TotalBlocks, Area, OutputOffsets, WFChunks, EncodeChunks, Slice;
      if h.major != 1 || h.minor != 0 {
        return Err(ValueError);
      }
      if h.fileHdrSz != FILE_HDR_SZ || h.chunkHdrSz != CHUNK_HDR_SZ {
        return Err(ValueError);
      }
      blockSize := h.blockSize;
      r := ReadChunks(h.chunks, h.blocks);
      if r.Ok? {
        DecodeChunksSound(Slice(file, FILE_HDR_SZ, |file|), h.chunks, h.blockSize);
        ghost var s := DecodeBody(h, Slice(file, FILE_HDR_SZ, |file|)).value;
        chunkOutputOffsets := OutputOffsets(chunks);
        isSparse := true;
        sp, hdrBlocks, hdrChunks := s, TotalBlocks(s.chunks), |s.chunks|;
      }
    }

    /** Reads the file from scratch; it fails exactly when the file does not decode. */
    method ReadHeader() returns (r: Result<()>)
      modifies this
      ensures file == old(file) && filePos == 0
      ensures |file| < FILE_HDR_SZ ==> !isSparse && blockSize == DEFAULT_BLOCK_SIZE && imageSize == |file|
      ensures Decode(file).Err? ==> r == Err(Decode(file).error)
      ensures Decode(file).Ok? ==> r == Ok(()) && Describes(Decode(file).value)
    {
      isSparse := false;
      blockSize := DEFAULT_BLOCK_SIZE;
      filePos := 0;
      imageSize := |file|;
      hide DecodeHeader, DecodeBody, Layout, Plain, TotalBlocks, Area, OutputOffsets, Slice;
      DecodeHeaderNeeds(file);
      var h := DecodeHeader(Slice(file, 0, FILE_HDR_SZ));
      if h.Err? {
        return Err(h.error);
      }
      numTotalBlocks, numTotalChunks := h.value.blocks, h.value.chunks;
      if h.value.magic != MAGIC {
        return Ok(());
      }
      r := ReadSparse(h.value);
    }

    // ----------------------------------------------------------- reading

    /** A sparse image with any content has a chunk to read from. */
    lemma ChunksNonEmpty()
      ensures Anchored() && isSparse && |Contents()| > 0 ==> chunks != []
    {
      if Anchored() && isSparse && |Contents()| > 0 {
        LayoutLength(sp.chunks, blockSize, FILE_HDR_SZ, 0);
      }
    }

    method Seek(offset: int) returns (r: Result<()>)
      modifies this`filePos
      ensures r.Ok? <==> offset >= 0
      ensures filePos == if offset >= 0 then offset else old(filePos)
    {
      if offset < 0 {
        return Err(RuntimeError);
      }
      filePos := offset;
      return Ok(());
    }

    /** What the read loop relies on at chunk k: it covers [outputOffset, next outputOffset) of the flat image. */
    lemma ChunkSpan(k: nat)
      requires Valid() && isSparse && k < |chunks|
      ensures chunks[k].outputOffset + chunks[k].outputSize
              == if k + 1 < |chunks| then chunks[k + 1].outputOffset else |Contents()|
    {
      hide Layout, Expand, Plain;
      LayoutLength(sp.chunks, blockSize, FILE_HDR_SZ, 0);
      LayoutNext(sp.chunks, blockSize, k);
    }

    /** Bisecting finds a chunk holding pos. */
    lemma Bisected(pos: nat)
      requires Valid() && isSparse && pos <= imageSize
      ensures Sorted(chunkOutputOffsets) && imageSize == |Contents()|
      ensures var i := BisectRight(chunkOutputOffsets, pos);
              chunks != [] ==>
                && 1 <= i <= |chunks|
                && chunks[i - 1].outputOffset <= pos <= chunks[i - 1].outputOffset + chunks[i - 1].outputSize
                && (pos < imageSize ==> pos < chunks[i - 1].outputOffset + chunks[i - 1].outputSize)
    {
      hide Layout, Expand, Plain;
      LayoutLength(sp.chunks, blockSize, FILE_HDR_SZ, 0);
      BisectedChunk(sp.chunks, blockSize, pos);
    }

    /** The part of the chunk at index k from the cursor on, at most toGo bytes. */
    method ReadFrom(k: nat, toGo: nat) returns (piece: bytes)
      requires Valid() && isSparse && k < |chunks|
      requires chunks[k].outputOffset <= filePos <= chunks[k].outputOffset + chunks[k].outputSize
      ensures |piece| == Min(chunks[k].outputOffset + chunks[k].outputSize - filePos, toGo)
      ensures filePos + |piece| <= |Contents()| && piece == Contents()[filePos..filePos + |piece|]
    {
      hide Layout, EncodeWith, Expand, ChunkBytes, Slice, Times;
      var chunk := chunks[k];
      var chunkPosOffset := filePos - chunk.outputOffset;
      var chunkPosToGo := Min(chunk.outputSize - chunkPosOffset, toGo);
      LayoutLength(sp.chunks, blockSize, FILE_HDR_SZ, 0);
      LayoutAt(sp.chunks, blockSize, k);
      ChunkRange(sp.chunks, blockSize, k, chunkPosOffset, chunkPosToGo);
      ghost var stood := ChunkBytes(sp.chunks[k], blockSize);
      if chunk.chunkType.Raw? {
        RawPiece(sp, hdrBlocks, hdrChunks, k, chunkPosOffset, chunkPosToGo);
        var at := chunk.inputOffset.value + chunkPosOffset;
        piece := Slice(file, at, at + chunkPosToGo);
      } else if chunk.chunkType.Fill? {
        var fillData := chunk.fillData.value;
        var times, offsetMod := chunkPosToGo / |fillData| + 2, chunkPosOffset % |fillData|;
        FillPiece(sp.chunks[k], blockSize, chunkPosOffset, chunkPosToGo, times, offsetMod);
        piece := Slice(Times(fillData, times), offsetMod, offsetMod + chunkPosToGo);
      } else {
        ZeroPiece(sp.chunks[k], blockSize, chunkPosOffset, chunkPosToGo);
        piece := Zeros(chunkPosToGo);
      }
      assert piece == stood[chunkPosOffset..chunkPosOffset + chunkPosToGo];
    }

    /** The read loop of a sparse image: walks the chunks from the bisected one, moving the cursor. */
    method ReadChunked(size: nat) returns (data: bytes)
      requires Valid() && isSparse && filePos <= imageSize && chunks != []
      modifies this`filePos
      ensures Valid() && data == Slice(Contents(), old(filePos), old(filePos) + size)
      ensures filePos == old(filePos) + |data|
    {
      hide Valid, Anchored, Contents, Slice;
      Bisected(filePos);
      var chunkIdx := BisectRight(chunkOutputOffsets, filePos) - 1;
      data := [];
      var toGo := size;
      ghost var p0, all := filePos, Contents();
      while toGo > 0
        invariant p0 <= filePos <= |all| && toGo == size - (filePos - p0) >= 0
        invariant data == all[p0..filePos]
        invariant toGo > 0 ==>
                    && 0 <= chunkIdx < |chunks|
                    && chunks[chunkIdx].outputOffset <= filePos
                    && filePos <= chunks[chunkIdx].outputOffset + chunks[chunkIdx].outputSize
        decreases |chunks| - chunkIdx
      {
        var piece := ReadFrom(chunkIdx, toGo);
        ChunkSpan(chunkIdx);
        ExtendRange(all, p0, filePos, filePos + |piece|);
        data := data + piece;
        toGo := toGo - |piece|;
        filePos := filePos + |piece|;
        chunkIdx := chunkIdx + 1;
        if chunkIdx >= |chunks| {
          break;
        }
      }
      SliceOf(all, p0, size, filePos);
    }

    /** Reads up to size bytes of the flat image at the cursor, which moves past them. */
    method Read(size: nat) returns (r: Result<bytes>)
      requires Valid()
      requires isSparse ==> filePos <= imageSize
      modifies this`filePos
      ensures Valid()
      ensures r.Err? <==> isSparse && size > 0 && chunks == []
      ensures r.Ok? ==> r.value == Slice(Contents(), old(filePos), old(filePos) + size)
      ensures filePos == old(filePos) + (if r.Ok? then |r.value| else 0)
    {
      hide Anchored, Slice;
      var data: bytes;
      if !isSparse {
        data := Slice(file, filePos, filePos + size);
        filePos := filePos + |data|;
      } else if chunks != [] {
        data := ReadChunked(size);
      } else if size > 0 {
        return Err(IndexError);
      } else {
        SliceNothing(Contents(), filePos);
        data := [];
      }
      return Ok(data);
    }

    // ----------------------------------------------------------- writing

    lemma DescribedIsValid(s: Sparse)
      requires Describes(Some(s)) && PlainImage(s) && file == Encode(s)
      ensures Valid() && isSparse && sp == s
    {
      hide Layout, Expand, Plain, EncodeHeader, EncodeChunks, Encode, EncodeWith, WFChunks;
      EncodeIsEncodeWith(s);
      ExpandSize(s.chunks, s.blockSize);
    }

    lemma PlainIsValid()
      requires Decode(file) == Ok(None) && Describes(None)
      ensures Valid()
    {
      hide Decode;
    }

    /** Rewrites the two count fields of the header; out-of-range counts raise before anything is written. */
    method UpdateChunksAndBlocks() returns (r: Result<()>)
      modifies this`file
      ensures r.Err? ==> r.error == StructError && file == old(file)
      ensures r.Ok? <==> 0 <= numTotalBlocks < U32 && 0 <= numTotalChunks < U32
      ensures r.Ok? ==>
                file == WriteAt(old(file), NUM_CHUNKS_AND_BLOCKS_OFFSET, EncodeCounts(numTotalBlocks, numTotalChunks))
    {
      if !(0 <= numTotalBlocks < U32 && 0 <= numTotalChunks < U32) {
        return Err(StructError);
      }
      file := WriteAt(file, NUM_CHUNKS_AND_BLOCKS_OFFSET, EncodeCounts(numTotalBlocks, numTotalChunks));
      return Ok(());
    }

    /** A chunk of this kind covering numBytes can be added without overflowing a 32-bit field. */
    ghost predicate Room(numBytes: int, payloadSize: nat)
      requires Valid() && isSparse
      reads this`file, this`isSparse, this`blockSize, this`imageSize, this`chunks, this`chunkOutputOffsets
      reads this`sparseEnd, this`sp, this`hdrBlocks, this`hdrChunks
      reads this`numTotalBlocks, this`numTotalChunks
    {
      && numBytes >= 0
      && numTotalChunks + 1 < U32
      && numTotalBlocks + numBytes / blockSize < U32
      && CHUNK_HDR_SZ + payloadSize < U32
    }

    /** The counts with such a chunk fit their fields, so that they are written, but the chunk's own header does not. */
    ghost predicate Spoils(numBytes: int, payloadSize: nat)
      requires Valid() && isSparse
      reads this`file, this`isSparse, this`blockSize, this`imageSize, this`chunks, this`chunkOutputOffsets
      reads this`sparseEnd, this`sp, this`hdrBlocks, this`hdrChunks
      reads this`numTotalBlocks, this`numTotalChunks
    {
      && numTotalChunks + 1 < U32
      && 0 <= numTotalBlocks + numBytes / blockSize < U32
      && (numBytes < 0 || CHUNK_HDR_SZ + payloadSize >= U32)
    }

    lemma SpoilsIff(n: nat)
      requires Valid() && isSparse
      ensures Spoils(n, n) <==> Overflows(sp, n)
    {
      hide Layout, Expand, EncodeWith;
    }

    /** What is on disk: the image the handler stands for. */
    ghost predicate Intact()
      reads this`file, this`isSparse, this`sp
    {
      Decode(file) == Ok(if isSparse then Some(sp) else None)
    }

    lemma ValidIsIntact()
      requires Valid()
      ensures Intact()
    {
      hide Layout, Expand, EncodeHeader, EncodeChunks, Decode, EncodeWith;
      if isSparse {
        EncodeIsEncodeWith(sp);
        DecodeIff(file, sp);
      }
    }

    /**
      Adds a chunk at the end of a sparse file. It fails exactly when a field does not fit. If that is a count, the file
      is untouched; otherwise its header already claims a chunk that is not there, and it cannot be opened any more. The
      handler still stands for the old image.
     */
    method AppendChunk(kind: Kind, numBytes: int, payload: bytes) returns (r: Result<()>)
      requires Valid() && isSparse && !readOnly && numBytes % blockSize == 0 && !kind.Crc32?
      requires numBytes < 0 ==> kind.DontCare?
      requires |payload| == if numBytes < 0 then 0 else PayloadSize(kind, numBytes / blockSize, blockSize)
      modifies this
      ensures isSparse && blockSize == old(blockSize)
      ensures r.Ok? <==> old(Room(numBytes, |payload|))
      ensures r.Ok? ==>
                var c := Chunk(kind, 0, numBytes / blockSize, payload);
                && Valid() && filePos == 0
                && sp == WithChunks(old(sp), old(sp).chunks + [c])
                && Complete(c, blockSize)
                && Contents() == old(Contents()) + ChunkBytes(c, blockSize)
      ensures r.Err? ==>
                r.error == StructError && Anchored() && sp == old(sp) && imageSize == old(imageSize)
      ensures r.Err? ==> if old(Spoils(numBytes, |payload|)) then Decode(file).Err? else file == old(file)
    {
      hide Layout, Expand, WFChunks, EncodeHeader, EncodeCounts, EncodeChunks, ChunkBytes, WriteAt, Decode;
      ghost var s0 := sp;
      EncodeIsEncodeWith(s0);
      numTotalChunks := numTotalChunks + 1;
      numTotalBlocks := numTotalBlocks + numBytes / blockSize;
      var u := UpdateChunksAndBlocks();
      if u.Err? {
        return u;
      }
      PatchCounts(s0.blockSize, hdrBlocks, hdrChunks, numTotalBlocks, numTotalChunks, s0.checksum,
                  EncodeChunks(s0.chunks, s0.blockSize));
      hdrBlocks, hdrChunks := numTotalBlocks, numTotalChunks;
      var total := CHUNK_HDR_SZ + |payload|;
      if numBytes < 0 || total >= U32 {
        OvercountedRefused(s0, numTotalBlocks);
        return Err(StructError);
      }
      ghost var c := Chunk(kind, 0, numBytes / blockSize, payload);
      AppendChunkExpands(s0.chunks, c, s0.blockSize);
      r := WriteChunk(kind, numBytes / blockSize, payload);
    }

    /** Writes a chunk at the end of a file whose counts already include it, and reads the file again. */
    method WriteChunk(kind: Kind, blocks: nat, payload: bytes) returns (r: Result<()>)
      requires Anchored() && isSparse && !kind.Crc32?
      requires TotalBlocks(sp.chunks) + blocks == hdrBlocks && |sp.chunks| + 1 == hdrChunks
      requires |payload| == PayloadSize(kind, blocks, blockSize) && CHUNK_HDR_SZ + |payload| < U32
      modifies this
      ensures r == Ok(()) && Valid() && isSparse && filePos == 0
      ensures sp == WithChunks(old(sp), old(sp).chunks + [Chunk(kind, 0, blocks, payload)])
    {
      hide Layout, Expand, WFChunks, EncodeHeader, EncodeCounts, EncodeChunks, EncodeChunkHeader;
      ghost var s0, f0, bs := sp, file, blockSize;
      ghost var c := Chunk(kind, 0, blocks, payload);
      ghost var s1 := WithChunks(s0, s0.chunks + [c]);
      PatchCounts(bs, TotalBlocks(s0.chunks), |s0.chunks|, hdrBlocks, hdrChunks, s0.checksum,
                  EncodeChunks(s0.chunks, bs));
      AppendChunkEncodes(s0, c);
      var hdr := EncodeChunkHeader(kind, 0, blocks, CHUNK_HDR_SZ + |payload|);
      WriteAtEnd(f0, hdr);
      WriteAtEnd(f0 + hdr, payload);
      Assoc(f0, hdr, payload);
      file := WriteAt(file, sparseEnd, hdr);
      file := WriteAt(file, sparseEnd + CHUNK_HDR_SZ, payload);
      assert file == Encode(s1);
      hide Encode, EncodeWith, WriteAt, Decode;
      DecodeIff(file, s1);
      r := ReadHeader();
      DescribedIsValid(s1);
    }

    /** Fields and content after a failed operation: the same image, though the header may need repair. */
    twostate predicate SameImage()
      requires old(Anchored())
      reads this
    {
      && Anchored() && isSparse == old(isSparse) && blockSize == old(blockSize) && imageSize == old(imageSize)
      && Contents() == old(Contents()) && sp == old(sp)
    }

    method AppendDontCare(numBytes: int) returns (r: Result<()>)
      requires Valid()
      modifies this
      ensures isSparse == old(isSparse) && blockSize == old(blockSize)
      ensures r.Ok? <==>
                && numBytes % old(blockSize) == 0 && !readOnly
                && if old(isSparse) then old(Room(numBytes, 0)) else old(imageSize) + numBytes >= FILE_HDR_SZ
      ensures r.Ok? ==>
                && Valid() && filePos == 0 && isSparse == old(isSparse) && blockSize == old(blockSize)
                && old(imageSize) + numBytes >= 0
                && Contents() == Resize(old(Contents()), old(imageSize) + numBytes)
                && (isSparse ==> |sp.chunks| == old(|sp.chunks|) + 1)
      ensures r.Err? && old(isSparse) ==> SameImage()
      ensures r.Err? && old(isSparse) ==>
                if numBytes % blockSize == 0 && !readOnly && old(Spoils(numBytes, 0)) then Decode(file).Err?
                else file == old(file)
    {
      BlockSizePositive();
      if numBytes % blockSize != 0 {
        return Err(AssertionError);
      }
      if readOnly {
        return Err(OSError);
      }
      if !isSparse {
        r := TruncateFile(imageSize + numBytes);
        return;
      }
      hide ChunkBytes, Resize, Valid, Anchored, Contents, Decode, Room, Spoils;
      r := AppendChunk(DontCare, numBytes, []);
      if r.Ok? {
        DontCareBytes(numBytes, blockSize);
        ZerosAppended(old(Contents()), numBytes);
      }
    }

    lemma BlockSizePositive()
      requires Anchored()
      ensures blockSize > 0 && imageSize == |Contents()|
      ensures !isSparse ==> blockSize == DEFAULT_BLOCK_SIZE
    {
      hide Expand, Layout;
    }

    /** Cuts or extends a plain file and reads it again, which fails when less than a header's worth is left. */
    method TruncateFile(size: int) returns (r: Result<()>)
      requires Valid() && !isSparse
      modifies this
      ensures !isSparse && blockSize == DEFAULT_BLOCK_SIZE
      ensures r.Ok? <==> size >= FILE_HDR_SZ
      ensures r.Ok? ==> Valid() && filePos == 0 && file == Resize(old(file), size)
      ensures r.Ok? ==> Contents() == Resize(old(Contents()), size)
      ensures size < 0 ==> file == old(file)
      ensures 0 <= size < FILE_HDR_SZ ==> file == Resize(old(file), size)
    {
      if size < 0 {
        return Err(OSError);
      }
      file := Resize(file, size);
      StillRaw(old(file), file);
      r := ReadHeader();
    }

    method AppendRaw(data: bytes, multipleBlockSize: bool := true) returns (r: Result<()>)
      requires Valid()
      requires isSparse && !multipleBlockSize ==> |data| % blockSize == 0
      modifies this
      ensures r.Ok? <==>
                && (multipleBlockSize ==> |data| % old(blockSize) == 0) && !readOnly
                && (old(isSparse) ==> old(Room(|data|, |data|)))
      ensures r.Ok? ==>
                && Valid() && filePos == 0 && isSparse == old(isSparse) && blockSize == old(blockSize)
                && Contents() == old(Contents()) + data
                && (isSparse ==> |sp.chunks| == old(|sp.chunks|) + 1)
      ensures r.Err? ==> SameImage()
      ensures r.Err? ==>
                if isSparse && |data| % blockSize == 0 && !readOnly && old(Spoils(|data|, |data|))
                then Decode(file).Err?
                else file == old(file)
    {
      BlockSizePositive();
      if multipleBlockSize && |data| % blockSize != 0 {
        return Err(AssertionError);
      }
      if readOnly {
        return Err(OSError);
      }
      if !isSparse {
        file := file + data;
        StillRaw(old(file), file);
        r := ReadHeader();
        return;
      }
      var blocks := MultipleAsProduct(|data|, blockSize);
      r := AppendChunk(Raw, |data|, data);
    }

    method AppendFill(fillData: bytes, size: nat) returns (r: Result<()>)
      requires Valid()
      modifies this
      ensures r.Ok? <==>
                && |fillData| == 4 && size % 4 == 0 && size % old(blockSize) == 0 && !readOnly
                && (old(isSparse) ==> old(Room(size, 4)))
      ensures r.Ok? ==>
                && Valid() && filePos == 0 && isSparse == old(isSparse) && blockSize == old(blockSize)
                && Contents() == old(Contents()) + Pattern(fillData, size)
                && (isSparse ==> |sp.chunks| == old(|sp.chunks|) + 1)
      ensures r.Err? ==> SameImage() && file == old(file)
    {
      hide Times;
      BlockSizePositive();
      if |fillData| != 4 || size % 4 != 0 || size % blockSize != 0 {
        return Err(AssertionError);
      }
      if readOnly {
        return Err(OSError);
      }
      if !isSparse {
        TimesIsPattern(fillData, size);
        file := file + Times(fillData, size / 4);
        StillRaw(old(file), file);
        r := ReadHeader();
        return;
      }
      var blocks := MultipleAsProduct(size, blockSize);
      r := AppendChunk(Fill, size, fillData);
    }

    // ----------------------------------------------------------- truncating

    /** The loop that recounts the blocks of the first n chunks. */
    method CountBlocks(n: nat) returns (total: nat)
      requires n <= |chunks| && blockSize > 0
      ensures total == SumBlocks(chunks[..n], blockSize)
    {
      total := 0;
      for i := 0 to n
        invariant total == SumBlocks(chunks[..i], blockSize)
      {
        SumBlocksStep(chunks, i, blockSize);
        total := total + chunks[i].outputSize / blockSize;
      }
      assert chunks[..n] == chunks[..n];
    }

    /** What shortening chunk k to end at size must write, and the image that results. */
    lemma CutPlan(k: nat, size: nat) returns (s1: Sparse, kept: nat)
      requires Anchored() && isSparse && k < |chunks| && size % blockSize == 0
      requires chunks[k].outputOffset < size < chunks[k].outputOffset + chunks[k].outputSize
      ensures PlainImage(s1) && s1.blockSize == blockSize && |s1.chunks| == k + 1 && TotalBlocks(s1.chunks) < U32
      ensures size <= |Contents()| && Expand(s1.chunks, blockSize) == Contents()[..size]
      ensures var ic := chunks[k];
              var keep := size - ic.outputOffset;
              var dataSz := if ic.chunkType.Raw? then keep else if ic.chunkType.Fill? then 4 else 0;
              && SumBlocks(chunks[k := ic.(outputSize := keep)][..k + 1], blockSize) == TotalBlocks(s1.chunks)
              && kept == keep / blockSize < U32 && dataSz + CHUNK_HDR_SZ < U32
              && Resize(WriteAt(WriteAt(file, ic.chunkOffset,
                                        EncodeChunkHeader(ic.chunkType, 0, kept, dataSz + CHUNK_HDR_SZ)),
                                NUM_CHUNKS_AND_BLOCKS_OFFSET, EncodeCounts(TotalBlocks(s1.chunks), k + 1)),
                        ic.chunkOffset + CHUNK_HDR_SZ + dataSz)
                 == Encode(s1)
    {
      hide Layout, Expand, EncodeWith, SumBlocks, EncodeChunkHeader, EncodeCounts, CutChunk, Encode, Resize, WriteAt,
        EncodeChunks;
      ghost var cs, bs := sp.chunks, blockSize;
      LayoutLength(cs, bs, FILE_HDR_SZ, 0);
      LayoutAt(cs, bs, k);
      kept := KeptBlocks(TotalBlocks(cs[..k]), cs[k].blocks, bs, size);
      s1 := WithChunks(sp, cs[..k] + [CutChunk(cs[k], kept, bs)]);
      CutChunkEncodes(sp, hdrBlocks, hdrChunks, k, kept);
      CutExpands(cs, bs, k, kept, size);
      CutSums(cs, bs, k, kept);
      CutBlocks(cs[k], kept, bs);
      CutPayload(cs[k], kept, bs);
    }

    /** What dropping chunk k and all behind it must write, and the image that results. */
    lemma DropPlan(k: nat) returns (s1: Sparse)
      requires Anchored() && isSparse && k < |chunks|
      ensures PlainImage(s1) && s1.blockSize == blockSize && |s1.chunks| == k && TotalBlocks(s1.chunks) < U32
      ensures chunks[k].outputOffset <= |Contents()|
      ensures Expand(s1.chunks, blockSize) == Contents()[..chunks[k].outputOffset]
      ensures SumBlocks(chunks[..k], blockSize) == TotalBlocks(s1.chunks)
      ensures Resize(WriteAt(file, NUM_CHUNKS_AND_BLOCKS_OFFSET, EncodeCounts(TotalBlocks(s1.chunks), k)),
                     chunks[k].chunkOffset)
              == Encode(s1)
    {
      hide Layout, Expand, EncodeWith, SumBlocks, EncodeCounts, Encode, Resize, WriteAt, EncodeChunks;
      ghost var cs, bs := sp.chunks, blockSize;
      LayoutLength(cs, bs, FILE_HDR_SZ, 0);
      LayoutAt(cs, bs, k);
      s1 := WithChunks(sp, cs[..k]);
      DropChunksEncodes(sp, hdrBlocks, hdrChunks, k);
      DropExpands(cs, bs, k);
      DropSums(cs, bs, k);
    }

    /** Rewrites the header of chunk k so that it ends at size; truncateAt is where the file must then be cut. */
    method ShortenChunk(k: nat, size: nat) returns (truncateAt: nat, ghost s1: Sparse)
      requires Anchored() && isSparse && k < |chunks| && size % blockSize == 0 && blockSize > 0
      requires chunks[k].outputOffset < size < chunks[k].outputOffset + chunks[k].outputSize
      modifies this`file, this`chunks
      ensures PlainImage(s1) && s1.blockSize == blockSize && |s1.chunks| == k + 1 <= |chunks|
      ensures TotalBlocks(s1.chunks) < U32
      ensures size <= old(|Contents()|) && Expand(s1.chunks, blockSize) == old(Contents())[..size]
      ensures SumBlocks(chunks[..k + 1], blockSize) == TotalBlocks(s1.chunks)
      ensures Resize(WriteAt(file, NUM_CHUNKS_AND_BLOCKS_OFFSET, EncodeCounts(TotalBlocks(s1.chunks), k + 1)),
                     truncateAt)
              == Encode(s1)
    {
      hide Anchored, Expand, WF, Plain, SumBlocks, EncodeChunkHeader, EncodeCounts, Encode, Resize, WriteAt, Contents;
      var chunk := chunks[k];
      ghost var kept;
      s1, kept := CutPlan(k, size);
      var numToKeep := size - chunk.outputOffset;
      var dataSz := if chunk.chunkType.Raw? then numToKeep else if chunk.chunkType.Fill? then 4 else 0;
      truncateAt := chunk.chunkOffset + CHUNK_HDR_SZ + dataSz;
      file := WriteAt(file, chunk.chunkOffset,
                      EncodeChunkHeader(chunk.chunkType, 0, numToKeep / blockSize, dataSz + CHUNK_HDR_SZ));
      chunks := chunks[k := chunk.(outputSize := numToKeep)];
    }

    /** Cuts the chunk list at size: one chunk is shortened in place, or chunks are dropped from a boundary on. */
    method CutChunks(size: nat) returns (r: Result<()>)
      requires Anchored() && isSparse && !readOnly && size % blockSize == 0 && size < imageSize
      modifies this
      ensures r == Ok(()) && Valid() && isSparse && filePos == 0 && blockSize == old(blockSize)
      ensures Contents() == old(Contents())[..size]
      ensures |sp.chunks| == old(KeptChunks(chunkOutputOffsets, size)) <= old(|sp.chunks|)
    {
      hide Valid, BisectRight, Sorted, Anchored, Expand, WF, Plain, SumBlocks, EncodeCounts, Encode, Resize, WriteAt,
        Contents, OutputOffsets, SameImage, Room, PlainImage, Intact, Spoils;
      CutIndex(size);
      KeptIs(chunkOutputOffsets, size);
      BlockSizePositive();
      var chunkIdx := BisectRight(chunkOutputOffsets, size) - 1;
      var chunk := chunks[chunkIdx];
      ghost var s1: Sparse;
      var truncateAt, chunkIdxForUpdate: nat;
      if chunk.outputOffset != size {
        truncateAt, s1 := ShortenChunk(chunkIdx, size);
        chunkIdxForUpdate := chunkIdx + 1;
      } else {
        s1 := DropPlan(chunkIdx);
        truncateAt := chunk.chunkOffset;
        chunkIdxForUpdate := chunkIdx;
      }
      r := CommitCut(chunkIdxForUpdate, truncateAt, s1);
    }

    /** Recounts the chunks that stay, patches the header, cuts the file and reads it again. */
    method CommitCut(n: nat, truncateAt: nat, ghost s: Sparse) returns (r: Result<()>)
      requires n <= |chunks| && blockSize > 0
      requires PlainImage(s) && |s.chunks| == n && TotalBlocks(s.chunks) < U32
      requires SumBlocks(chunks[..n], blockSize) == TotalBlocks(s.chunks)
      requires Resize(WriteAt(file, NUM_CHUNKS_AND_BLOCKS_OFFSET, EncodeCounts(TotalBlocks(s.chunks), n)), truncateAt)
               == Encode(s)
      modifies this
      ensures r == Ok(()) && Valid() && isSparse && filePos == 0 && blockSize == s.blockSize && sp == s
      ensures Contents() == Expand(s.chunks, s.blockSize)
    {
      hide Valid, Anchored, Expand, WF, Plain, SumBlocks, EncodeCounts, Encode, Resize, WriteAt, Contents;
      numTotalChunks := n;
      numTotalBlocks := CountBlocks(n);
      CountsFit(s);
      var u := UpdateChunksAndBlocks();
      file := Resize(file, truncateAt);
      r := Reread(s);
    }

    lemma CountsFit(s: Sparse)
      requires PlainImage(s)
      ensures |s.chunks| < U32 && TotalBlocks(s.chunks) < U32
    {
    }

    /** Reading back a file that encodes s. */
    method Reread(ghost s: Sparse) returns (r: Result<()>)
      requires PlainImage(s) && file == Encode(s)
      modifies this
      ensures r == Ok(()) && Valid() && isSparse && filePos == 0 && blockSize == s.blockSize && sp == s
      ensures Contents() == Expand(s.chunks, s.blockSize)
    {
      hide Expand, Encode, WFChunks, Plain;
      DecodeIff(file, s);
      r := ReadHeader();
      DescribedIsValid(s);
    }

    lemma WholeBlocks()
      requires Anchored() && isSparse
      ensures imageSize % blockSize == 0
    {
      hide Layout, Expand, EncodeWith;
      ExpandSize(sp.chunks, blockSize);
      MulMod(TotalBlocks(sp.chunks), blockSize);
    }

    /** A chunk behind which the image is still below 2^32 blocks can be added. */
    lemma RoomBelow(numBytes: nat, payloadSize: nat, size: nat)
      requires Valid() && isSparse && numBytes % blockSize == 0 && |Contents()| + numBytes <= size
      requires size / blockSize < U32 && |sp.chunks| + 1 < U32 && CHUNK_HDR_SZ + payloadSize < U32
      ensures Room(numBytes, payloadSize)
    {
      hide Layout, Expand, EncodeWith;
      ExpandSize(sp.chunks, blockSize);
      MulMod(TotalBlocks(sp.chunks), blockSize);
      MultiplesClosed(|Contents()|, numBytes, blockSize);
      DivMonotone(|Contents()| + numBytes, size, blockSize);
    }

    /** What a sparse image holds at place i of its chunk k. */
    lemma ContentsAt(k: nat, i: nat)
      requires Anchored() && isSparse && k < |sp.chunks| && i < sp.chunks[k].blocks * blockSize
      ensures ChunkHolds(sp.chunks[k], i, Contents(), TotalBlocks(sp.chunks[..k]) * blockSize + i)
    {
      hide Layout, Expand, EncodeWith;
      OctetAt(sp.chunks, blockSize, k, i);
    }

    /** Room in terms of the chunks and the size there are. */
    lemma RoomIff(numBytes: nat, payloadSize: nat)
      requires Valid() && isSparse && numBytes % blockSize == 0
      ensures Room(numBytes, payloadSize) <==>
                && |sp.chunks| + 1 < U32 && (|Contents()| + numBytes) / blockSize < U32
                && CHUNK_HDR_SZ + payloadSize < U32
    {
      hide Layout, Expand, EncodeWith;
      ExpandSize(sp.chunks, blockSize);
      var q := MultipleAsProduct(numBytes, blockSize);
      BlocksOfSum(TotalBlocks(sp.chunks), q, blockSize);
    }

    /** A sparse image never has more blocks than its header can count. */
    lemma BlocksFit()
      requires Valid() && isSparse
      ensures |Contents()| / blockSize < U32
    {
      hide Layout, Expand, EncodeWith;
      ExpandSize(sp.chunks, blockSize);
      MulMod(TotalBlocks(sp.chunks), blockSize);
    }

    /** The chunk the bisection picks for a cut strictly inside the image. */
    lemma CutIndex(size: nat)
      requires Anchored() && isSparse && size < imageSize
      ensures Sorted(chunkOutputOffsets) && |chunks| == |sp.chunks| > 0
      ensures var i := BisectRight(chunkOutputOffsets, size);
              && 1 <= i <= |chunks|
              && |chunkOutputOffsets| == |chunks| && chunkOutputOffsets[i - 1] == chunks[i - 1].outputOffset
              && chunks[i - 1].outputOffset <= size < chunks[i - 1].outputOffset + chunks[i - 1].outputSize
    {
      hide Layout, Expand, Plain, EncodeWith, BisectRight, Sorted, WF, Decode;
      NonEmptyImage(sp.chunks, blockSize, size);
      LayoutLength(sp.chunks, blockSize, FILE_HDR_SZ, 0);
      BisectedChunk(sp.chunks, blockSize, size);
    }

    /** The chunks there are once the image has n bytes. */
    ghost function ChunksAfter(n: nat): nat
      reads this`imageSize, this`chunkOutputOffsets, this`sp
    {
      if n < imageSize then KeptChunks(chunkOutputOffsets, n) else |sp.chunks| + if n > imageSize then 1 else 0
    }

    /** Sets the size of the flat image; a sparse image is cut at a block boundary or grown with a DONT_CARE chunk. */
    method Truncate(size: nat) returns (r: Result<()>)
      requires Anchored() && ((isSparse && size <= imageSize) || Valid())
      modifies this
      ensures isSparse == old(isSparse) && blockSize == old(blockSize)
      ensures r.Ok? <==>
                && !readOnly
                && if old(isSparse) then
                     && size % old(blockSize) == 0
                     && (size > old(imageSize) ==> old(Room(size - imageSize, 0)))
                   else size >= FILE_HDR_SZ
      ensures r.Ok? ==>
                && Anchored() && Contents() == Resize(old(Contents()), size)
                && (old(Valid()) || size < old(imageSize) ==> Valid())
                && (size != old(imageSize) || !old(isSparse) ==> filePos == 0)
                && (isSparse ==> |sp.chunks| == old(ChunksAfter(size)) <= old(|sp.chunks|) + 1)
                && (isSparse && size == old(imageSize) ==> file == old(file) && sp == old(sp))
      ensures r.Err? && (old(isSparse) || readOnly) ==> SameImage() && file == old(file)
      ensures r.Err? && !old(isSparse) && !readOnly ==> file == Resize(old(file), size)
    {
      hide Contents, Anchored, Valid, Resize, Room;
      BlockSizePositive();
      if readOnly {
        return Err(OSError);
      }
      if !isSparse {
        r := TruncateFile(size);
        return;
      }
      if size % blockSize != 0 {
        return Err(ValueError);
      }
      if size == imageSize {
        ResizeSame(Contents());
        return Ok(());
      }
      if size < imageSize {
        ResizeShorter(Contents(), size);
        r := CutChunks(size);
      } else {
        r := GrowSparse(size);
      }
    }

    /** Grows a sparse image with a DONT_CARE chunk. */
    method GrowSparse(size: nat) returns (r: Result<()>)
      requires Valid() && isSparse && !readOnly && size % blockSize == 0 && size > imageSize
      modifies this
      ensures isSparse && blockSize == old(blockSize)
      ensures r.Ok? <==> old(Room(size - imageSize, 0))
      ensures r.Ok? ==>
                && Valid() && filePos == 0 && Contents() == Resize(old(Contents()), size)
                && |sp.chunks| == old(|sp.chunks|) + 1
      ensures r.Err? ==> SameImage() && file == old(file)
    {
      hide Contents, Anchored, Valid, Resize, Room, Decode, Spoils;
      BlockSizePositive();
      WholeBlocks();
      MultiplesClosed(size, imageSize, blockSize);
      NotSpoiled(size - imageSize);
      r := AppendDontCare(size - imageSize);
    }

    /** Growing writes no payload, so that only a count can overflow. */
    lemma NotSpoiled(numBytes: nat)
      requires Valid() && isSparse
      ensures !Spoils(numBytes, 0)
    {
      hide Layout, Expand, EncodeWith;
    }

    // ----------------------------------------------------------- whole runs

    method Do(op: Op, ghost limit: nat) returns (r: Result<()>)
      requires Valid()
      modifies this
      ensures blockSize == old(blockSize) > 0 && isSparse == old(isSparse)
      ensures r.Ok? ==> Valid() && Contents() == FlatOp(old(Contents()), op) && OpFits(op, blockSize, isSparse)
      ensures !isSparse ==> (r.Ok? <==> !readOnly && OpFits(op, blockSize, false))
      ensures r.Ok? && isSparse ==> |sp.chunks| <= old(|sp.chunks|) + 1
      ensures (&& isSparse && !readOnly && OpFits(op, blockSize, true) && SmallPayload(op)
               && |FlatOp(old(Contents()), op)| <= limit && limit / blockSize < U32 && old(|sp.chunks|) + 1 < U32) ==>
                r.Ok?
    {
      hide Valid, Anchored, Contents, Room, Spoils, Resize, Pattern, Decode;
      BlockSizePositive();
      match op
      case OpRaw(data) => r := DoRaw(data, limit);
      case OpFill(fill, size) => r := DoFill(fill, size, limit);
      case OpDontCare(num) => r := DoDontCare(num, limit);
      case OpTruncate(size) => r := DoTruncate(size, limit);
    }

    /** The image can take numBytes more and stay within limit. */
    ghost predicate FitsBelow(numBytes: nat, payloadSize: nat, limit: nat)
      requires Valid()
      reads this
    {
      && isSparse && !readOnly && blockSize > 0 && numBytes % blockSize == 0
      && |Contents()| + numBytes <= limit && limit / blockSize < U32
      && |sp.chunks| + 1 < U32 && CHUNK_HDR_SZ + payloadSize < U32
    }

    method DoRaw(data: bytes, ghost limit: nat) returns (r: Result<()>)
      requires Valid()
      modifies this
      ensures blockSize == old(blockSize) > 0 && isSparse == old(isSparse)
      ensures r.Ok? ==> Valid() && Contents() == old(Contents()) + data && |data| % blockSize == 0
      ensures !isSparse ==> (r.Ok? <==> !readOnly && |data| % blockSize == 0)
      ensures r.Ok? && isSparse ==> |sp.chunks| <= old(|sp.chunks|) + 1
      ensures old(FitsBelow(|data|, |data|, limit)) ==> r.Ok?
    {
      hide Valid, Anchored, Contents, Room, Spoils, Decode;
      BlockSizePositive();
      if FitsBelow(|data|, |data|, limit) {
        RoomBelow(|data|, |data|, limit);
      }
      r := AppendRaw(data);
    }

    method DoFill(fill: bytes, size: nat, ghost limit: nat) returns (r: Result<()>)
      requires Valid()
      modifies this
      ensures blockSize == old(blockSize) > 0 && isSparse == old(isSparse)
      ensures r.Ok? ==>
                && |fill| == 4 && size % 4 == 0 && size % blockSize == 0
                && Valid() && Contents() == old(Contents()) + Pattern(fill, size)
      ensures !isSparse ==> (r.Ok? <==> !readOnly && |fill| == 4 && size % 4 == 0 && size % blockSize == 0)
      ensures r.Ok? && isSparse ==> |sp.chunks| <= old(|sp.chunks|) + 1
      ensures old(FitsBelow(size, 4, limit)) && |fill| == 4 && size % 4 == 0 ==> r.Ok?
    {
      hide Valid, Anchored, Contents, Room, Pattern, Decode;
      BlockSizePositive();
      if FitsBelow(size, 4, limit) {
        RoomBelow(size, 4, limit);
      }
      r := AppendFill(fill, size);
    }

    method DoDontCare(num: nat, ghost limit: nat) returns (r: Result<()>)
      requires Valid()
      modifies this
      ensures blockSize == old(blockSize) > 0 && isSparse == old(isSparse)
      ensures r.Ok? ==> Valid() && Contents() == old(Contents()) + Zeros(num) && num % blockSize == 0
      ensures !isSparse ==> (r.Ok? <==> !readOnly && num % blockSize == 0)
      ensures r.Ok? && isSparse ==> |sp.chunks| <= old(|sp.chunks|) + 1
      ensures old(FitsBelow(num, 0, limit)) ==> r.Ok?
    {
      hide Valid, Anchored, Contents, Room, Spoils, Resize, Decode;
      PlainHasHeader();
      BlockSizePositive();
      if FitsBelow(num, 0, limit) {
        RoomBelow(num, 0, limit);
      }
      ZerosAppended(Contents(), num);
      r := AppendDontCare(num);
    }

    method DoTruncate(size: nat, ghost limit: nat) returns (r: Result<()>)
      requires Valid()
      modifies this
      ensures blockSize == old(blockSize) > 0 && isSparse == old(isSparse)
      ensures r.Ok? ==> Valid() && Contents() == Resize(old(Contents()), size) && (isSparse ==> size % blockSize == 0)
      ensures !isSparse ==> (r.Ok? <==> !readOnly && size >= FILE_HDR_SZ)
      ensures r.Ok? && isSparse ==> |sp.chunks| <= old(|sp.chunks|) + 1
      ensures (&& isSparse && !readOnly && size % blockSize == 0 && size <= limit && limit / blockSize < U32
               && old(|sp.chunks|) + 1 < U32) ==> r.Ok?
    {
      hide Valid, Anchored, Contents, Room, Resize, Decode;
      BlockSizePositive();
      if isSparse && size > imageSize && size % blockSize == 0 {
        WholeBlocks();
        MultiplesClosed(size, imageSize, blockSize);
        if size <= limit && limit / blockSize < U32 && |sp.chunks| + 1 < U32 {
          RoomBelow(size - imageSize, 0, limit);
        }
      }
      r := Truncate(size);
    }

    lemma PlainHasHeader()
      requires Valid()
      ensures !isSparse ==> imageSize >= FILE_HDR_SZ
    {
      if !isSparse {
        hide Decode;
        RawFiles(file);
      }
    }

    /**
      Any run of operations that does not fail does to the flat image what it would do to a plain byte file. On a plain
      file it fails exactly when an operation's arguments do not fit; a sparse one needs the same, and room.
     */
    method Run(ops: seq<Op>, ghost limit: nat) returns (r: Result<()>)
      requires Valid()
      modifies this
      ensures blockSize == old(blockSize) > 0 && isSparse == old(isSparse)
      ensures r.Ok? ==>
                && Valid() && Contents() == FlatRun(old(Contents()), ops) && AllFit(ops, blockSize, isSparse)
                && Intact()
                && (isSparse ==> Expand(sp.chunks, blockSize) == Contents()) && (!isSparse ==> file == Contents())
      ensures !isSparse && !readOnly ==> (r.Ok? <==> AllFit(ops, blockSize, false))
      ensures (&& isSparse && !readOnly && AllFit(ops, blockSize, true)
               && RunRoom(old(Contents()), ops, old(|sp.chunks|), blockSize, limit)) ==> r.Ok?
    {
      hide Expand, Layout, Decode, EncodeWith, FlatOp, FlatRun, WFChunks, Plain, Valid, Anchored, Contents, OpFits,
        SmallPayload, Intact;
      BlockSizePositive();
      NothingRun(Contents());
      assert ops[..0] == [];
      r := Ok(());
      for i := 0 to |ops|
        invariant Valid() && isSparse == old(isSparse) && blockSize == old(blockSize)
        invariant Contents() == FlatRun(old(Contents()), ops[..i])
        invariant forall k :: 0 <= k < i ==> OpFits(ops[k], blockSize, isSparse)
        invariant isSparse ==> |sp.chunks| <= old(|sp.chunks|) + i
      {
        FlatRunStep(old(Contents()), ops, i);
        r := Do(ops[i], limit);
        if r.Err? {
          return;
        }
      }
      assert ops[..|ops|] == ops;
      ValidIsIntact();
      ContentsAre();
      r := Ok(());
    }

    lemma ContentsAre()
      requires Valid()
      ensures isSparse ==> Plain(sp.chunks, blockSize) && Expand(sp.chunks, blockSize) == Contents()
      ensures !isSparse ==> file == Contents()
    {
      hide Expand, Layout, Decode, EncodeWith;
    }
  }

  /**
    Either way the operations do the same: with 4096-byte blocks, a run that succeeds on a sparse handler succeeds on a
    plain one of equal content, unless a truncation cuts into the first 28 bytes; the other way round it takes room and
    truncations to whole blocks. Where both succeed they stay equal.
   */
  method RunBoth(sparse: ImageHandler, plain: ImageHandler, ops: seq<Op>, ghost limit: nat)
    returns (r: Result<()>, q: Result<()>)
    requires sparse != plain && sparse.Valid() && plain.Valid() && !sparse.readOnly && !plain.readOnly
    requires sparse.isSparse && !plain.isSparse && sparse.Contents() == plain.Contents()
    modifies sparse, plain
    ensures r.Ok? && q.Ok? ==>
              && sparse.Valid() && plain.Valid() && sparse.isSparse && !plain.isSparse
              && sparse.Contents() == plain.Contents() == plain.file
    ensures r.Ok? && sparse.blockSize == DEFAULT_BLOCK_SIZE && TruncationsKeepHeader(ops) ==> q.Ok?
    ensures (&& q.Ok? && sparse.blockSize == DEFAULT_BLOCK_SIZE && TruncationsWhole(ops, DEFAULT_BLOCK_SIZE)
             && RunRoom(old(sparse.Contents()), ops, old(|sparse.sp.chunks|), DEFAULT_BLOCK_SIZE, limit)) ==> r.Ok?
  {
    hide Expand, Layout, Decode, ImageHandler.Valid, ImageHandler.Anchored, ImageHandler.Contents, RunRoom, FlatRun,
      Plain, ImageHandler.Intact;
    plain.BlockSizePositive();
    r := sparse.Run(ops, limit);
    q := plain.Run(ops, limit);
  }

  predicate TruncationsKeepHeader(ops: seq<Op>) {
    forall i :: 0 <= i < |ops| && ops[i].OpTruncate? ==> ops[i].size >= FILE_HDR_SZ
  }

  predicate TruncationsWhole(ops: seq<Op>, bs: nat)
    requires bs > 0
  {
    forall i :: 0 <= i < |ops| && ops[i].OpTruncate? ==> ops[i].size % bs == 0
  }

  lemma BlocksOfSum(a: nat, b: nat, bs: nat)
    requires bs > 0
    ensures (a * bs + b * bs) / bs == a + b && (b * bs) / bs == b
  {
    Distribute(a, b, bs);
    MulMod(a + b, bs);
    MulMod(b, bs);
  }

  // ------------------------------------------------------------- opening files

  /** The file opens and stands for content c: a plain file for itself, a complete sparse one for its expansion. */
  ghost predicate Opened(f: bytes, c: bytes) {
    match Decode(f)
    case Err(_) => false
    case Ok(None) => c == f
    case Ok(Some(sp)) => PlainImage(sp) && c == Expand(sp.chunks, sp.blockSize)
  }

  /** Opens a file for reading only. */
  method Open(f: bytes, ghost c: bytes) returns (image: ImageHandler)
    requires Opened(f, c)
    ensures fresh(image) && image.Valid() && image.readOnly && image.file == f && image.filePos == 0
    ensures image.Contents() == c && (image.isSparse <==> Decode(f) != Ok(None))
  {
    hide ImageHandler.Valid, ImageHandler.Anchored, Expand, Decode, Encode, PlainImage;
    image := new ImageHandler(f, true);
    var h := image.ReadHeader();
    if Decode(f).value.Some? {
      DecodeIff(f, Decode(f).value.value);
      image.DescribedIsValid(Decode(f).value.value);
    } else {
      image.PlainIsValid();
    }
    OpenedContents(image, c);
  }

  lemma OpenedContents(image: ImageHandler, c: bytes)
    requires image.Valid() && Opened(image.file, c) && image.Describes(Decode(image.file).value)
    ensures image.Contents() == c
  {
    hide Expand, Layout, EncodeWith, Plain, Decode;
  }
}
