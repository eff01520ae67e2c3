/** tools/mksparse.py: writes a plain disk image as a sparse image, and checks coverage of a written one. */
module MkSparse {
  import opened Bytes
  import opened Struct
  import opened SparseFormat
  import opened SparseLayout
  import opened ImageHandling

  const BLK_SZ := 4096

  /** The image padded with NUL bytes to whole blocks. */
  function Padded(raw: bytes): (p: bytes)
    ensures |p| == RoundToMultiple(|raw|, BLK_SZ)
  {
    Resize(raw, RoundToMultiple(|raw|, BLK_SZ))
  }

  function NumBlocks(p: bytes): nat {
    |p| / BLK_SZ
  }

  predicate IsZero(p: bytes, i: nat)
    requires i < NumBlocks(p)
  {
    p[i * BLK_SZ..(i + 1) * BLK_SZ] == Zeros(BLK_SZ)
  }

  // ------------------------------------------------------------- runs

  /** The end of the run of blocks from i that are all zero, or all not. */
  function RunEnd(p: bytes, i: nat, j: nat): (e: nat)
    requires i < j <= NumBlocks(p)
    ensures j <= e <= NumBlocks(p)
    ensures forall k :: j <= k < e ==> IsZero(p, k) == IsZero(p, i)
    ensures e < NumBlocks(p) ==> IsZero(p, e) != IsZero(p, i)
    decreases NumBlocks(p) - j
  {
    if j < NumBlocks(p) && IsZero(p, j) == IsZero(p, i) then RunEnd(p, i, j + 1) else j
  }

  function RunChunk(p: bytes, i: nat, j: nat): Chunk
    requires i < j <= NumBlocks(p)
  {
    if IsZero(p, i) then Chunk(DontCare, 0, j - i, []) else Chunk(Raw, 0, j - i, p[i * BLK_SZ..j * BLK_SZ])
  }

  /** One chunk for each maximal run of blocks from block i on. */
  function ChunksFrom(p: bytes, i: nat): seq<Chunk>
    requires i <= NumBlocks(p)
    decreases NumBlocks(p) - i
  {
    if i == NumBlocks(p) then []
    else
      var j := RunEnd(p, i, i + 1);
      [RunChunk(p, i, j)] + ChunksFrom(p, j)
  }

  function ChunksOf(raw: bytes): seq<Chunk> {
    ChunksFrom(Padded(raw), 0)
  }

  /** The sparse image the converter means to write. */
  function Converted(raw: bytes): Sparse {
    Sparse(BLK_SZ, 0, ChunksOf(raw))
  }

  /** Every 32-bit field of the output is in range. */
  predicate FieldsFit(raw: bytes) {
    && NumBlocks(Padded(raw)) < U32
    && forall i :: 0 <= i < |ChunksOf(raw)| ==> CHUNK_HDR_SZ + |ChunksOf(raw)[i].payload| < U32
  }

  // ------------------------------------------------------------- what the chunks are

  /** Which blocks a chunk list leaves out: true for DONT_CARE. */
  function Labels(cs: seq<Chunk>): seq<bool> {
    if cs == [] then [] else seq(cs[0].blocks, _ => cs[0].kind.DontCare?) + Labels(cs[1..])
  }

  function ZeroLabels(p: bytes, i: nat): seq<bool>
    requires i <= NumBlocks(p)
    decreases NumBlocks(p) - i
  {
    if i == NumBlocks(p) then [] else [IsZero(p, i)] + ZeroLabels(p, i + 1)
  }

  lemma {:induction false} ZeroLabelsAt(p: bytes, i: nat)
    requires i <= NumBlocks(p)
    ensures |ZeroLabels(p, i)| == NumBlocks(p) - i
    ensures forall k :: i <= k < NumBlocks(p) ==> ZeroLabels(p, i)[k - i] == IsZero(p, k)
    decreases NumBlocks(p) - i
  {
    hide IsZero, NumBlocks;
    if i < NumBlocks(p) {
      ZeroLabelsAt(p, i + 1);
      forall k | i <= k < NumBlocks(p)
        ensures ZeroLabels(p, i)[k - i] == IsZero(p, k)
      {
        var rest := ZeroLabels(p, i + 1);
        assert ([IsZero(p, i)] + rest)[k - i] == if k == i then IsZero(p, i) else rest[k - (i + 1)];
      }
    }
  }

  lemma {:induction false} ZeroLabelsSplit(p: bytes, i: nat, j: nat, z: bool)
    requires i <= j <= NumBlocks(p) && forall k :: i <= k < j ==> IsZero(p, k) == z
    ensures ZeroLabels(p, i) == seq(j - i, _ => z) + ZeroLabels(p, j)
    decreases j - i
  {
    if i < j {
      ZeroLabelsSplit(p, i + 1, j, z);
      assert seq(j - i, _ => z) == [z] + seq(j - (i + 1), _ => z);
      Assoc([z], seq(j - (i + 1), _ => z), ZeroLabels(p, j));
    } else {
      assert seq(j - i, _ => z) == [];
    }
  }

  /** A block is DONT_CARE exactly when it is all zero. */
  lemma {:induction false} LabelsMatch(p: bytes, i: nat)
    requires i <= NumBlocks(p)
    ensures Labels(ChunksFrom(p, i)) == ZeroLabels(p, i)
    decreases NumBlocks(p) - i
  {
    if i < NumBlocks(p) {
      var j := RunEnd(p, i, i + 1);
      LabelsMatch(p, j);
      ZeroLabelsSplit(p, i, j, IsZero(p, i));
      var c, rest := RunChunk(p, i, j), ChunksFrom(p, j);
      assert ([c] + rest)[1..] == rest;
      assert seq(c.blocks, _ => c.kind.DontCare?) == seq(j - i, _ => IsZero(p, i));
    }
  }

  /** Chunks are non-empty and neighbours differ in type. */
  predicate Alternating(cs: seq<Chunk>) {
    && (forall i :: 0 <= i < |cs| ==> cs[i].blocks > 0 && (cs[i].kind.Raw? || cs[i].kind.DontCare?))
    && (forall i :: 0 < i < |cs| ==> cs[i - 1].kind != cs[i].kind)
  }

  lemma {:induction false} ChunksAlternate(p: bytes, i: nat)
    requires i <= NumBlocks(p)
    ensures Alternating(ChunksFrom(p, i))
    ensures i < NumBlocks(p) ==> ChunksFrom(p, i) != [] && ChunksFrom(p, i)[0].kind.DontCare? == IsZero(p, i)
    decreases NumBlocks(p) - i
  {
    if i < NumBlocks(p) {
      var j := RunEnd(p, i, i + 1);
      ChunksAlternate(p, j);
      var c, rest := RunChunk(p, i, j), ChunksFrom(p, j);
      assert forall k :: 0 < k < |[c] + rest| ==> ([c] + rest)[k] == rest[k - 1];
    }
  }

  lemma RunPlain(p: bytes, i: nat, j: nat)
    requires i < j <= NumBlocks(p) && |p| % BLK_SZ == 0
    requires forall k :: i <= k < j ==> IsZero(p, k) == IsZero(p, i)
    ensures var c := RunChunk(p, i, j);
            Complete(c, BLK_SZ) && !c.kind.Crc32? && ChunkBytes(c, BLK_SZ) == p[i * BLK_SZ..j * BLK_SZ]
  {
    if IsZero(p, i) {
      ZeroRun(p, i, j);
    }
  }

  lemma {:induction false} ZeroRun(p: bytes, i: nat, j: nat)
    requires i <= j <= NumBlocks(p) && forall k :: i <= k < j ==> IsZero(p, k)
    ensures p[i * BLK_SZ..j * BLK_SZ] == Zeros((j - i) * BLK_SZ)
    decreases j - i
  {
    if i < j {
      ZeroRun(p, i, j - 1);
      assert IsZero(p, j - 1);
      assert p[i * BLK_SZ..j * BLK_SZ] == p[i * BLK_SZ..(j - 1) * BLK_SZ] + p[(j - 1) * BLK_SZ..j * BLK_SZ];
    }
  }

  /** Reading the chunks back gives the padded image. */
  lemma {:induction false} ChunksExpand(p: bytes, i: nat)
    requires i <= NumBlocks(p) && |p| % BLK_SZ == 0
    requires forall k :: 0 <= k < |ChunksFrom(p, i)| ==> WFChunk(ChunksFrom(p, i)[k], BLK_SZ)
    ensures Plain(ChunksFrom(p, i), BLK_SZ)
    ensures Expand(ChunksFrom(p, i), BLK_SZ) == p[i * BLK_SZ..]
    ensures TotalBlocks(ChunksFrom(p, i)) == NumBlocks(p) - i
    ensures |ChunksFrom(p, i)| <= NumBlocks(p) - i
    decreases NumBlocks(p) - i
  {
    hide WFChunk, RunChunk, Complete, ChunkBytes, ChunksFrom, IsZero;
    NoChunks(p);
    if i < NumBlocks(p) {
      var j := RunEnd(p, i, i + 1);
      var c, rest := RunChunk(p, i, j), ChunksFrom(p, j);
      var cs := [c] + rest;
      ChunksStep(p, i);
      assert ChunksFrom(p, i) == cs && cs[0] == c && cs[1..] == rest;
      forall k | 0 <= k < |rest| ensures WFChunk(rest[k], BLK_SZ) { assert rest[k] == ChunksFrom(p, i)[k + 1]; }
      ChunksExpand(p, j);
      RunPlain(p, i, j);
      RunBlocks(p, i, j);
      assert p[i * BLK_SZ..] == p[i * BLK_SZ..j * BLK_SZ] + p[j * BLK_SZ..];
    }
  }

  lemma RunBlocks(p: bytes, i: nat, j: nat)
    requires i < j <= NumBlocks(p)
    ensures RunChunk(p, i, j).blocks == j - i && RunChunk(p, i, j).reserved == 0
  {
  }

  lemma {:induction false} ChunksWF(p: bytes, i: nat)
    requires i <= NumBlocks(p) < U32 && |p| % BLK_SZ == 0
    requires forall k :: 0 <= k < |ChunksFrom(p, i)| ==> CHUNK_HDR_SZ + |ChunksFrom(p, i)[k].payload| < U32
    ensures forall k :: 0 <= k < |ChunksFrom(p, i)| ==> WFChunk(ChunksFrom(p, i)[k], BLK_SZ)
    decreases NumBlocks(p) - i
  {
    hide ChunksFrom, RunChunk, IsZero, Complete, WFChunk;
    NoChunks(p);
    if i < NumBlocks(p) {
      var j := RunEnd(p, i, i + 1);
      var c, rest := RunChunk(p, i, j), ChunksFrom(p, j);
      var cs := [c] + rest;
      ChunksStep(p, i);
      assert ChunksFrom(p, i) == cs && cs[0] == c;
      forall k | 0 <= k < |rest| ensures CHUNK_HDR_SZ + |rest[k].payload| < U32 {
        assert rest[k] == ChunksFrom(p, i)[k + 1];
      }
      ChunksWF(p, j);
      RunPlain(p, i, j);
      RunBlocks(p, i, j);
      WrittenChunk(c);
    }
  }

  lemma OutputDecodes(raw: bytes)
    requires FieldsFit(raw)
    ensures PlainImage(Converted(raw))
    ensures Decode(Encode(Converted(raw))) == Ok(Some(Converted(raw)))
    ensures Expand(ChunksOf(raw), BLK_SZ) == Padded(raw)
    ensures TotalBlocks(ChunksOf(raw)) == NumBlocks(Padded(raw))
  {
    hide ChunksFrom, Expand, Decode, Encode, WFChunk;
    var p := Padded(raw);
    assert forall k :: 0 <= k < |ChunksFrom(p, 0)| ==> ChunksFrom(p, 0)[k] == ChunksOf(raw)[k];
    ChunksWF(p, 0);
    ChunksExpand(p, 0);
    assert p[0..] == p;
    DecodeIff(Encode(Converted(raw)), Converted(raw));
  }

  /** Reader and writer undo each other: what is written decodes, and expands to the image in blocks of 4 KiB. */
  lemma ConvertedReadsBack(raw: bytes)
    requires FieldsFit(raw)
    ensures PlainImage(Converted(raw))
    ensures Decode(Encode(Converted(raw))) == Ok(Some(Converted(raw)))
    ensures var n := RoundToMultiple(|raw|, 4096);
            && Expand(ChunksOf(raw), 4096) == Padded(raw) == raw + Zeros(n - |raw|)
            && Converted(raw).blockSize == 4096 && 4096 * TotalBlocks(ChunksOf(raw)) == n
  {
    hide ChunksOf, Expand, Decode, Encode, PlainImage, TotalBlocks;
    OutputDecodes(raw);
  }

  // ------------------------------------------------------------- no shorter chunk list

  /** Number of maximal constant runs. */
  function RunCount(l: seq<bool>): nat {
    if l == [] then 0
    else if |l| == 1 then 1
    else RunCount(l[1..]) + (if l[0] != l[1] then 1 else 0)
  }

  lemma {:induction false} RunCountConstant(n: nat, b: bool, rest: seq<bool>)
    requires n > 0
    ensures RunCount(seq(n, _ => b) + rest) == RunCount(rest) + (if rest != [] && rest[0] == b then 0 else 1)
  {
    var l := seq(n, _ => b) + rest;
    if n == 1 {
      assert l[1..] == rest;
    } else {
      RunCountConstant(n - 1, b, rest);
      assert l[1..] == seq(n - 1, _ => b) + rest;
    }
  }

  lemma {:induction false} RunCountAtMost(cs: seq<Chunk>)
    ensures RunCount(Labels(cs)) <= |cs|
  {
    if cs != [] {
      RunCountAtMost(cs[1..]);
      var b := cs[0].kind.DontCare?;
      if cs[0].blocks > 0 {
        RunCountConstant(cs[0].blocks, b, Labels(cs[1..]));
      } else {
        assert seq(cs[0].blocks, _ => b) + Labels(cs[1..]) == Labels(cs[1..]);
      }
      assert seq(cs[0].blocks, _ => b) == seq(cs[0].blocks, _ => cs[0].kind.DontCare?);
    }
  }

  lemma {:induction false} RunCountAlternating(cs: seq<Chunk>)
    requires Alternating(cs)
    ensures RunCount(Labels(cs)) == |cs|
    ensures cs != [] ==> Labels(cs) != [] && Labels(cs)[0] == cs[0].kind.DontCare?
  {
    if cs != [] {
      var rest, b := cs[1..], cs[0].kind.DontCare?;
      assert forall i :: 0 <= i < |rest| ==> rest[i] == cs[i + 1];
      RunCountAlternating(rest);
      RunCountConstant(cs[0].blocks, b, Labels(rest));
      assert seq(cs[0].blocks, _ => b) == seq(cs[0].blocks, _ => cs[0].kind.DontCare?);
      if rest != [] { assert cs[0].kind != cs[1].kind; }
    }
  }

  /** No chunk list that leaves out the same blocks is shorter. */
  lemma ChunksMinimal(raw: bytes, other: seq<Chunk>)
    requires Labels(other) == ZeroLabels(Padded(raw), 0)
    ensures |ChunksOf(raw)| <= |other|
  {
    LabelsMatch(Padded(raw), 0);
    ChunksAlternate(Padded(raw), 0);
    RunCountAlternating(ChunksOf(raw));
    RunCountAtMost(other);
  }

  // ------------------------------------------------------------- convert

  lemma ChunksStep(p: bytes, i: nat)
    requires i < NumBlocks(p)
    ensures var j := RunEnd(p, i, i + 1); ChunksFrom(p, i) == [RunChunk(p, i, j)] + ChunksFrom(p, j)
  {
  }

  lemma RunChunkIs(p: bytes, i: nat, j: nat)
    requires i < j <= NumBlocks(p)
    ensures (i + 1) * BLK_SZ <= j * BLK_SZ <= |p|
    ensures RunChunk(p, i, j)
         == if IsZero(p, i) then Chunk(DontCare, 0, j - i, []) else Chunk(Raw, 0, j - i, p[i * BLK_SZ..j * BLK_SZ])
  {
    hide IsZero;
  }

  lemma NoChunks(p: bytes)
    ensures ChunksFrom(p, NumBlocks(p)) == []
  {
  }

  /** The two nested loops that collect the runs. */
  method CollectRuns(raw: bytes) returns (chunks: seq<Chunk>)
    requires |raw| % BLK_SZ == 0
    ensures chunks == ChunksFrom(raw, 0)
  {
    hide IsZero, ChunksFrom, RunChunk;
    var totalBlks := |raw| / BLK_SZ;
    chunks := [];
    var i := 0;
    NoChunks(raw);
    while i < totalBlks
      invariant i <= totalBlks
      invariant chunks + ChunksFrom(raw, i) == ChunksFrom(raw, 0)
    {
      var zero := IsZero(raw, i);
      var j := i + 1;
      while j < totalBlks && IsZero(raw, j) == zero
        invariant i < j <= totalBlks && i + 1 <= NumBlocks(raw)
        invariant RunEnd(raw, i, j) == RunEnd(raw, i, i + 1)
      {
        j := j + 1;
      }
      RunChunkIs(raw, i, j);
      var c := if zero then Chunk(DontCare, 0, j - i, []) else Chunk(Raw, 0, j - i, raw[i * BLK_SZ..j * BLK_SZ]);
      ChunksStep(raw, i);
      Assoc(chunks, [c], ChunksFrom(raw, j));
      chunks := chunks + [c];
      i := j;
    }
    assert chunks + [] == chunks;
  }

  /** The output file, or struct.error when a field does not fit 32 bits. */
  method Convert(rawIn: bytes) returns (r: Result<bytes>)
    ensures r.Ok? <==> FieldsFit(rawIn)
    ensures r.Ok? ==>
              && PlainImage(Converted(rawIn))
              && r.value == Encode(Converted(rawIn))
              && Decode(r.value) == Ok(Some(Converted(rawIn)))
              && Expand(ChunksOf(rawIn), BLK_SZ) == Padded(rawIn)
    ensures r.Err? ==> r.error == StructError
  {
    hide ChunksFrom, Expand, Decode, WFChunk, RunEnd, RunChunk, EncodeHeader, EncodeChunkHeader, EncodeChunk,
      PlainImage;
    var raw := rawIn;
    if |raw| % BLK_SZ != 0 {
      raw := raw + Zeros(BLK_SZ - |raw| % BLK_SZ);
    }
    assert raw == Padded(rawIn);
    var totalBlks := |raw| / BLK_SZ;
    var chunks := CollectRuns(raw);
    if totalBlks >= U32 {
      return Err(StructError);
    }
    ChunkCount(raw, 0);
    var out := EncodeHeader(BLK_SZ, totalBlks, |chunks|, 0);
    for i := 0 to |chunks|
      invariant forall k :: 0 <= k < i ==> CHUNK_HDR_SZ + |chunks[k].payload| < U32
      invariant forall k :: 0 <= k < i ==> WFChunk(chunks[k], BLK_SZ)
      invariant out == EncodeHeader(BLK_SZ, totalBlks, |chunks|, 0) + EncodeChunks(chunks[..i], BLK_SZ)
    {
      var c := chunks[i];
      ChunkOfRun(raw, 0, i);
      if CHUNK_HDR_SZ + |c.payload| >= U32 {
        assert c == ChunksOf(rawIn)[i];
        return Err(StructError);
      }
      WrittenChunk(c);
      EncodeStep(chunks, i);
      Assoc(out, EncodeChunkHeader(c.kind, 0, c.blocks, CHUNK_HDR_SZ + |c.payload|), c.payload);
      Assoc(EncodeHeader(BLK_SZ, totalBlks, |chunks|, 0), EncodeChunks(chunks[..i], BLK_SZ), EncodeChunk(c, BLK_SZ));
      out := out + EncodeChunkHeader(c.kind, 0, c.blocks, CHUNK_HDR_SZ + |c.payload|);
      out := out + c.payload;
    }
    assert chunks[..|chunks|] == chunks;
    OutputDecodes(rawIn);
    return Ok(out);
  }

  /** Writer and reader undo each other: reading the written file whole gives the raw image, padded to whole blocks. */
  method ConvertAndRead(rawIn: bytes) returns (r: Result<bytes>)
    ensures r == if FieldsFit(rawIn) then Ok(Padded(rawIn)) else Err(StructError)
  {
    hide Padded, FieldsFit, ChunksOf, Decode, Encode, Expand, PlainImage, ImageHandler.Valid,
      ImageHandler.Contents, ImageHandler.Anchored;
    var written := Convert(rawIn);
    if written.Err? {
      return written;
    }
    var image := Open(written.value, Padded(rawIn));
    image.BlockSizePositive();
    image.ChunksNonEmpty();
    assert Padded(rawIn)[0..|Padded(rawIn)|] == Padded(rawIn);
    r := image.Read(image.imageSize);
  }

  lemma WrittenChunk(c: Chunk)
    requires Complete(c, BLK_SZ) && c.blocks < U32 && c.reserved == 0 && CHUNK_HDR_SZ + |c.payload| < U32
    ensures WFChunk(c, BLK_SZ)
    ensures EncodeChunk(c, BLK_SZ) == EncodeChunkHeader(c.kind, 0, c.blocks, CHUNK_HDR_SZ + |c.payload|) + c.payload
  {
  }

  lemma {:induction false} ChunkCount(p: bytes, i: nat)
    requires i <= NumBlocks(p)
    ensures |ChunksFrom(p, i)| <= NumBlocks(p) - i
    decreases NumBlocks(p) - i
  {
    if i < NumBlocks(p) {
      ChunkCount(p, RunEnd(p, i, i + 1));
    }
  }

  /** Every chunk collected is a whole run. */
  lemma {:induction false} ChunkOfRun(p: bytes, i: nat, k: nat)
    requires i <= NumBlocks(p) && |p| % BLK_SZ == 0 && k < |ChunksFrom(p, i)|
    ensures var c := ChunksFrom(p, i)[k]; Complete(c, BLK_SZ) && c.reserved == 0 && c.blocks <= NumBlocks(p)
    decreases NumBlocks(p) - i
  {
    var j := RunEnd(p, i, i + 1);
    RunPlain(p, i, j);
    if k > 0 {
      ChunkOfRun(p, j, k - 1);
    }
  }

  lemma EncodeStep(cs: seq<Chunk>, i: nat)
    requires i < |cs| && forall k :: 0 <= k <= i ==> WFChunk(cs[k], BLK_SZ)
    ensures EncodeChunks(cs[..i + 1], BLK_SZ) == EncodeChunks(cs[..i], BLK_SZ) + EncodeChunk(cs[i], BLK_SZ)
  {
    hide WFChunk, EncodeChunk;
    assert cs[..i + 1] == cs[..i] + [cs[i]];
    EncodeConcat(cs[..i], [cs[i]], BLK_SZ);
    EncodeOne(cs[i], BLK_SZ);
  }

  // ------------------------------------------------------------- verify

  /** The blocks covered by n chunk headers from pos on; payloads are skipped unread. */
  function Walk(f: bytes, pos: nat, n: nat): Result<nat>
    decreases n
  {
    if n == 0 then Ok(0)
    else
      var hr := DecodeChunkHeader(Slice(f, pos, pos + CHUNK_HDR_SZ));
      if hr.Err? then Err(AssertionError)
      else
        var h := hr.value;
        var kind := KindOf(h.code);
        if kind.None? then Err(ValueError)
        else if kind.value.Raw? && h.total - CHUNK_HDR_SZ != h.blocks * BLK_SZ then Err(AssertionError)
        else if kind.value.DontCare? && h.total != CHUNK_HDR_SZ then Err(AssertionError)
        else
          var covered :- Walk(f, pos + h.total, n - 1);
          Ok(h.blocks + covered)
  }

  predicate HeaderAccepted(h: Header) {
    h == Header(MAGIC, 1, 0, FILE_HDR_SZ, CHUNK_HDR_SZ, BLK_SZ, h.blocks, h.chunks, 0)
  }

  /** What verify checks. */
  predicate Accepts(f: bytes, rawSize: nat) {
    var hr := DecodeHeader(Slice(f, 0, FILE_HDR_SZ));
    && hr.Ok? && HeaderAccepted(hr.value)
    && Walk(f, FILE_HDR_SZ, hr.value.chunks) == Ok(hr.value.blocks)
    && hr.value.blocks * BLK_SZ == RoundToMultiple(rawSize, BLK_SZ)
  }

  method Verify(simg: bytes, rawSize: nat) returns (r: Result<()>)
    ensures r.Ok? <==> Accepts(simg, rawSize)
  {
    hide DecodeHeader, DecodeChunkHeader;
    var hr := DecodeHeader(Slice(simg, 0, FILE_HDR_SZ));
    if hr.Err? {
      return Err(ValueError);
    }
    var h := hr.value;
    if h.magic != MAGIC || h.major != 1 || h.minor != 0 || h.fileHdrSz != FILE_HDR_SZ
       || h.chunkHdrSz != CHUNK_HDR_SZ || h.blockSize != BLK_SZ || h.checksum != 0 {
      return Err(AssertionError);
    }
    var covered: nat, seen: nat, pos: nat := 0, 0, FILE_HDR_SZ;
    ghost var all := Walk(simg, FILE_HDR_SZ, h.chunks);
    for c := 0 to h.chunks
      invariant seen == c
      invariant Plus(covered, Walk(simg, pos, h.chunks - c)) == all
    {
      var cr := DecodeChunkHeader(Slice(simg, pos, pos + CHUNK_HDR_SZ));
      if cr.Err? {
        return Err(AssertionError);
      }
      var ch := cr.value;
      var dataLen := ch.total - CHUNK_HDR_SZ;
      if ch.code == TypeCode(Raw) {
        if dataLen != ch.blocks * BLK_SZ {
          return Err(AssertionError);
        }
      } else if ch.code == TypeCode(DontCare) {
        if dataLen != 0 {
          return Err(AssertionError);
        }
      } else if ch.code != TypeCode(Fill) && ch.code != TypeCode(Crc32) {
        return Err(ValueError);
      }
      pos := pos + CHUNK_HDR_SZ + dataLen;
      covered := covered + ch.blocks;
      seen := seen + 1;
    }
    if seen != h.chunks || covered != h.blocks {
      return Err(AssertionError);
    }
    var expanded := h.blocks * BLK_SZ;
    var rawRounded := ((rawSize + BLK_SZ - 1) / BLK_SZ) * BLK_SZ;
    RoundedUp(rawSize, BLK_SZ);
    if expanded != rawRounded {
      return Err(AssertionError);
    }
    return Ok(());
  }

  ghost function Plus(a: nat, r: Result<nat>): Result<nat> {
    if r.Ok? then Ok(a + r.value) else r
  }

  /** Both ways the program rounds up agree. */
  lemma RoundedUp(n: nat, d: nat)
    requires d > 0
    ensures ((n + d - 1) / d) * d == RoundToMultiple(n, d)
  {
    var r := RoundToMultiple(n, d);
    var q := MultipleAsProduct(r, d);
    DivUnique(n + d - 1, d, q, n + d - 1 - r);
  }

  /** Walking headers counts the blocks of any chunk list the reader decodes there. */
  lemma {:induction false} WalkDecodes(f: bytes, pos: nat, n: nat)
    requires DecodeChunks(Slice(f, pos, |f|), n, BLK_SZ).Ok?
    ensures Walk(f, pos, n) == Ok(TotalBlocks(DecodeChunks(Slice(f, pos, |f|), n, BLK_SZ).value.0))
    decreases n
  {
    hide DecodeChunkHeader, DecodeChunk, Slice;
    if n > 0 {
      ImageHandling.ChunkCases(f, pos, BLK_SZ);
      var h := DecodeChunkHeader(Slice(f, pos, pos + CHUNK_HDR_SZ)).value;
      WalkDecodes(f, pos + h.total, n - 1);
      var (c, rest) := DecodeChunk(Slice(f, pos, |f|), BLK_SZ).value;
      var (cs, end) := DecodeChunks(rest, n - 1, BLK_SZ).value;
      assert ([c] + cs)[1..] == cs;
    }
  }

  /** Of the files the image reader accepts, verify accepts those in 4 KiB blocks that cover the image, no checksum. */
  lemma ReaderImpliesVerify(f: bytes, sp: Sparse, rawSize: nat)
    requires Decode(f) == Ok(Some(sp))
    ensures Accepts(f, rawSize)
            <==> sp.blockSize == 4096 && sp.checksum == 0
                 && TotalBlocks(sp.chunks) * 4096 == RoundToMultiple(rawSize, 4096)
  {
    hide DecodeHeader, Walk;
    var h := DecodeHeader(Slice(f, 0, FILE_HDR_SZ)).value;
    if sp.blockSize == BLK_SZ {
      WalkDecodes(f, FILE_HDR_SZ, h.chunks);
    }
  }

  /** verify accepts what convert wrote. */
  lemma VerifyAcceptsConverted(raw: bytes)
    requires FieldsFit(raw)
    ensures WF(Converted(raw)) && Accepts(Encode(Converted(raw)), |raw|)
  {
    hide Decode, Encode, Accepts, ChunksFrom, Expand;
    OutputDecodes(raw);
    var n := MultipleAsProduct(RoundToMultiple(|raw|, BLK_SZ), BLK_SZ);
    ReaderImpliesVerify(Encode(Converted(raw)), Converted(raw), |raw|);
  }

  /** Of the n chunk headers from pos on, those of FILL and CRC32 chunks announce four bytes of payload. */
  predicate FourBytePayloads(f: bytes, pos: nat, n: nat)
    decreases n
  {
    n > 0 ==>
      var h := DecodeChunkHeader(Slice(f, pos, pos + CHUNK_HDR_SZ));
      h.Ok? ==>
        && (h.value.code == TypeCode(Fill) || h.value.code == TypeCode(Crc32) ==> h.value.total == CHUNK_HDR_SZ + 4)
        && FourBytePayloads(f, pos + h.value.total, n - 1)
  }

  /** Where the n-th chunk from pos on is announced to end. */
  function WalkEnd(f: bytes, pos: nat, n: nat): nat
    decreases n
  {
    if n == 0 then pos
    else
      var h := DecodeChunkHeader(Slice(f, pos, pos + CHUNK_HDR_SZ));
      if h.Err? then pos else WalkEnd(f, pos + h.value.total, n - 1)
  }

  /** What is left of the file behind n chunks that walk and decode. */
  lemma {:induction false} WalkedDecodes(f: bytes, pos: nat, n: nat)
    requires Walk(f, pos, n).Ok? && pos <= |f|
    ensures DecodeChunks(Slice(f, pos, |f|), n, BLK_SZ).Ok? <==> FourBytePayloads(f, pos, n)
    ensures FourBytePayloads(f, pos, n) ==>
              DecodeChunks(Slice(f, pos, |f|), n, BLK_SZ).value.1 == Slice(f, WalkEnd(f, pos, n), |f|)
    decreases n
  {
    hide DecodeChunkHeader, DecodeChunk, Slice;
    if n > 0 {
      ImageHandling.ChunkCases(f, pos, BLK_SZ);
      var h := DecodeChunkHeader(Slice(f, pos, pos + CHUNK_HDR_SZ)).value;
      if pos + h.total <= |f| {
        WalkedDecodes(f, pos + h.total, n - 1);
      } else {
        WalkedBeyond(f, pos + h.total, n - 1);
      }
    }
  }

  lemma WalkedBeyond(f: bytes, pos: nat, n: nat)
    requires Walk(f, pos, n).Ok? && pos > |f|
    ensures n == 0
  {
    hide DecodeChunkHeader, DecodeChunk;
    if n > 0 {
      ImageHandling.ChunkCases(f, pos, BLK_SZ);
    }
  }

  /** The files verify accepts and the image reader refuses: those with another FILL or CRC32 total, or longer ones. */
  lemma ReadableIff(f: bytes, rawSize: nat)
    requires Accepts(f, rawSize)
    ensures var n := DecodeHeader(Slice(f, 0, FILE_HDR_SZ)).value.chunks;
            Decode(f).Ok? <==> FourBytePayloads(f, FILE_HDR_SZ, n) && WalkEnd(f, FILE_HDR_SZ, n) >= |f|
  {
    hide DecodeHeader, Walk, FourBytePayloads, WalkEnd, DecodeChunks, Decode, Slice;
    var h, body := DecodeHeader(Slice(f, 0, FILE_HDR_SZ)).value, Slice(f, FILE_HDR_SZ, |f|);
    AcceptedHeader(f, rawSize);
    WalkedDecodes(f, FILE_HDR_SZ, h.chunks);
    SliceIsEmpty(f, WalkEnd(f, FILE_HDR_SZ, h.chunks));
    if DecodeChunks(body, h.chunks, BLK_SZ).Ok? {
      WalkDecodes(f, FILE_HDR_SZ, h.chunks);
    }
  }

  lemma AcceptedHeader(f: bytes, rawSize: nat)
    requires Accepts(f, rawSize)
    ensures |f| >= FILE_HDR_SZ
    ensures var h, body := DecodeHeader(Slice(f, 0, FILE_HDR_SZ)).value, Slice(f, FILE_HDR_SZ, |f|);
            Decode(f).Ok? <==>
              && DecodeChunks(body, h.chunks, BLK_SZ).Ok?
              && var (cs, junk) := DecodeChunks(body, h.chunks, BLK_SZ).value;
                 h.blocks == TotalBlocks(cs) && junk == []
  {
    hide DecodeHeader, Walk, DecodeChunks;
    DecodeHeaderSound(Slice(f, 0, FILE_HDR_SZ));
  }

  lemma SliceIsEmpty(f: bytes, lo: nat)
    ensures Slice(f, lo, |f|) == [] <==> lo >= |f|
  {
  }

  /** So verify never looks behind the last chunk, where the reader rejects any byte. */
  lemma VerifyIgnoresTrailingJunk(raw: bytes, junk: bytes)
    requires FieldsFit(raw) && junk != []
    ensures WF(Converted(raw))
    ensures Accepts(Encode(Converted(raw)) + junk, |raw|)
    ensures Decode(Encode(Converted(raw)) + junk) == Err(ValueError)
  {
    hide EncodeHeader, DecodeHeader, ChunksFrom, Expand, WFChunk, Walk;
    OutputDecodes(raw);
    var sp := Converted(raw);
    var h := EncodeHeader(BLK_SZ, TotalBlocks(sp.chunks), |sp.chunks|, 0);
    var body := EncodeChunks(sp.chunks, BLK_SZ);
    var f := Encode(sp) + junk;
    Assoc(h, body, junk);
    SplitAt(h, body + junk);
    DecodeHeaderEncode(BLK_SZ, TotalBlocks(sp.chunks), |sp.chunks|, 0);
    assert Slice(f, 0, FILE_HDR_SZ) == h && Slice(f, FILE_HDR_SZ, |f|) == body + junk;
    DecodeChunksEncode(sp.chunks, junk, BLK_SZ);
    WalkDecodes(f, FILE_HDR_SZ, |sp.chunks|);
    var n := MultipleAsProduct(RoundToMultiple(|raw|, BLK_SZ), BLK_SZ);
  }
}
