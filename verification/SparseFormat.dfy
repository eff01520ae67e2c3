/** The Android sparse image format: what a file means, and that reading and writing it are inverse. */
module SparseFormat {
  import opened Bytes
  import opened Struct

  const MAGIC := 0xed26ff3a
  const FILE_HDR_SZ := 28
  const CHUNK_HDR_SZ := 12
  const U16 := 0x1_0000

  const HEADER_FORMAT: Format := U(4, U(2, U(2, U(2, U(2, U(4, U(4, U(4, U(4, End)))))))))
  const CHUNK_FORMAT: Format := U(2, U(2, U(4, U(4, End))))
  const NUM_CHUNKS_AND_BLOCKS_FORMAT: Format := U(4, U(4, End))
  const NUM_CHUNKS_AND_BLOCKS_OFFSET := 16

  datatype Kind = Raw | Fill | DontCare | Crc32

  /**
    One chunk as stored. The program never checks that the payload of the last chunk is all there,
    so a payload may be shorter than its header says.
   */
  datatype Chunk = Chunk(kind: Kind, reserved: nat, blocks: nat, payload: bytes)

  datatype Sparse = Sparse(blockSize: nat, checksum: nat, chunks: seq<Chunk>)

  function TypeCode(k: Kind): nat {
    match k
    case Raw => 0xcac1
    case Fill => 0xcac2
    case DontCare => 0xcac3
    case Crc32 => 0xcac4
  }

  function KindOf(code: nat): Option<Kind> {
    if code == 0xcac1 then Some(Raw)
    else if code == 0xcac2 then Some(Fill)
    else if code == 0xcac3 then Some(DontCare)
    else if code == 0xcac4 then Some(Crc32)
    else None
  }

  /** Bytes that follow the header of a chunk covering the given number of blocks. */
  function PayloadSize(k: Kind, blocks: nat, bs: nat): nat {
    match k
    case Raw => blocks * bs
    case Fill => 4
    case DontCare => 0
    case Crc32 => 4
  }

  function ChunkPayloadSize(c: Chunk, bs: nat): nat {
    PayloadSize(c.kind, c.blocks, bs)
  }

  predicate Complete(c: Chunk, bs: nat) {
    |c.payload| == ChunkPayloadSize(c, bs)
  }

  predicate WFChunk(c: Chunk, bs: nat) {
    && c.reserved < U16
    && c.blocks < U32
    && CHUNK_HDR_SZ + ChunkPayloadSize(c, bs) < U32
    && |c.payload| <= ChunkPayloadSize(c, bs)
  }

  predicate WFChunks(cs: seq<Chunk>, bs: nat) {
    && (forall i :: 0 <= i < |cs| ==> WFChunk(cs[i], bs))
    && (forall i :: 0 <= i < |cs| - 1 ==> Complete(cs[i], bs))
  }

  function TotalBlocks(cs: seq<Chunk>): nat {
    if cs == [] then 0 else cs[0].blocks + TotalBlocks(cs[1..])
  }

  predicate WF(sp: Sparse) {
    && sp.blockSize < U32
    && sp.checksum < U32
    && |sp.chunks| < U32
    && TotalBlocks(sp.chunks) < U32
    && WFChunks(sp.chunks, sp.blockSize)
  }

  // ------------------------------------------------------------- encoding

  function HeaderValues(bs: nat, blocks: nat, chunks: nat, checksum: nat): Values {
    Int(MAGIC, Int(1, Int(0, Int(FILE_HDR_SZ, Int(CHUNK_HDR_SZ,
      Int(bs, Int(blocks, Int(chunks, Int(checksum, Done)))))))))
  }

  function ChunkValues(k: Kind, reserved: nat, blocks: nat, total: nat): Values {
    Int(TypeCode(k), Int(reserved, Int(blocks, Int(total, Done))))
  }

  function EncodeHeader(bs: nat, blocks: nat, chunks: nat, checksum: nat): (r: bytes)
    requires bs < U32 && blocks < U32 && chunks < U32 && checksum < U32
    ensures |r| == FILE_HDR_SZ
  {
    Pack(Little, HEADER_FORMAT, HeaderValues(bs, blocks, chunks, checksum))
  }

  function EncodeChunkHeader(k: Kind, reserved: nat, blocks: nat, total: nat): (r: bytes)
    requires reserved < U16 && blocks < U32 && total < U32
    ensures |r| == CHUNK_HDR_SZ
  {
    Pack(Little, CHUNK_FORMAT, ChunkValues(k, reserved, blocks, total))
  }

  function EncodeChunk(c: Chunk, bs: nat): (r: bytes)
    requires WFChunk(c, bs)
    ensures |r| == CHUNK_HDR_SZ + |c.payload|
  {
    EncodeChunkHeader(c.kind, c.reserved, c.blocks, CHUNK_HDR_SZ + ChunkPayloadSize(c, bs)) + c.payload
  }

  function EncodeChunks(cs: seq<Chunk>, bs: nat): bytes
    requires forall i :: 0 <= i < |cs| ==> WFChunk(cs[i], bs)
  {
    if cs == [] then [] else EncodeChunk(cs[0], bs) + EncodeChunks(cs[1..], bs)
  }

  function Encode(sp: Sparse): bytes
    requires WF(sp)
  {
    EncodeHeader(sp.blockSize, TotalBlocks(sp.chunks), |sp.chunks|, sp.checksum)
    + EncodeChunks(sp.chunks, sp.blockSize)
  }

  /** Where each field of the file header lies. */
  lemma HeaderOctets(bs: nat, blocks: nat, chunks: nat, checksum: nat)
    requires bs < U32 && blocks < U32 && chunks < U32 && checksum < U32
    ensures var s := EncodeHeader(bs, blocks, chunks, checksum);
            && s[..4] == [0x3a, 0xff, 0x26, 0xed] && s[4..6] == [1, 0] && s[6..8] == [0, 0]
            && s[8..10] == [28, 0] && s[10..12] == [12, 0] && s[12..16] == LE(bs, 4)
            && s[16..20] == LE(blocks, 4) && s[20..24] == LE(chunks, 4) && s[24..28] == LE(checksum, 4)
  {
    var s := EncodeHeader(bs, blocks, chunks, checksum);
    var f, v := HEADER_FORMAT, HeaderValues(bs, blocks, chunks, checksum);
    assert s[0..] == s == Pack(Little, f, v);
    SmallLE();
    hide Pack, LE, EncodeHeader;
    Field(s, 0, Little, f, v);
    f, v := f.after, v.more;
    Field(s, 4, Little, f, v);
    f, v := f.after, v.more;
    Field(s, 6, Little, f, v);
    f, v := f.after, v.more;
    Field(s, 8, Little, f, v);
    f, v := f.after, v.more;
    Field(s, 10, Little, f, v);
    f, v := f.after, v.more;
    Field(s, 12, Little, f, v);
    f, v := f.after, v.more;
    Field(s, 16, Little, f, v);
    f, v := f.after, v.more;
    Field(s, 20, Little, f, v);
    f, v := f.after, v.more;
    Field(s, 24, Little, f, v);
  }

  lemma SmallLE()
    ensures LE(0xed26ff3a, 4) == [0x3a, 0xff, 0x26, 0xed]
    ensures LE(1, 2) == [1, 0] && LE(0, 2) == [0, 0] && LE(28, 2) == [28, 0] && LE(12, 2) == [12, 0]
    ensures LE(0xcac1, 2) == [0xc1, 0xca] && LE(0xcac2, 2) == [0xc2, 0xca]
    ensures LE(0xcac3, 2) == [0xc3, 0xca] && LE(0xcac4, 2) == [0xc4, 0xca]
  {
    assert LE(0xed26ff, 3) == [0xff, 0x26, 0xed];
  }

  /** Where each field of a chunk header lies, and then the payload. */
  lemma ChunkOctets(c: Chunk, bs: nat)
    requires WFChunk(c, bs)
    ensures var s := EncodeChunk(c, bs);
            && |s| == 12 + |c.payload| && s[12..] == c.payload
            && s[0..2] == [match c.kind case Raw => 0xc1 case Fill => 0xc2 case DontCare => 0xc3 case Crc32 => 0xc4,
                           0xca]
            && s[2..4] == LE(c.reserved, 2) && s[4..8] == LE(c.blocks, 4)
            && s[8..12] == LE(12 + match c.kind case Raw => c.blocks * bs case DontCare => 0 case _ => 4, 4)
  {
    hide Pack, LE, EncodeChunkHeader;
    var total := CHUNK_HDR_SZ + ChunkPayloadSize(c, bs);
    ChunkHeaderOctets(c.kind, c.reserved, c.blocks, total);
    var s, h := EncodeChunk(c, bs), EncodeChunkHeader(c.kind, c.reserved, c.blocks, total);
    hide EncodeChunk;
    assert s == h + c.payload;
    assert s[0..2] == h[0..2] && s[2..4] == h[2..4] && s[4..8] == h[4..8] && s[8..12] == h[8..12];
  }

  lemma ChunkHeaderOctets(k: Kind, reserved: nat, blocks: nat, total: nat)
    requires reserved < U16 && blocks < U32 && total < U32
    ensures var h := EncodeChunkHeader(k, reserved, blocks, total);
            && h[0..2] == [match k case Raw => 0xc1 case Fill => 0xc2 case DontCare => 0xc3 case Crc32 => 0xc4, 0xca]
            && h[2..4] == LE(reserved, 2) && h[4..8] == LE(blocks, 4) && h[8..12] == LE(total, 4)
  {
    hide LE;
    SmallLE();
    var f, v := CHUNK_FORMAT, ChunkValues(k, reserved, blocks, total);
    var h := EncodeChunkHeader(k, reserved, blocks, total);
    assert h[0..] == h == Pack(Little, f, v);
    hide Pack, EncodeChunkHeader;
    Field(h, 0, Little, f, v);
    f, v := f.after, v.more;
    Field(h, 2, Little, f, v);
    f, v := f.after, v.more;
    Field(h, 4, Little, f, v);
    f, v := f.after, v.more;
    Field(h, 8, Little, f, v);
  }

  // ------------------------------------------------------------- decoding

  datatype ChunkHeader = ChunkHeader(code: nat, reserved: nat, blocks: nat, total: nat)

  function DecodeChunkHeader(h: bytes): Result<ChunkHeader> {
    var Int(code, Int(reserved, Int(blocks, Int(total, _)))) :- Unpack(Little, CHUNK_FORMAT, h);
    Ok(ChunkHeader(code, reserved, blocks, total))
  }

  /** Reads one chunk off the front of s; the second component is what follows it. */
  function DecodeChunk(s: bytes, bs: nat): Result<(Chunk, bytes)> {
    var h :- DecodeChunkHeader(Slice(s, 0, CHUNK_HDR_SZ));
    var kind, dataSz := KindOf(h.code), h.total - CHUNK_HDR_SZ;
    if kind.None? || dataSz != PayloadSize(kind.value, h.blocks, bs) then Err(ValueError)
    else
      Ok((Chunk(kind.value, h.reserved, h.blocks, Slice(s, CHUNK_HDR_SZ, CHUNK_HDR_SZ + dataSz)),
          Slice(s, CHUNK_HDR_SZ + dataSz, |s|)))
  }

  function DecodeChunks(s: bytes, n: nat, bs: nat): Result<(seq<Chunk>, bytes)>
    decreases n
  {
    if n == 0 then Ok(([], s))
    else
      var (c, rest) :- DecodeChunk(s, bs);
      var (cs, end) :- DecodeChunks(rest, n - 1, bs);
      Ok(([c] + cs, end))
  }

  datatype Header = Header(magic: nat, major: nat, minor: nat, fileHdrSz: nat, chunkHdrSz: nat, blockSize: nat,
                           blocks: nat, chunks: nat, checksum: nat)

  function DecodeHeader(h: bytes): Result<Header> {
    var Int(magic, Int(major, Int(minor, Int(fileHdrSz, Int(chunkHdrSz, Int(bs, Int(blocks, Int(chunks,
      Int(checksum, _))))))))) :- Unpack(Little, HEADER_FORMAT, h);
    Ok(Header(magic, major, minor, fileHdrSz, chunkHdrSz, bs, blocks, chunks, checksum))
  }

  /** The format checks and the chunk list of a file whose header carries the sparse magic. */
  function DecodeBody(h: Header, body: bytes): Result<Sparse> {
    if h.major != 1 || h.minor != 0 || h.fileHdrSz != FILE_HDR_SZ || h.chunkHdrSz != CHUNK_HDR_SZ then Err(ValueError)
    else
      var (cs, junk) :- DecodeChunks(body, h.chunks, h.blockSize);
      if h.blocks != TotalBlocks(cs) || junk != [] then Err(ValueError)
      else Ok(Sparse(h.blockSize, h.checksum, cs))
  }

  /** What the image reader makes of a file: None is a plain image, Some a sparse one. */
  function Decode(f: bytes): Result<Option<Sparse>> {
    var h :- DecodeHeader(Slice(f, 0, FILE_HDR_SZ));
    if h.magic != MAGIC then Ok(None)
    else
      var sp :- DecodeBody(h, Slice(f, FILE_HDR_SZ, |f|));
      Ok(Some(sp))
  }

  /** A file is plain when it does not begin with the magic; too short a file cannot be opened at all. */
  lemma PlainIff(f: bytes)
    ensures Decode(f) == Ok(None) <==> |f| >= 28 && f[..4] != [0x3a, 0xff, 0x26, 0xed]
    ensures |f| < 28 ==> Decode(f) == Err(StructError)
  {
    hide Unpack, DecodeBody, LE, FromLE;
    SmallLE();
    var s := Slice(f, 0, 28);
    if |f| >= 28 {
      assert s == f[..28] == s[0..] && s[0..4] == f[..4];
      Unfield(s, 0, Little, HEADER_FORMAT, Unpack(Little, HEADER_FORMAT, s).value);
      PackUnpackInt(Little, f[..4]);
      IntRoundTrip(Little, MAGIC, 4);
    }
  }

  // ------------------------------------------------------------- the two are inverse

  predicate Short(c: Chunk, bs: nat) {
    |c.payload| < ChunkPayloadSize(c, bs)
  }

  lemma DecodeHeaderEncode(bs: nat, blocks: nat, chunks: nat, checksum: nat)
    requires bs < U32 && blocks < U32 && chunks < U32 && checksum < U32
    ensures DecodeHeader(EncodeHeader(bs, blocks, chunks, checksum))
         == Ok(Header(MAGIC, 1, 0, FILE_HDR_SZ, CHUNK_HDR_SZ, bs, blocks, chunks, checksum))
  {
    UnpackPack(Little, HEADER_FORMAT, HeaderValues(bs, blocks, chunks, checksum));
  }

  lemma DecodeHeaderSound(f: bytes)
    requires DecodeHeader(f).Ok?
    ensures var h := DecodeHeader(f).value;
            && |f| == FILE_HDR_SZ
            && h.blockSize < U32 && h.blocks < U32 && h.chunks < U32 && h.checksum < U32
            && (h == Header(MAGIC, 1, 0, FILE_HDR_SZ, CHUNK_HDR_SZ, h.blockSize, h.blocks, h.chunks, h.checksum)
                ==> f == EncodeHeader(h.blockSize, h.blocks, h.chunks, h.checksum))
  {
    PackUnpack(Little, HEADER_FORMAT, f);
  }

  lemma DecodeChunkHeaderEncode(k: Kind, reserved: nat, blocks: nat, total: nat)
    requires reserved < U16 && blocks < U32 && total < U32
    ensures DecodeChunkHeader(EncodeChunkHeader(k, reserved, blocks, total))
         == Ok(ChunkHeader(TypeCode(k), reserved, blocks, total))
  {
    UnpackPack(Little, CHUNK_FORMAT, ChunkValues(k, reserved, blocks, total));
  }

  lemma DecodeChunkHeaderSound(h: bytes)
    requires DecodeChunkHeader(h).Ok?
    ensures var c := DecodeChunkHeader(h).value;
            && |h| == CHUNK_HDR_SZ
            && c.code < U16 && c.reserved < U16 && c.blocks < U32 && c.total < U32
            && (KindOf(c.code).Some? ==> h == EncodeChunkHeader(KindOf(c.code).value, c.reserved, c.blocks, c.total))
  {
    PackUnpack(Little, CHUNK_FORMAT, h);
  }

  lemma DecodeChunkEncode(c: Chunk, rest: bytes, bs: nat)
    requires WFChunk(c, bs)
    requires Short(c, bs) ==> rest == []
    ensures DecodeChunk(EncodeChunk(c, bs) + rest, bs) == Ok((c, rest))
  {
    hide DecodeChunkHeader, EncodeChunkHeader;
    var total := CHUNK_HDR_SZ + ChunkPayloadSize(c, bs);
    var h := EncodeChunkHeader(c.kind, c.reserved, c.blocks, total);
    var s := EncodeChunk(c, bs) + rest;
    DecodeChunkHeaderEncode(c.kind, c.reserved, c.blocks, total);
    assert Slice(s, 0, CHUNK_HDR_SZ) == h;
    assert s == h + (c.payload + rest);
    assert Slice(s, CHUNK_HDR_SZ, total) == c.payload;
    assert Slice(s, total, |s|) == rest;
  }

  lemma DecodeChunkSound(s: bytes, bs: nat)
    requires DecodeChunk(s, bs).Ok?
    ensures var (c, rest) := DecodeChunk(s, bs).value;
            && WFChunk(c, bs) && s == EncodeChunk(c, bs) + rest
            && (Short(c, bs) ==> rest == []) && (Complete(c, bs) || Short(c, bs))
  {
    hide DecodeChunkHeader, EncodeChunkHeader;
    var (c, rest) := DecodeChunk(s, bs).value;
    var h := Slice(s, 0, CHUNK_HDR_SZ);
    DecodeChunkHeaderSound(h);
    assert s == h + (c.payload + rest);
    Assoc(h, c.payload, rest);
  }

  /** Only the last chunk may be cut short, and then nothing follows it. */
  predicate Ends(cs: seq<Chunk>, rest: bytes, bs: nat) {
    cs != [] && Short(cs[|cs| - 1], bs) ==> rest == []
  }

  lemma TailEnds(cs: seq<Chunk>, rest: bytes, bs: nat)
    requires cs != [] && WFChunks(cs, bs) && Ends(cs, rest, bs)
    ensures WFChunk(cs[0], bs) && WFChunks(cs[1..], bs) && Ends(cs[1..], rest, bs)
    ensures Short(cs[0], bs) ==> cs[1..] == [] && rest == []
  {
    hide WFChunk, ChunkPayloadSize;
    var t := cs[1..];
    assert forall i :: 0 <= i < |t| ==> t[i] == cs[i + 1];
  }

  lemma {:induction false} DecodeChunksEncode(cs: seq<Chunk>, rest: bytes, bs: nat)
    requires WFChunks(cs, bs) && Ends(cs, rest, bs)
    ensures DecodeChunks(EncodeChunks(cs, bs) + rest, |cs|, bs) == Ok((cs, rest))
  {
    hide DecodeChunk, EncodeChunk, WFChunk, Short, Complete, Ends;
    if cs == [] {
      assert EncodeChunks(cs, bs) + rest == rest;
    } else {
      var tail := EncodeChunks(cs[1..], bs) + rest;
      TailEnds(cs, rest, bs);
      Assoc(EncodeChunk(cs[0], bs), EncodeChunks(cs[1..], bs), rest);
      DecodeChunkEncode(cs[0], tail, bs);
      DecodeChunksEncode(cs[1..], rest, bs);
      assert cs == [cs[0]] + cs[1..];
    }
  }

  lemma DecodeNothing(bs: nat)
    ensures DecodeChunk([], bs).Err?
  {
  }

  lemma EncodeChunksCons(c: Chunk, cs: seq<Chunk>, bs: nat)
    requires WFChunk(c, bs) && forall i :: 0 <= i < |cs| ==> WFChunk(cs[i], bs)
    ensures EncodeChunks([c] + cs, bs) == EncodeChunk(c, bs) + EncodeChunks(cs, bs)
  {
    assert ([c] + cs)[1..] == cs;
  }

  lemma ConsEnds(c: Chunk, cs: seq<Chunk>, end: bytes, bs: nat)
    requires WFChunk(c, bs) && (Complete(c, bs) || Short(c, bs)) && WFChunks(cs, bs) && Ends(cs, end, bs)
    requires Short(c, bs) ==> cs == [] && end == []
    ensures WFChunks([c] + cs, bs) && Ends([c] + cs, end, bs)
  {
    hide WFChunk, ChunkPayloadSize;
    var all := [c] + cs;
    assert forall i :: 0 < i < |all| ==> all[i] == cs[i - 1];
  }

  lemma NothingEncoded(cs: seq<Chunk>, bs: nat)
    requires WFChunks(cs, bs) && EncodeChunks(cs, bs) == []
    ensures cs == []
  {
  }

  lemma DecodeChunksStep(s: bytes, n: nat, bs: nat)
    requires n > 0 && DecodeChunks(s, n, bs).Ok?
    ensures DecodeChunk(s, bs).Ok? && DecodeChunks(DecodeChunk(s, bs).value.1, n - 1, bs).Ok?
    ensures var (c, rest) := DecodeChunk(s, bs).value;
            var (cs, end) := DecodeChunks(rest, n - 1, bs).value;
            DecodeChunks(s, n, bs).value == ([c] + cs, end)
  {
    hide DecodeChunk;
  }

  lemma {:induction false} DecodeChunksSound(s: bytes, n: nat, bs: nat)
    requires DecodeChunks(s, n, bs).Ok?
    ensures var (cs, rest) := DecodeChunks(s, n, bs).value;
            |cs| == n && WFChunks(cs, bs) && s == EncodeChunks(cs, bs) + rest && Ends(cs, rest, bs)
    decreases n
  {
    if n == 0 {
      assert [] + s == s;
    } else {
      hide DecodeChunk, DecodeChunks, EncodeChunk, EncodeChunks, WFChunk, Complete, Short, Ends;
      DecodeChunkSound(s, bs);
      DecodeChunksStep(s, n, bs);
      var (c, rest) := DecodeChunk(s, bs).value;
      DecodeChunksSound(rest, n - 1, bs);
      var (cs, end) := DecodeChunks(rest, n - 1, bs).value;
      if Short(c, bs) {
        NothingEncoded(cs, bs);
      }
      ConsEnds(c, cs, end, bs);
      EncodeChunksCons(c, cs, bs);
      Assoc(EncodeChunk(c, bs), EncodeChunks(cs, bs), end);
    }
  }

  /** Reading one chunk more than there are fails. */
  lemma {:induction false} DecodeOneTooMany(s: bytes, n: nat, bs: nat)
    requires DecodeChunks(s, n, bs).Ok? && DecodeChunks(s, n, bs).value.1 == []
    ensures DecodeChunks(s, n + 1, bs).Err?
    decreases n
  {
    hide DecodeChunk;
    if n == 0 {
      DecodeNothing(bs);
    } else {
      DecodeOneTooMany(DecodeChunk(s, bs).value.1, n - 1, bs);
    }
  }

  /** Every header field of a file that reads as sparse is determined by the image. */
  lemma DecodeSound(f: bytes, sp: Sparse)
    requires Decode(f) == Ok(Some(sp))
    ensures WF(sp) && f == Encode(sp)
  {
    hide DecodeChunk, EncodeChunk, WFChunk, PayloadSize, DecodeHeader, EncodeHeader;
    var h, body := Slice(f, 0, FILE_HDR_SZ), Slice(f, FILE_HDR_SZ, |f|);
    DecodeHeaderSound(h);
    DecodeChunksSound(body, DecodeHeader(h).value.chunks, sp.blockSize);
    var e := EncodeChunks(sp.chunks, sp.blockSize);
    assert body == e + [] == e;
    assert f == h + body;
  }

  lemma DecodeEncode(sp: Sparse)
    requires WF(sp)
    ensures Decode(Encode(sp)) == Ok(Some(sp))
  {
    hide DecodeChunk, EncodeChunk, WFChunk, PayloadSize, DecodeHeader, EncodeHeader;
    var h := EncodeHeader(sp.blockSize, TotalBlocks(sp.chunks), |sp.chunks|, sp.checksum);
    var body := EncodeChunks(sp.chunks, sp.blockSize);
    DecodeHeaderEncode(sp.blockSize, TotalBlocks(sp.chunks), |sp.chunks|, sp.checksum);
    var f := h + body;
    assert Slice(f, 0, FILE_HDR_SZ) == h && Slice(f, FILE_HDR_SZ, |f|) == body + [] == body;
    DecodeChunksEncode(sp.chunks, [], sp.blockSize);
  }

  /** A file reads as the sparse image sp exactly when it is the encoding of sp. */
  lemma DecodeIff(f: bytes, sp: Sparse)
    ensures Decode(f) == Ok(Some(sp)) <==> WF(sp) && f == Encode(sp)
  {
    if Decode(f) == Ok(Some(sp)) {
      DecodeSound(f, sp);
    }
    if WF(sp) && f == Encode(sp) {
      DecodeEncode(sp);
    }
  }
}
