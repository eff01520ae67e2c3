/** AVB footers, as operations on the flat content of an image, and the laws between them. */
module Footers {
  import opened Bytes
  import opened Struct
  import D = Descriptors
  import VbMeta

  const MAGIC: bytes := [65, 86, 66, 102]
  const SIZE := 64
  const MAX_VBMETA_SIZE := 65536
  const MAX_FOOTER_SIZE := 4096
  const MAX_METADATA_SIZE := MAX_VBMETA_SIZE + MAX_FOOTER_SIZE

  datatype Footer = Footer(major: nat, minor: nat, originalImageSize: nat, vbmetaOffset: nat, vbmetaSize: nat)

  const FORMAT: Format := S(4, U(4, U(4, U(8, U(8, U(8, X(28, End)))))))

  predicate WF(f: Footer) {
    f.major < U32 && f.minor < U32 && f.originalImageSize < U64 && f.vbmetaOffset < U64 && f.vbmetaSize < U64
  }

  function FooterValues(f: Footer): Values {
    Str(MAGIC, Int(f.major, Int(f.minor, Int(f.originalImageSize, Int(f.vbmetaOffset, Int(f.vbmetaSize, Done))))))
  }

  function Encode(f: Footer): (r: bytes)
    requires WF(f)
    ensures |r| == SIZE
  {
    Pack(Big, FORMAT, FooterValues(f))
  }

  function Parse(data: bytes): Result<Footer> {
    var Str(magic, Int(major, Int(minor, Int(size, Int(off, Int(vsize, _)))))) :- Unpack(Big, FORMAT, data);
    if magic != MAGIC then Err(LookupError) else Ok(Footer(major, minor, size, off, vsize))
  }

  lemma RoundTrip(f: Footer)
    requires WF(f)
    ensures Parse(Encode(f)) == Ok(f)
  {
    assert Exact(FORMAT, FooterValues(f));
    UnpackPack(Big, FORMAT, FooterValues(f));
  }

  /** Where each field of a footer lies. */
  lemma FooterOctets(f: Footer)
    requires WF(f)
    ensures var s := Encode(f);
            && s[..4] == [0x41, 0x56, 0x42, 0x66] && s[4..8] == BE(f.major, 4) && s[8..12] == BE(f.minor, 4)
            && s[12..20] == BE(f.originalImageSize, 8) && s[20..28] == BE(f.vbmetaOffset, 8)
            && s[28..36] == BE(f.vbmetaSize, 8) && s[36..64] == Zeros(28)
  {
    hide BE;
    var s, g, v := Encode(f), FORMAT, FooterValues(f);
    assert s[0..] == s == Pack(Big, g, v);
    hide Pack, Encode, Resize;
    ResizeSame(MAGIC);
    Field(s, 0, Big, g, v);
    g, v := g.after, v.more;
    Field(s, 4, Big, g, v);
    g, v := g.after, v.more;
    Field(s, 8, Big, g, v);
    g, v := g.after, v.more;
    Field(s, 12, Big, g, v);
    g, v := g.after, v.more;
    Field(s, 20, Big, g, v);
    g, v := g.after, v.more;
    Field(s, 28, Big, g, v);
    g, v := g.after, v.more;
    Field(s, 36, Big, g, v);
  }

  lemma ParsedIsWF(data: bytes)
    requires Parse(data).Ok?
    ensures WF(Parse(data).value) && |data| == SIZE
  {
  }

  /** 64 bytes are a footer exactly when they begin with the magic. */
  lemma ParseIff(data: bytes)
    requires |data| == SIZE
    ensures Parse(data).Ok? <==> data[..4] == MAGIC
  {
    assert HasSize(FORMAT, 64);
  }

  // ------------------------------------------------------------- images with footers

  /** The footer at the end of an image, if there is one. */
  function FooterOf(c: bytes): Option<Footer> {
    if |c| < SIZE || Parse(c[|c| - SIZE..]).Err? then None else Some(Parse(c[|c| - SIZE..]).value)
  }

  /** The content below an existing footer. */
  function Stripped(c: bytes): bytes {
    match FooterOf(c)
    case None => c
    case Some(f) => Resize(c, f.originalImageSize)
  }

  /** _parse_image */
  function ParseImage(lib: D.Hashes, c: bytes): Result<(Option<Footer>, VbMeta.Header, seq<D.Descriptor>)> {
    if |c| < SIZE then Err(RuntimeError)
    else
      var f := FooterOf(c);
      var (h, ds) :- VbMeta.ParseAt(lib, c, if f.Some? then f.value.vbmetaOffset else 0);
      Ok((f, h, ds))
  }

  /** erase_footer without keep_hashtree */
  function EraseFooter(lib: D.Hashes, c: bytes): Result<bytes> {
    var (f, _, _) :- ParseImage(lib, c);
    if f.None? then Err(AvbError) else Ok(Resize(c, f.value.originalImageSize))
  }

  /**
    When erase_footer succeeds: there is a footer, and what it points at parses. A footer that points at or past the end
    of the image always passes, since no bytes at all are taken for a default header.
   */
  lemma EraseIff(lib: D.Hashes, c: bytes)
    ensures EraseFooter(lib, c).Ok? <==>
              && FooterOf(c).Some?
              && (FooterOf(c).value.vbmetaOffset >= |c|
                  || VbMeta.ParseAt(lib, c, FooterOf(c).value.vbmetaOffset).Ok?)
    ensures EraseFooter(lib, c).Ok? ==> EraseFooter(lib, c) == Ok(Resize(c, FooterOf(c).value.originalImageSize))
  {
    hide VbMeta.ParseAt, Parse, Resize;
    if FooterOf(c).Some? && FooterOf(c).value.vbmetaOffset >= |c| {
      VbMeta.PastTheEnd(lib, c, FooterOf(c).value.vbmetaOffset);
    }
  }

  /** The last block of an image: padding, then the footer. */
  function FooterBlock(f: Footer, bs: nat): (r: bytes)
    requires WF(f) && bs >= SIZE
    ensures |r| == bs
  {
    Zeros(bs - SIZE) + Encode(f)
  }

  /** resize_image */
  function ResizeImage(lib: D.Hashes, c: bytes, bs: nat, partitionSize: nat): Result<bytes>
    requires bs >= SIZE
  {
    if partitionSize % bs != 0 then Err(AvbError)
    else
      var (f, _, _) :- ParseImage(lib, c);
      if f.None? then Err(AvbError)
      else
        FooterOfIsWF(c);
        var end := RoundToMultiple(f.value.vbmetaOffset + f.value.vbmetaSize, bs);
        if partitionSize < end + bs then Err(AvbError)
        else Ok(Resize(Resize(c, end), partitionSize - bs) + FooterBlock(f.value, bs))
  }

  lemma FooterOfIsWF(c: bytes)
    ensures FooterOf(c).Some? ==> WF(FooterOf(c).value)
  {
    if FooterOf(c).Some? {
      ParsedIsWF(c[|c| - SIZE..]);
    }
  }

  /**
    resize_image succeeds exactly on images with a footer and something that parses where it points, for sizes of whole
    blocks with room for the footer's block behind the blob. Content and blob stay; behind them are NULs and the footer.
   */
  lemma ResizeIff(lib: D.Hashes, c: bytes, bs: nat, partitionSize: nat)
    requires bs >= SIZE
    ensures var r, p := ResizeImage(lib, c, bs, partitionSize), partitionSize;
            && (r.Ok? <==>
                  && p % bs == 0 && FooterOf(c).Some? && ParseImage(lib, c).Ok?
                  && RoundToMultiple(FooterOf(c).value.vbmetaOffset + FooterOf(c).value.vbmetaSize, bs) + bs <= p)
            && (r.Ok? ==>
                  var end := RoundToMultiple(FooterOf(c).value.vbmetaOffset + FooterOf(c).value.vbmetaSize, bs);
                  && |r.value| == p && end <= p - 64 && FooterOf(r.value) == FooterOf(c)
                  && forall i :: 0 <= i < p - 64 ==> r.value[i] == if i < end && i < |c| then c[i] else 0)
  {
    hide VbMeta.ParseAt, Parse, FooterBlock, RoundToMultiple, WF;
    if ResizeImage(lib, c, bs, partitionSize).Ok? {
      FooterOfIsWF(c);
      var f := FooterOf(c).value;
      var end := RoundToMultiple(f.vbmetaOffset + f.vbmetaSize, bs);
      LastBlockIsFooter(Resize(Resize(c, end), partitionSize - bs), f, bs);
      ResizedOctets(c, end, f, bs, partitionSize);
    }
  }

  lemma ResizedOctets(c: bytes, end: nat, f: Footer, bs: nat, p: nat)
    requires WF(f) && bs >= SIZE && end + bs <= p
    ensures var x := Resize(Resize(c, end), p - bs) + FooterBlock(f, bs);
            forall i :: 0 <= i < p - 64 ==> x[i] == if i < end && i < |c| then c[i] else 0
  {
    hide Encode, WF;
  }

  // ------------------------------------------------------------- adding a blob and a footer

  /** s grown to whole blocks, then the blob grown to whole blocks. */
  function WithBlob(s: bytes, blob: bytes, bs: nat): (r: bytes)
    requires bs > 0
    ensures |r| == RoundToMultiple(|s|, bs) + RoundToMultiple(|blob|, bs)
  {
    Resize(s, RoundToMultiple(|s|, bs)) + Resize(blob, RoundToMultiple(|blob|, bs))
  }

  function FooterFor(original: nat, size: nat, blob: bytes, bs: nat): Footer
    requires bs > 0
  {
    Footer(1, 0, original, RoundToMultiple(size, bs), |blob|)
  }

  /** The finished image: content, blob, room up to the last block, footer block. */
  function WithFooter(original: nat, s: bytes, blob: bytes, bs: nat, partitionSize: nat): (r: bytes)
    requires bs >= SIZE && partitionSize >= bs && WF(FooterFor(original, |s|, blob, bs))
    ensures |r| == partitionSize
  {
    Resize(WithBlob(s, blob, bs), partitionSize - bs) + FooterBlock(FooterFor(original, |s|, blob, bs), bs)
  }

  /** The last block is not needed for the blob. */
  predicate Fits(s: bytes, blob: bytes, bs: nat, partitionSize: nat)
    requires bs > 0
  {
    RoundToMultiple(|s|, bs) + RoundToMultiple(|blob|, bs) + bs <= partitionSize
  }

  lemma LastBlockIsFooter(x: bytes, f: Footer, bs: nat)
    requires WF(f) && bs >= SIZE
    ensures FooterOf(x + FooterBlock(f, bs)) == Some(f)
  {
    hide Parse, Encode;
    var c := x + FooterBlock(f, bs);
    assert c[|c| - SIZE..] == Encode(f);
    RoundTrip(f);
  }

  /** The footer just written is found again, whatever else is in the image. */
  lemma WithFooterHasFooter(original: nat, s: bytes, blob: bytes, bs: nat, partitionSize: nat)
    requires bs >= SIZE && partitionSize >= bs && WF(FooterFor(original, |s|, blob, bs))
    ensures FooterOf(WithFooter(original, s, blob, bs, partitionSize)) == Some(FooterFor(original, |s|, blob, bs))
  {
    hide FooterOf, FooterBlock;
    LastBlockIsFooter(Resize(WithBlob(s, blob, bs), partitionSize - bs), FooterFor(original, |s|, blob, bs), bs);
  }

  /** Stripping what was added gives the content back, even when the blob itself did not fit. */
  lemma StrippedWithFooter(s: bytes, blob: bytes, bs: nat, partitionSize: nat)
    requires bs >= SIZE && |s| + bs <= partitionSize && WF(FooterFor(|s|, |s|, blob, bs))
    ensures Stripped(WithFooter(|s|, s, blob, bs, partitionSize)) == s
  {
    hide FooterOf, FooterBlock, RoundToMultiple;
    WithFooterHasFooter(|s|, s, blob, bs, partitionSize);
    WithFooterPrefix(|s|, s, blob, bs, partitionSize, |s|);
  }

  lemma WithFooterPrefix(original: nat, s: bytes, blob: bytes, bs: nat, partitionSize: nat, n: nat)
    requires bs >= SIZE && n + bs <= partitionSize && n <= |s| && WF(FooterFor(original, |s|, blob, bs))
    ensures Resize(WithFooter(original, s, blob, bs, partitionSize), n) == s[..n]
  {
    hide FooterBlock;
    var c := WithFooter(original, s, blob, bs, partitionSize);
    assert forall i :: 0 <= i < n ==> c[i] == s[i];
  }

  /** Where the blob lies when everything fits. */
  lemma BlobInPlace(original: nat, s: bytes, blob: bytes, bs: nat, partitionSize: nat)
    requires bs >= SIZE && Fits(s, blob, bs, partitionSize) && WF(FooterFor(original, |s|, blob, bs))
    ensures var c, off := WithFooter(original, s, blob, bs, partitionSize), RoundToMultiple(|s|, bs);
            off + |blob| <= partitionSize - bs && c[off..off + |blob|] == blob
  {
    hide FooterBlock, RoundToMultiple;
    var c, off := WithFooter(original, s, blob, bs, partitionSize), RoundToMultiple(|s|, bs);
    RoundsUp(|blob|, bs);
    assert forall i :: 0 <= i < |blob| ==> c[off + i] == blob[i];
  }

  lemma RoundsUp(n: nat, d: nat)
    requires d > 0
    ensures n <= RoundToMultiple(n, d)
  {
  }

  /** The blob stays clear of the footer block exactly when it fits. */
  lemma BlobClearOfFooterIff(original: nat, s: bytes, blob: bytes, bs: nat, partitionSize: nat)
    requires bs >= SIZE && partitionSize >= bs && partitionSize % bs == 0 && blob != []
    requires WF(FooterFor(original, |s|, blob, bs))
    ensures var f := FooterFor(original, |s|, blob, bs);
            f.vbmetaOffset + f.vbmetaSize <= partitionSize - bs <==> Fits(s, blob, bs, partitionSize)
  {
    var off := RoundToMultiple(|s|, bs);
    if off + |blob| <= partitionSize - bs {
      MultiplesClosed(partitionSize, bs, bs);
      MultiplesClosed(off, RoundToMultiple(|blob|, bs), bs);
      MultiplesGap(off + RoundToMultiple(|blob|, bs), partitionSize - bs, bs);
    }
  }

  /** Everything in a finished image whose blob fits: content, NULs, blob, NULs, and the footer's 64 bytes. */
  lemma FinishedOctets(original: nat, s: bytes, blob: bytes, bs: nat, partitionSize: nat)
    requires bs >= SIZE && partitionSize % bs == 0 && Fits(s, blob, bs, partitionSize)
    requires WF(FooterFor(original, |s|, blob, bs))
    ensures var x, off := WithFooter(original, s, blob, bs, partitionSize), RoundToMultiple(|s|, bs);
            && |x| == partitionSize && |s| <= off <= off + |blob| <= |x| - 64
            && x[..|s|] == s && x[|s|..off] == Zeros(off - |s|)
            && x[off..off + |blob|] == blob && x[off + |blob|..|x| - 64] == Zeros(|x| - 64 - off - |blob|)
            && IsFooter(x[|x| - 64..], original, off, |blob|)
  {
    hide FooterBlock, WF, IsFooter;
    var x, off := WithFooter(original, s, blob, bs, partitionSize), RoundToMultiple(|s|, bs);
    var f, w := FooterFor(original, |s|, blob, bs), WithBlob(s, blob, bs);
    RoundsUp(|blob|, bs);
    var end := partitionSize - bs;
    Layers(s, blob, off, RoundToMultiple(|blob|, bs), end);
    BlockOctets(f, bs);
    LastBlockBehind(Resize(w, end), FooterBlock(f, bs), s, blob, off);
  }

  /** 64 bytes with magic, version 1.0, sizes and offset. */
  predicate IsFooter(t: bytes, original: nat, offset: nat, size: nat) {
    && |t| == 64 && t[..4] == [0x41, 0x56, 0x42, 0x66] && t[4..8] == BE(1, 4) && t[8..12] == BE(0, 4)
    && t[12..20] == BE(original, 8) && t[20..28] == BE(offset, 8) && t[28..36] == BE(size, 8) && t[36..] == Zeros(28)
  }

  lemma BlockOctets(f: Footer, bs: nat)
    requires WF(f) && bs >= SIZE && f.major == 1 && f.minor == 0
    ensures var b := FooterBlock(f, bs);
            && b[..bs - 64] == Zeros(bs - 64)
            && IsFooter(b[bs - 64..], f.originalImageSize, f.vbmetaOffset, f.vbmetaSize)
  {
    FooterOctets(f);
    hide Encode;
    assert FooterBlock(f, bs)[bs - 64..] == Encode(f);
    assert Encode(f)[36..64] == Encode(f)[36..];
  }

  lemma Layers(s: bytes, blob: bytes, off: nat, n: nat, end: nat)
    requires |s| <= off && |blob| <= n && off + n <= end
    ensures var y := Resize(Resize(s, off) + Resize(blob, n), end);
            && y[..|s|] == s && y[|s|..off] == Zeros(off - |s|)
            && y[off..off + |blob|] == blob && y[off + |blob|..] == Zeros(end - off - |blob|)
  {
  }

  lemma LastBlockBehind(y: bytes, b: bytes, s: bytes, blob: bytes, off: nat)
    requires |s| <= off && off + |blob| <= |y| && |b| >= 64 && b[..|b| - 64] == Zeros(|b| - 64)
    requires y[..|s|] == s && y[|s|..off] == Zeros(off - |s|)
    requires y[off..off + |blob|] == blob && y[off + |blob|..] == Zeros(|y| - off - |blob|)
    ensures var x := y + b;
            && x[..|s|] == s && x[|s|..off] == Zeros(off - |s|) && x[off..off + |blob|] == blob
            && x[off + |blob|..|x| - 64] == Zeros(|x| - 64 - off - |blob|) && x[|x| - 64..] == b[|b| - 64..]
  {
    var x := y + b;
    assert x[off + |blob|..|x| - 64] == y[off + |blob|..] + b[..|b| - 64];
  }

  /** Data of which only k bytes lie in front of the last block, with that block over the rest. */
  function Overlaid(data: bytes, k: nat, block: bytes): bytes {
    if |data| <= k then data else data[..k] + Slice(block, 0, |data| - k)
  }

  /** How much of the blob lies in front of the last block. */
  function InFront(s: bytes, bs: nat, partitionSize: nat): (k: nat)
    requires bs > 0 && partitionSize % bs == 0 && |s| + bs <= partitionSize
    ensures RoundToMultiple(|s|, bs) + k + bs == partitionSize
  {
    MultiplesClosed(partitionSize, bs, bs);
    RoundToMultipleMonotone(|s|, partitionSize - bs, bs);
    partitionSize - bs - RoundToMultiple(|s|, bs)
  }

  /** What an image holds from offset p of its blob on, whether or not the blob fits. */
  lemma RegionOverlaid(original: nat, s: bytes, blob: bytes, bs: nat, partitionSize: nat, p: nat, n: nat)
    requires bs >= SIZE && partitionSize % bs == 0 && |s| + bs <= partitionSize && p + n <= |blob|
    requires WF(FooterFor(original, |s|, blob, bs)) && p <= InFront(s, bs, partitionSize)
    ensures var x, f := WithFooter(original, s, blob, bs, partitionSize), FooterFor(original, |s|, blob, bs);
            Slice(x, f.vbmetaOffset + p, f.vbmetaOffset + p + n)
            == Overlaid(blob[p..p + n], InFront(s, bs, partitionSize) - p, FooterBlock(f, bs))
  {
    hide FooterBlock, RoundToMultiple, WF, WithFooter, WithBlob, Resize, InFront;
    var f, k := FooterFor(original, |s|, blob, bs), InFront(s, bs, partitionSize);
    var off, block := f.vbmetaOffset, FooterBlock(f, bs);
    FrontOfWithFooter(original, s, blob, bs, partitionSize);
    var y := Resize(WithBlob(s, blob, bs), off + k);
    OverlaidTail(y, block, blob, off, k, p, n);
  }

  lemma FrontOfWithFooter(original: nat, s: bytes, blob: bytes, bs: nat, partitionSize: nat)
    requires bs >= SIZE && partitionSize % bs == 0 && |s| + bs <= partitionSize
    requires WF(FooterFor(original, |s|, blob, bs))
    ensures var f, k := FooterFor(original, |s|, blob, bs), InFront(s, bs, partitionSize);
            var y := Resize(WithBlob(s, blob, bs), f.vbmetaOffset + k);
            && WithFooter(original, s, blob, bs, partitionSize) == y + FooterBlock(f, bs)
            && forall i :: 0 <= i < |blob| && i < k ==> y[f.vbmetaOffset + i] == blob[i]
  {
    hide FooterBlock, RoundToMultiple, WF, Resize;
    RoundsUp(|blob|, bs);
    ResizedPrefix(blob, RoundToMultiple(|blob|, bs));
    FrontOf(Resize(s, RoundToMultiple(|s|, bs)), Resize(blob, RoundToMultiple(|blob|, bs)), blob,
            InFront(s, bs, partitionSize));
  }

  lemma ResizedPrefix(blob: bytes, n: nat)
    requires |blob| <= n
    ensures Resize(blob, n)[..|blob|] == blob
  {
  }

  lemma FrontOf(a: bytes, b: bytes, blob: bytes, k: nat)
    requires |blob| <= |b| && b[..|blob|] == blob
    ensures var y := Resize(a + b, |a| + k); forall i :: 0 <= i < |blob| && i < k ==> y[|a| + i] == blob[i]
  {
    var y := Resize(a + b, |a| + k);
    forall i | 0 <= i < |blob| && i < k ensures y[|a| + i] == blob[i] {
      assert y[|a| + i] == (a + b)[|a| + i] == b[i] == b[..|blob|][i];
    }
  }

  lemma OverlaidTail(y: bytes, block: bytes, blob: bytes, off: nat, k: nat, p: nat, n: nat)
    requires |y| == off + k && p <= k && p + n <= |blob|
    requires forall i :: 0 <= i < |blob| && i < k ==> y[off + i] == blob[i]
    ensures Slice(y + block, off + p, off + p + n) == Overlaid(blob[p..p + n], k - p, block)
  {
    hide Slice, Overlaid;
    if n <= k - p {
      SameRun(y, off, blob, p, n);
      OverlaidWithin(y, block, blob, off + p, p, n, k - p);
    } else {
      SameRun(y, off, blob, p, k - p);
      OverlaidAcross(y, block, blob, off + p, p, n, k - p);
    }
  }

  lemma OverlaidWithin(y: bytes, block: bytes, blob: bytes, x: nat, p: nat, n: nat, m: nat)
    requires x + m == |y| && n <= m && p + n <= |blob| && y[x..x + n] == blob[p..p + n]
    ensures Slice(y + block, x, x + n) == Overlaid(blob[p..p + n], m, block)
  {
    hide Slice;
    SliceWithin(y, block, x, x + n);
  }

  lemma OverlaidAcross(y: bytes, block: bytes, blob: bytes, x: nat, p: nat, n: nat, m: nat)
    requires x + m == |y| && m < n && p + n <= |blob| && y[x..x + m] == blob[p..p + m]
    ensures Slice(y + block, x, x + n) == Overlaid(blob[p..p + n], m, block)
  {
    hide Slice;
    SliceAcross(y, block, x, x + n);
    Cut(y, x, blob, p, n, m);
  }

  lemma Cut(y: bytes, x: nat, blob: bytes, p: nat, n: nat, m: nat)
    requires x + m == |y| && m <= n && p + n <= |blob|
    ensures y[x..] == y[x..x + m] && blob[p..p + n][..m] == blob[p..p + m]
  {
    SubSlice(blob, p, p + n, 0, m);
  }

  lemma SameRun(y: bytes, off: nat, blob: bytes, p: nat, n: nat)
    requires off + p + n <= |y| && p + n <= |blob|
    requires forall i :: p <= i < p + n ==> y[off + i] == blob[i]
    ensures y[off + p..off + p + n] == blob[p..p + n]
  {
    var l, r := y[off + p..off + p + n], blob[p..p + n];
    assert forall i :: 0 <= i < n ==> l[i] == y[off + (p + i)] == blob[p + i] == r[i];
  }

  lemma SliceWithin(y: bytes, block: bytes, lo: nat, hi: nat)
    requires lo <= hi <= |y|
    ensures Slice(y + block, lo, hi) == y[lo..hi]
  {
  }

  lemma SliceAcross(y: bytes, block: bytes, lo: nat, hi: nat)
    requires lo <= |y| <= hi
    ensures Slice(y + block, lo, hi) == y[lo..] + Slice(block, 0, hi - |y|)
  {
    var n := if hi - |y| <= |block| then hi - |y| else |block|;
    assert Slice(block, 0, hi - |y|) == block[..n];
    assert Slice(y + block, lo, hi) == (y + block)[lo..|y| + n];
  }

  /**
    The blob is found where the footer says exactly when it fits, or what the last block lies over is what it holds
    there anyway.
   */
  lemma BlobFoundIff(original: nat, s: bytes, blob: bytes, bs: nat, partitionSize: nat)
    requires bs >= SIZE && partitionSize % bs == 0 && |s| + bs <= partitionSize
    requires WF(FooterFor(original, |s|, blob, bs))
    ensures var x, f := WithFooter(original, s, blob, bs, partitionSize), FooterFor(original, |s|, blob, bs);
            var k := InFront(s, bs, partitionSize);
            Slice(x, f.vbmetaOffset, f.vbmetaOffset + f.vbmetaSize) == blob
            <==> Fits(s, blob, bs, partitionSize)
                 || (k < |blob| <= k + bs && blob[k..] == FooterBlock(f, bs)[..|blob| - k])
  {
    hide FooterBlock, RoundToMultiple, WF, WithFooter, InFront, Fits, Slice;
    FitsIff(s, blob, bs, partitionSize);
    RegionOverlaid(original, s, blob, bs, partitionSize, 0, |blob|);
    assert blob[0..0 + |blob|] == blob;
    OverlaidIff(blob, InFront(s, bs, partitionSize), FooterBlock(FooterFor(original, |s|, blob, bs), bs));
  }

  lemma FitsIff(s: bytes, blob: bytes, bs: nat, partitionSize: nat)
    requires bs > 0 && partitionSize % bs == 0 && |s| + bs <= partitionSize
    ensures Fits(s, blob, bs, partitionSize) <==> |blob| <= InFront(s, bs, partitionSize)
  {
    var off, k := RoundToMultiple(|s|, bs), InFront(s, bs, partitionSize);
    MultiplesClosed(partitionSize, bs, bs);
    MultiplesClosed(partitionSize - bs, off, bs);
    if |blob| <= k {
      RoundToMultipleMonotone(|blob|, k, bs);
    }
  }

  lemma OverlaidIff(data: bytes, k: nat, block: bytes)
    ensures Overlaid(data, k, block) == data
            <==> |data| <= k || (|data| <= k + |block| && data[k..] == block[..|data| - k])
  {
    if |data| > k {
      assert data == data[..k] + data[k..];
      SplitEquals(data[..k], Slice(block, 0, |data| - k), data[k..]);
    }
  }

  lemma SplitEquals(a: bytes, x: bytes, y: bytes)
    ensures a + x == a + y <==> x == y
  {
    assert (a + x)[|a|..] == x && (a + y)[|a|..] == y;
  }

  /** What is set aside for blob and footer covers a full blob and the footer block. */
  predicate Reserved(bs: nat)
    requires bs > 0
  {
    RoundToMultiple(MAX_VBMETA_SIZE, bs) < MAX_METADATA_SIZE
  }

  /** Any whole content passing the size check leaves room for any blob of at most 64 KiB. */
  ghost predicate ReservationSound(bs: nat)
    requires bs > 0
  {
    forall s: bytes, blob: bytes, p: nat ::
      && |s| % bs == 0 && p % bs == 0 && |blob| <= MAX_VBMETA_SIZE && |s| + MAX_METADATA_SIZE <= p
      ==> Fits(s, blob, bs, p)
  }

  lemma ReservedFits(s: bytes, blob: bytes, bs: nat, p: nat)
    requires bs > 0 && Reserved(bs)
    requires |s| % bs == 0 && p % bs == 0 && |blob| <= MAX_VBMETA_SIZE && |s| + MAX_METADATA_SIZE <= p
    ensures Fits(s, blob, bs, p)
  {
    var b := RoundToMultiple(|blob|, bs);
    RoundToMultipleMonotone(|blob|, MAX_VBMETA_SIZE, bs);
    MultiplesClosed(|s|, b, bs);
    MultiplesClosed(bs, bs, bs);
    MultiplesClosed(|s| + b, bs, bs);
    hide RoundToMultiple;
    MultiplesGap(|s| + b + bs, p, bs);
  }

  /** The reservation is sound for exactly these block sizes. */
  lemma ReservationIff(bs: nat)
    requires bs > 0
    ensures ReservationSound(bs) <==> Reserved(bs)
  {
    if Reserved(bs) {
      forall s: bytes, blob: bytes, p: nat |
        && |s| % bs == 0 && p % bs == 0 && |blob| <= MAX_VBMETA_SIZE && |s| + MAX_METADATA_SIZE <= p
        ensures Fits(s, blob, bs, p)
      {
        ReservedFits(s, blob, bs, p);
      }
    } else {
      var s: bytes, blob, p := [], Zeros(MAX_VBMETA_SIZE), RoundToMultiple(MAX_METADATA_SIZE, bs);
      MulMod(0, bs);
      MultiplesGap(p, RoundToMultiple(MAX_VBMETA_SIZE, bs), bs);
      assert !Fits(s, blob, bs, p);
    }
  }

  /** Among them are all block sizes up to 4096, and all that divide 64 KiB. */
  lemma ReservedSizes(bs: nat)
    requires bs > 0 && (bs <= 4096 || MAX_VBMETA_SIZE % bs == 0)
    ensures Reserved(bs)
  {
  }

  /** On plain files the content need not be whole blocks. */
  lemma PlainReservation(s: bytes, blob: bytes, p: nat)
    requires p % 4096 == 0 && |blob| <= MAX_VBMETA_SIZE && |s| + MAX_METADATA_SIZE <= p
    ensures Fits(s, blob, 4096, p)
  {
    var t := Resize(s, RoundToMultiple(|s|, 4096));
    ReservedSizes(4096);
    ReservedFits(t, blob, 4096, p);
  }
}
