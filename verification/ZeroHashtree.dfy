/** zero_hashtree: blanks the hash tree of an image and leaves everything else alone. */
module ZeroHashtree {
  import opened Bytes
  import D = Descriptors
  import VbMeta
  import opened Footers
  import S = SparseFormat
  import opened ImageHandling
  import SparseLayout
  import A = AvbCommands

  /** 'ZeRoHaSH' */
  const MARK: bytes := [90, 101, 82, 111, 72, 97, 83, 72]

  function FirstHashtree(ds: seq<D.Descriptor>): (r: Option<D.Descriptor>)
    ensures r.Some? ==> r.value.Hashtree?
  {
    if ds == [] then None else if ds[0].Hashtree? then Some(ds[0]) else FirstHashtree(ds[1..])
  }

  /** The end of the region to blank: the tree and, when there is one, the FEC data right behind it. */
  function RegionEnd(d: D.Descriptor): nat
    requires d.Hashtree?
  {
    d.treeOffset + d.treeSize + if d.fecOffset > 0 then d.fecSize else 0
  }

  /** The marker and then NUL bytes. */
  function Blank(n: nat): (r: bytes)
    requires n >= 8
    ensures |r| == n
  {
    MARK + Zeros(n - 8)
  }

  /** The hashtree descriptor of an image with footer, unless the command refuses. */
  function Target(lib: D.Hashes, c: bytes): (r: Result<D.Descriptor>)
    ensures r.Ok? ==> r.value.Hashtree?
  {
    var (f, _, ds) :- ParseImage(lib, c);
    if f.None? then Err(AvbError)
    else
      var d := FirstHashtree(ds);
      if d.None? then Err(AvbError)
      else if d.value.fecOffset > 0 && d.value.fecOffset != d.value.treeOffset + d.value.treeSize then Err(AvbError)
      else Ok(d.value)
  }

  /** Tree and FEC data are whole blocks inside the image, and the tree is not empty. */
  predicate Blankable(d: D.Descriptor, size: nat, bs: nat)
    requires d.Hashtree? && bs > 0
  {
    && bs % 4 == 0 && d.treeSize % 4 == 0 && (d.fecOffset > 0 ==> d.fecSize % 4 == 0)
    && d.treeOffset % bs == 0 && d.treeSize % bs == 0 && d.treeSize >= bs && size % bs == 0
    && (d.fecOffset > 0 ==> d.fecSize >= bs && d.fecSize % bs == 0)
    && RegionEnd(d) <= size
  }

  /** The blank tree, and the blank FEC data when there is any. */
  function Regions(d: D.Descriptor): (r: bytes)
    requires d.Hashtree? && d.treeSize >= 8 && (d.fecOffset > 0 ==> d.fecSize >= 8)
    ensures |r| == RegionEnd(d) - d.treeOffset
  {
    Blank(d.treeSize) + if d.fecOffset > 0 then Blank(d.fecSize) else []
  }

  /** The content with the region of d blanked. */
  function Blanked(c: bytes, d: D.Descriptor): (r: bytes)
    requires d.Hashtree? && RegionEnd(d) <= |c| && d.treeSize >= 8 && (d.fecOffset > 0 ==> d.fecSize >= 8)
    ensures |r| == |c|
  {
    c[..d.treeOffset] + Regions(d) + c[RegionEnd(d)..]
  }

  // ------------------------------------------------------------- nothing else changes

  lemma OnlyRegionChanges(c: bytes, d: D.Descriptor, i: nat)
    requires d.Hashtree? && RegionEnd(d) <= |c| && d.treeSize >= 8 && (d.fecOffset > 0 ==> d.fecSize >= 8)
    requires i < |c|
    ensures i < d.treeOffset || i >= RegionEnd(d) ==> Blanked(c, d)[i] == c[i]
    ensures d.treeOffset <= i < d.treeOffset + 8 ==> Blanked(c, d)[i] == Chars("ZeRoHaSH")[i - d.treeOffset]
    ensures d.treeOffset + 8 <= i < d.treeOffset + d.treeSize ==> Blanked(c, d)[i] == 0
    ensures var f := d.treeOffset + d.treeSize;
            && RegionEnd(d) == (if d.fecOffset > 0 then f + d.fecSize else f)
            && (f <= i < RegionEnd(d) ==> Blanked(c, d)[i] == if i < f + 8 then Chars("ZeRoHaSH")[i - f] else 0)
  {
    hide Blank;
    assert MARK == Chars("ZeRoHaSH");
    BlankIs(d.treeSize);
    if d.fecOffset > 0 {
      BlankIs(d.fecSize);
    }
  }

  /** The descriptor chosen is the first hashtree descriptor there is. */
  lemma {:induction false} FirstHashtreeIff(ds: seq<D.Descriptor>)
    ensures var r := FirstHashtree(ds);
            && (r.None? <==> forall i :: 0 <= i < |ds| ==> !ds[i].Hashtree?)
            && (r.Some? ==>
                  exists i :: 0 <= i < |ds| && ds[i] == r.value && forall j :: 0 <= j < i ==> !ds[j].Hashtree?)
  {
    if ds != [] && !ds[0].Hashtree? {
      var t := ds[1..];
      FirstHashtreeIff(t);
      assert forall i :: 0 < i < |ds| ==> ds[i] == t[i - 1];
      if FirstHashtree(t).Some? {
        var i :| 0 <= i < |t| && t[i] == FirstHashtree(t).value && forall j :: 0 <= j < i ==> !t[j].Hashtree?;
        assert ds[i + 1] == FirstHashtree(ds).value;
      }
    }
  }

  /** Entry i of a list is its first hashtree descriptor, and its FEC data, if any, lies right behind the tree. */
  predicate Eligible(ds: seq<D.Descriptor>, i: nat) {
    && i < |ds| && ds[i].Hashtree? && (forall j :: 0 <= j < i ==> !ds[j].Hashtree?)
    && (ds[i].fecOffset == 0 || ds[i].fecOffset == ds[i].treeOffset + ds[i].treeSize)
  }

  /** The command refuses images that do not parse, have no footer, or whose first hashtree descriptor will not do. */
  lemma TargetIff(lib: D.Hashes, c: bytes)
    ensures Target(lib, c).Ok? <==>
              ParseImage(lib, c).Ok? && FooterOf(c).Some? && exists i: nat :: Eligible(ParseImage(lib, c).value.2, i)
    ensures Target(lib, c).Ok? ==>
              exists i: nat :: Eligible(ParseImage(lib, c).value.2, i)
                          && Target(lib, c).value == ParseImage(lib, c).value.2[i]
  {
    hide FirstHashtree, VbMeta.ParseAt;
    if ParseImage(lib, c).Ok? {
      var ds := ParseImage(lib, c).value.2;
      FirstHashtreeIff(ds);
      if FirstHashtree(ds).Some? {
        var i: nat :| i < |ds| && ds[i] == FirstHashtree(ds).value && forall j :: 0 <= j < i ==> !ds[j].Hashtree?;
        forall k: nat | Eligible(ds, k) ensures k == i {
        }
        assert FooterOf(c).Some? ==> (Eligible(ds, i) <==> Target(lib, c).Ok?);
      }
    }
  }

  lemma BlankIs(n: nat)
    requires n >= 8
    ensures Blank(n) == MARK + Zeros(n - 8)
  {
  }

  lemma SliceBehind(c: bytes, x: bytes, e: nat, lo: nat, hi: nat)
    requires |c| == |x| && e <= |c| && c[e..] == x[e..] && e <= lo
    ensures Slice(c, lo, hi) == Slice(x, lo, hi)
  {
    if lo <= hi && lo <= |c| {
      var h := if hi <= |c| then hi else |c|;
      if lo <= h {
        SubSlice(c, e, |c|, lo - e, h - e);
        SubSlice(x, e, |x|, lo - e, h - e);
      }
    }
  }

  lemma SliceToEnd(c: bytes, lo: nat)
    requires lo <= |c|
    ensures c[lo..] == Slice(c, lo, |c|)
  {
  }

  lemma FooterBehind(c: bytes, x: bytes, e: nat)
    requires |c| == |x| && e + SIZE <= |c| && c[e..] == x[e..]
    ensures FooterOf(c) == FooterOf(x)
  {
    hide Parse, Slice;
    SliceBehind(c, x, e, |c| - SIZE, |c|);
    SliceToEnd(c, |c| - SIZE);
    SliceToEnd(x, |c| - SIZE);
  }

  lemma ParseAtBehind(lib: D.Hashes, c: bytes, x: bytes, e: nat, off: nat)
    requires |c| == |x| && e <= |c| && c[e..] == x[e..] && off >= e
    ensures VbMeta.ParseAt(lib, c, off) == VbMeta.ParseAt(lib, x, off)
  {
    hide VbMeta.ParseHeader, D.Parse, Slice;
    SliceBehind(c, x, e, off, off + VbMeta.HEADER_SIZE);
    var h := VbMeta.ParseHeader(Slice(c, off, off + VbMeta.HEADER_SIZE));
    if h.Ok? {
      var at := off + VbMeta.HEADER_SIZE + h.value.authSize + h.value.descriptorsOffset;
      SliceBehind(c, x, e, at, at + h.value.descriptorsSize);
    }
  }

  /** Parsing only looks behind e when the footer and the blob lie there. */
  lemma ParseBehind(lib: D.Hashes, c: bytes, x: bytes, e: nat)
    requires |c| == |x| && e + SIZE <= |c| && c[e..] == x[e..]
    requires FooterOf(c).Some? && FooterOf(c).value.vbmetaOffset >= e
    ensures ParseImage(lib, c) == ParseImage(lib, x)
  {
    FooterBehind(c, x, e);
    hide FooterOf, VbMeta.ParseAt;
    ParseAtBehind(lib, c, x, e, FooterOf(c).value.vbmetaOffset);
  }

  lemma BlankedParts(c: bytes, d: D.Descriptor)
    requires d.Hashtree? && RegionEnd(d) <= |c| && d.treeSize >= 8 && (d.fecOffset > 0 ==> d.fecSize >= 8)
    ensures var x := Blanked(c, d);
            && x[RegionEnd(d)..] == c[RegionEnd(d)..] && x[..d.treeOffset] == c[..d.treeOffset] && Blanked(x, d) == x
  {
    hide Blank;
  }

  /** Footer, blob and descriptors of the image survive, so that it can still be erased or blanked again. */
  lemma BlankedParses(lib: D.Hashes, c: bytes, d: D.Descriptor, bs: nat)
    requires bs >= SIZE && Target(lib, c) == Ok(d) && Blankable(d, |c|, bs)
    requires FooterOf(c).value.vbmetaOffset >= RegionEnd(d) && RegionEnd(d) + SIZE <= |c|
    ensures var x := Blanked(c, d);
            && ParseImage(lib, x) == ParseImage(lib, c) && Target(lib, x) == Ok(d)
            && FooterOf(x) == FooterOf(c) && Blanked(x, d) == x
  {
    hide FooterOf, Blank, Blanked, VbMeta.ParseAt;
    BlankedParts(c, d);
    var x := Blanked(c, d);
    FooterBehind(c, x, RegionEnd(d));
    ParseBehind(lib, c, x, RegionEnd(d));
  }

  /** Erasing the footer gives the same content whether or not the tree was blanked before. */
  lemma EraseAfterBlanking(lib: D.Hashes, c: bytes, d: D.Descriptor, bs: nat)
    requires bs >= SIZE && Target(lib, c) == Ok(d) && Blankable(d, |c|, bs)
    requires FooterOf(c).value.vbmetaOffset >= RegionEnd(d) && RegionEnd(d) + SIZE <= |c|
    requires FooterOf(c).value.originalImageSize <= d.treeOffset
    ensures EraseFooter(lib, c).Ok? && EraseFooter(lib, Blanked(c, d)) == EraseFooter(lib, c)
  {
    TargetErases(lib, c);
    BlankedParses(lib, c, d, bs);
    BlankedParts(c, d);
    hide FooterOf, Blanked, ParseImage, Target, EraseFooter;
    TargetErases(lib, Blanked(c, d));
    var n, x := FooterOf(c).value.originalImageSize, Blanked(c, d);
    ResizeAgrees(x, c, d.treeOffset, n);
  }

  lemma ResizeAgrees(x: bytes, c: bytes, m: nat, n: nat)
    requires n <= m <= |c| && m <= |x| && x[..m] == c[..m]
    ensures Resize(x, n) == Resize(c, n)
  {
    assert x[..n] == x[..m][..n] && c[..n] == c[..m][..n];
  }

  lemma TargetErases(lib: D.Hashes, c: bytes)
    requires Target(lib, c).Ok?
    ensures FooterOf(c).Some? && EraseFooter(lib, c) == Ok(Resize(c, FooterOf(c).value.originalImageSize))
  {
    hide FooterOf, VbMeta.ParseAt, Resize;
  }

  // ------------------------------------------------------------- on image files

  /** The file is as its chunks say, unless a chunk of n bytes has just overflowed. */
  ghost predicate SpoiledBy(image: ImageHandler, n: nat)
    reads image
  {
    if Overflows(image.sp, n) then S.Decode(image.file).Err? else image.Intact()
  }

  /** Content c with the front of x behind it, the chunk to come being one of n bytes. */
  ghost predicate PartOf(image: ImageHandler, c: bytes, x: bytes, n: nat)
    reads image
  {
    && image.Anchored() && SpoiledBy(image, n)
    && exists k: nat :: k <= |x| && image.Contents() == c + x[..k]
  }

  /** A sparse image has room for k chunks that make it hold total bytes, and for a raw one of size bytes. */
  ghost predicate Takes(image: ImageHandler, k: nat, total: nat, size: nat)
    requires image.Valid()
    reads image
  {
    image.isSparse ==> A.Roomy(image, k, total) && S.CHUNK_HDR_SZ + size < U32
  }

  /** Appends a marked block, then the rest of the region as a fill. */
  method AppendBlank(image: ImageHandler, ghost c: bytes, n: nat) returns (r: Result<()>)
    requires image.Valid() && !image.readOnly && image.blockSize >= SIZE && image.Contents() == c
    requires image.blockSize % 4 == 0 && n % image.blockSize == 0 && n >= image.blockSize && n % 4 == 0
    modifies image
    ensures image.isSparse == old(image.isSparse) && image.blockSize == old(image.blockSize)
    ensures r.Ok? <==> old(Takes(image, 2, |c| + n, image.blockSize))
    ensures r.Ok? ==> image.Valid() && image.Contents() == c + Blank(n) && A.Longer(image, 2)
    ensures r.Err? ==> PartOf(image, c, Blank(n), image.blockSize)
  {
    hide ImageHandler.Contents, ImageHandler.Valid, ImageHandler.Anchored, Blank, SparseLayout.Pattern, Overflows,
      S.Decode, PartOf, SpoiledBy;
    var bs := image.blockSize;
    BlankInTwo(c, n, bs);
    BlankSteps(|c|, n, bs);
    r := AppendPiece(image, c, Blank(bs));
    if r.Err? {
      PartNone(image, c, Blank(n), bs);
      return;
    }
    r := AppendZeros(image, c + Blank(bs), n - bs);
    if r.Err? {
      MarkIntact(image, bs);
      PartMark(image, c, n, bs);
    }
  }

  lemma BlankSteps(len: nat, n: nat, bs: nat)
    requires bs > 0 && bs % 4 == 0 && n % bs == 0 && n % 4 == 0 && n >= bs
    ensures bs % bs == 0 && (n - bs) % bs == 0 && (n - bs) % 4 == 0 && (len + bs) / bs <= (len + n) / bs
  {
    FourLeft(n, bs);
    BlocksLeft(n, bs);
    DivMonotone(len + bs, len + n, bs);
  }

  lemma FourLeft(n: nat, bs: nat)
    requires n % 4 == 0 && bs % 4 == 0 && n >= bs
    ensures (n - bs) % 4 == 0
  {
  }

  lemma BlocksLeft(n: nat, bs: nat)
    requires bs > 0 && n % bs == 0 && n >= bs
    ensures bs % bs == 0 && (n - bs) % bs == 0
  {
    MulMod(1, bs);
    MultiplesClosed(n, bs, bs);
  }

  lemma MarkIntact(image: ImageHandler, bs: nat)
    requires image.Intact() && (image.isSparse ==> S.CHUNK_HDR_SZ + bs < U32)
    ensures image.isSparse ==> SpoiledBy(image, bs)
  {
    hide S.Decode;
  }

  lemma PartNone(image: ImageHandler, c: bytes, x: bytes, n: nat)
    requires image.Anchored() && image.Contents() == c && SpoiledBy(image, n)
    ensures PartOf(image, c, x, n)
  {
    hide ImageHandler.Contents, ImageHandler.Anchored, SpoiledBy;
    assert image.Contents() == c + x[..0];
  }

  lemma PartMark(image: ImageHandler, c: bytes, n: nat, bs: nat)
    requires 8 <= bs <= n && image.Anchored() && image.Contents() == c + Blank(bs) && SpoiledBy(image, bs)
    ensures PartOf(image, c, Blank(n), bs)
  {
    hide ImageHandler.Contents, ImageHandler.Anchored, SpoiledBy;
    assert Blank(n)[..bs] == Blank(bs);
    assert image.Contents() == c + Blank(n)[..bs];
  }

  /** Appends raw data. */
  method AppendPiece(image: ImageHandler, ghost c: bytes, data: bytes) returns (r: Result<()>)
    requires image.Valid() && !image.readOnly && image.blockSize > 0 && image.Contents() == c
    requires |data| % image.blockSize == 0
    modifies image
    ensures image.isSparse == old(image.isSparse) && image.blockSize == old(image.blockSize)
    ensures r.Ok? <==> old(Takes(image, 1, |c| + |data|, |data|))
    ensures r.Ok? ==> image.Valid() && image.Contents() == c + data && A.Longer(image, 1)
    ensures r.Err? ==> image.Anchored() && image.Contents() == c && SpoiledBy(image, |data|)
  {
    hide ImageHandler.Contents, ImageHandler.Valid, ImageHandler.Anchored, Overflows, S.Decode;
    image.BlockSizePositive();
    image.ValidIsIntact();
    r := A.AppendFirst(image, data);
  }

  method AppendZeros(image: ImageHandler, ghost c: bytes, n: nat) returns (r: Result<()>)
    requires image.Valid() && !image.readOnly && image.blockSize >= SIZE && image.Contents() == c
    requires n % image.blockSize == 0 && n % 4 == 0
    modifies image
    ensures image.isSparse == old(image.isSparse) && image.blockSize == old(image.blockSize)
    ensures r.Ok? <==> old(A.Roomy(image, 1, |c| + n))
    ensures r.Ok? ==>
              image.Valid() && image.Contents() == c + SparseLayout.Pattern([0, 0, 0, 0], n) && A.Longer(image, 1)
    ensures r.Err? ==> image.SameImage() && image.Intact()
  {
    hide ImageHandler.Contents, ImageHandler.Valid, ImageHandler.Anchored, ImageHandler.Room, S.Decode;
    image.ValidIsIntact();
    if image.isSparse {
      image.RoomIff(n, 4);
    }
    r := image.AppendFill([0, 0, 0, 0], n);
  }

  lemma BlankInTwo(c: bytes, n: nat, bs: nat)
    requires 8 <= bs <= n
    ensures c + Blank(n) == (c + Blank(bs)) + SparseLayout.Pattern([0, 0, 0, 0], n - bs)
  {
    ZerosPattern(n - bs);
  }

  lemma ZerosPattern(n: nat)
    ensures SparseLayout.Pattern([0, 0, 0, 0], n) == Zeros(n)
  {
    var p := SparseLayout.Pattern([0, 0, 0, 0], n);
    assert forall i :: 0 <= i < n ==> p[i] == 0;
  }

  /**
    zero_hashtree: with room in a sparse image, and on any plain one, it blanks exactly the tree. A refusal changes
    nothing; a failure on the way, there being no rollback, leaves what LeftZeroing says.
   */
  method ZeroHashtreeOf(lib: D.Hashes, image: ImageHandler) returns (r: Result<()>)
    requires image.Valid() && !image.readOnly && image.blockSize >= SIZE
    requires image.isSparse ==> A.ReadsInside(image.Contents())
    requires var d := Target(lib, image.Contents());
             d.Ok? ==> && Blankable(d.value, |image.Contents()|, image.blockSize)
                       && (!image.isSparse ==> d.value.treeOffset >= 28)
    modifies image
    ensures image.isSparse == old(image.isSparse) && image.blockSize == old(image.blockSize)
    ensures match old(Target(lib, image.Contents()))
            case Err(_) => r.Err? && image.SameImage() && image.file == old(image.file)
            case Ok(d) =>
              && (r.Ok? <==> old(BlankRoom(image, d)))
              && (r.Ok? ==> image.Valid() && image.Contents() == Blanked(old(image.Contents()), d))
              && (r.Err? ==> LeftZeroing(image, old(image.Contents()), d))
  {
    hide ImageHandler.Contents, ImageHandler.Valid, ImageHandler.Anchored, Blanked, Target, Blankable, RegionEnd,
      LeftZeroing, KeptChunks;
    var d := FindTarget(lib, image);
    if d.Err? {
      return Err(d.error);
    }
    r := BlankRegion(image, d.value, image.Contents());
  }

  /** The chunks written: two for each region, and one for the tail. */
  function ChunksWritten(d: D.Descriptor): nat
    requires d.Hashtree?
  {
    if d.fecOffset > 0 then 5 else 3
  }

  /** A sparse image can take the chunks written, and a block and the tail each fit one. */
  ghost predicate BlankRoom(image: ImageHandler, d: D.Descriptor)
    requires image.Valid() && d.Hashtree? && RegionEnd(d) <= |image.Contents()|
    reads image
  {
    image.isSparse ==>
      && image.ChunksAfter(d.treeOffset) + ChunksWritten(d) < U32
      && S.CHUNK_HDR_SZ + image.blockSize < U32 && S.CHUNK_HDR_SZ + (|image.Contents()| - RegionEnd(d)) < U32
  }

  /** What is in front of the tree, part of the blank regions and no tail; spoiled if the next raw chunk overflowed. */
  ghost predicate LeftZeroing(image: ImageHandler, c: bytes, d: D.Descriptor)
    requires d.Hashtree? && RegionEnd(d) <= |c| && d.treeSize >= 8 && (d.fecOffset > 0 ==> d.fecSize >= 8)
    reads image
  {
    || PartOf(image, c[..d.treeOffset], Regions(d), image.blockSize)
    || (&& image.Anchored() && image.Contents() == c[..d.treeOffset] + Regions(d)
        && SpoiledBy(image, |c| - RegionEnd(d)))
  }

  method FindTarget(lib: D.Hashes, image: ImageHandler) returns (r: Result<D.Descriptor>)
    requires image.Valid() && (image.isSparse ==> A.ReadsInside(image.Contents()))
    modifies image`filePos
    ensures image.Valid() && r == Target(lib, image.Contents())
  {
    hide ImageHandler.Contents, ImageHandler.Valid, ImageHandler.Anchored, ParseImage;
    var p := A.ParseImageFile(lib, image);
    if p.Err? {
      return Err(p.error);
    }
    if p.value.0.None? {
      return Err(AvbError);
    }
    var ds := p.value.2;
    for i := 0 to |ds|
      invariant FirstHashtree(ds) == FirstHashtree(ds[i..])
    {
      if ds[i].Hashtree? {
        var d := ds[i];
        if d.fecOffset > 0 && d.fecOffset != d.treeOffset + d.treeSize {
          return Err(AvbError);
        }
        return Ok(d);
      }
      assert ds[i..][1..] == ds[i + 1..];
    }
    return Err(AvbError);
  }

  /** Writes the blank regions behind what is in front of the tree. */
  method WriteRegions(image: ImageHandler, ghost c: bytes, d: D.Descriptor, ghost size: nat) returns (r: Result<()>)
    requires image.Valid() && !image.readOnly && image.blockSize >= SIZE && image.Contents() == c
    requires d.Hashtree? && Blankable(d, size, image.blockSize) && |c| == d.treeOffset
    modifies image
    ensures image.isSparse == old(image.isSparse) && image.blockSize == old(image.blockSize)
    ensures r.Ok? <==> old(Takes(image, ChunksWritten(d) - 1, |c| + |Regions(d)|, image.blockSize))
    ensures r.Ok? ==> image.Valid() && image.Contents() == c + Regions(d) && A.Longer(image, ChunksWritten(d) - 1)
    ensures r.Err? ==> PartOf(image, c, Regions(d), image.blockSize)
  {
    hide ImageHandler.Contents, ImageHandler.Valid, ImageHandler.Anchored, Blank, SpoiledBy;
    ghost var tree := Blank(d.treeSize);
    assert tree + [] == tree;
    DivMonotone(|c| + d.treeSize, |c| + |Regions(d)|, image.blockSize);
    r := AppendBlank(image, c, d.treeSize);
    if r.Err? {
      PartExtends(image, c, tree, Regions(d)[d.treeSize..], image.blockSize);
    } else if d.fecOffset > 0 {
      Assoc(c, tree, Blank(d.fecSize));
      r := AppendBlank(image, c + tree, d.fecSize);
      if r.Err? {
        PartBehind(image, c, tree, Blank(d.fecSize), image.blockSize);
      }
    }
  }

  lemma PartExtends(image: ImageHandler, c: bytes, x: bytes, y: bytes, n: nat)
    requires PartOf(image, c, x, n)
    ensures PartOf(image, c, x + y, n)
  {
    hide ImageHandler.Contents, ImageHandler.Anchored, SpoiledBy;
    var k: nat :| k <= |x| && image.Contents() == c + x[..k];
    assert (x + y)[..k] == x[..k];
  }

  lemma PartBehind(image: ImageHandler, c: bytes, x: bytes, y: bytes, n: nat)
    requires PartOf(image, c + x, y, n)
    ensures PartOf(image, c, x + y, n)
  {
    hide ImageHandler.Contents, ImageHandler.Anchored, SpoiledBy;
    var k: nat :| k <= |y| && image.Contents() == (c + x) + y[..k];
    assert (x + y)[..|x| + k] == x + y[..k];
    Assoc(c, x, y[..k]);
  }

  /** Cuts off the tree and what is behind it; the tail behind the region is kept aside. */
  method CutTail(image: ImageHandler, at: nat, end: nat, ghost c: bytes) returns (r: Result<()>, data: bytes)
    requires image.Valid() && !image.readOnly && image.Contents() == c && at <= end <= |c| && |c| > 0
    requires at % image.blockSize == 0 && (!image.isSparse ==> at >= 28)
    modifies image
    ensures image.isSparse == old(image.isSparse) && image.blockSize == old(image.blockSize)
    ensures r.Ok? && image.Valid() && image.Contents() == c[..at] && data == c[end..]
    ensures image.isSparse ==> |image.sp.chunks| == old(image.ChunksAfter(at))
  {
    hide ImageHandler.Contents, ImageHandler.Valid, ImageHandler.Anchored, Slice, ImageHandler.Room, KeptChunks;
    image.BlockSizePositive();
    data := A.ReadAt(image, end, image.imageSize - end);
    SliceToEnd(c, end);
    ResizeShorter(c, at);
    r := image.Truncate(at);
  }

  /** Cuts at the tree, writes the blank regions and puts the tail back. */
  method BlankRegion(image: ImageHandler, d: D.Descriptor, ghost c: bytes) returns (r: Result<()>)
    requires image.Valid() && !image.readOnly && image.blockSize >= SIZE && image.Contents() == c
    requires d.Hashtree? && Blankable(d, |c|, image.blockSize) && (!image.isSparse ==> d.treeOffset >= 28)
    modifies image
    ensures image.isSparse == old(image.isSparse) && image.blockSize == old(image.blockSize)
    ensures r.Ok? <==> old(BlankRoom(image, d))
    ensures r.Ok? ==> image.Valid() && image.Contents() == Blanked(c, d)
    ensures r.Err? ==> LeftZeroing(image, c, d)
  {
    hide ImageHandler.Contents, ImageHandler.Valid, ImageHandler.Anchored, Blankable, RegionEnd, Regions, Blank,
      SpoiledBy, PartOf, KeptChunks;
    EndAligned(d, |c|, image.blockSize);
    if image.isSparse {
      image.BlocksFit();
      DivMonotone(RegionEnd(d), |c|, image.blockSize);
    }
    ghost var front := c[..d.treeOffset];
    var data;
    r, data := CutTail(image, d.treeOffset, RegionEnd(d), c);
    r := WriteRegions(image, front, d, |c|);
    if r.Ok? {
      r := AppendPiece(image, front + Regions(d), data);
    }
  }

  lemma EndAligned(d: D.Descriptor, size: nat, bs: nat)
    requires d.Hashtree? && bs >= SIZE && Blankable(d, size, bs)
    ensures (size - RegionEnd(d)) % bs == 0 && d.treeOffset % bs == 0
    ensures d.treeOffset <= RegionEnd(d) <= size && size > 0
    ensures d.treeSize >= 8 && (d.fecOffset > 0 ==> d.fecSize >= 8) && |Regions(d)| == RegionEnd(d) - d.treeOffset
  {
    MultiplesClosed(d.treeOffset, d.treeSize, bs);
    var n := d.treeOffset + d.treeSize;
    if d.fecOffset > 0 {
      MultiplesClosed(n, d.fecSize, bs);
    }
    MultiplesClosed(size, RegionEnd(d), bs);
  }
}
