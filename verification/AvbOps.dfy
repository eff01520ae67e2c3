/** The footer commands on image files, plain or sparse, against their meaning on flat content. */
module AvbCommands {
  import opened Bytes
  import D = Descriptors
  import VbMeta
  import opened Footers
  import HashFooter
  import S = SparseFormat
  import opened ImageHandling

  /** seek and read */
  method ReadAt(image: ImageHandler, at: nat, n: nat) returns (data: bytes)
    requires image.Valid() && (image.isSparse ==> at <= |image.Contents()|)
    requires image.isSparse ==> |image.Contents()| > 0 || n == 0
    modifies image`filePos
    ensures image.Valid() && data == Slice(image.Contents(), at, at + n) && image.filePos == at + |data|
  {
    hide ImageHandler.Anchored, ImageHandler.Valid, ImageHandler.Contents, Slice;
    image.BlockSizePositive();
    image.ChunksNonEmpty();
    var s := image.Seek(at);
    var r := image.Read(n);
    return r.value;
  }

  /** Parsing a vbmeta struct at off starts every read inside the image, as a sparse image needs. */
  predicate ReadsInsideAt(c: bytes, off: nat) {
    && off <= |c|
    && var h := VbMeta.ParseHeader(Slice(c, off, off + VbMeta.HEADER_SIZE));
       h.Ok? ==> off + VbMeta.HEADER_SIZE + h.value.authSize + h.value.descriptorsOffset <= |c|
  }

  predicate ReadsInside(c: bytes) {
    |c| >= SIZE ==> ReadsInsideAt(c, if FooterOf(c).Some? then FooterOf(c).value.vbmetaOffset else 0)
  }

  /** The footer at the end of the image, if any. */
  method ReadFooter(image: ImageHandler) returns (f: Option<Footer>)
    requires image.Valid() && |image.Contents()| >= SIZE
    modifies image`filePos
    ensures image.Valid() && f == FooterOf(image.Contents())
  {
    hide ImageHandler.Anchored, ImageHandler.Valid, ImageHandler.Contents, Parse;
    image.BlockSizePositive();
    var data := ReadAt(image, image.imageSize - SIZE, SIZE);
    assert data == image.Contents()[image.imageSize - SIZE..];
    var p := Parse(data);
    f := if p.Ok? then Some(p.value) else None;
  }

  /** Header and descriptors of the vbmeta struct at off. */
  method ParseFileAt(lib: D.Hashes, image: ImageHandler, off: nat)
    returns (r: Result<(VbMeta.Header, seq<D.Descriptor>)>)
    requires image.Valid() && |image.Contents()| > 0
    requires image.isSparse ==> ReadsInsideAt(image.Contents(), off)
    modifies image`filePos
    ensures image.Valid() && r == VbMeta.ParseAt(lib, image.Contents(), off)
  {
    hide ImageHandler.Anchored, ImageHandler.Valid, ImageHandler.Contents, Slice, VbMeta.ParseHeader, D.Parse;
    var headerData := ReadAt(image, off, VbMeta.HEADER_SIZE);
    var h := VbMeta.ParseHeader(headerData);
    if h.Err? {
      return Err(h.error);
    }
    var at := off + VbMeta.HEADER_SIZE + h.value.authSize + h.value.descriptorsOffset;
    var data := ReadAt(image, at, h.value.descriptorsSize);
    var ds := D.ParseDescriptors(lib, data);
    if ds.Err? {
      return Err(ds.error);
    }
    return Ok((h.value, ds.value));
  }

  /** _parse_image */
  method ParseImageFile(lib: D.Hashes, image: ImageHandler)
    returns (r: Result<(Option<Footer>, VbMeta.Header, seq<D.Descriptor>)>)
    requires image.Valid() && (image.isSparse ==> ReadsInside(image.Contents()))
    modifies image`filePos
    ensures image.Valid() && r == ParseImage(lib, image.Contents())
  {
    hide ImageHandler.Anchored, ImageHandler.Valid, ImageHandler.Contents, FooterOf, VbMeta.ParseAt, ReadsInsideAt;
    image.BlockSizePositive();
    if image.imageSize < SIZE {
      return Err(RuntimeError);
    }
    var f := ReadFooter(image);
    var v := ParseFileAt(lib, image, if f.Some? then f.value.vbmetaOffset else 0);
    if v.Err? {
      return Err(v.error);
    }
    return Ok((f, v.value.0, v.value.1));
  }

  /** erase_footer: fails on the same images as on flat content, and otherwise cuts to the original size. */
  method EraseFooterOf(lib: D.Hashes, image: ImageHandler) returns (r: Result<()>)
    requires image.Valid() && (image.isSparse ==> ReadsInside(image.Contents())) && !image.readOnly
    modifies image
    ensures r.Ok? ==>
              && image.Valid() && EraseFooter(lib, old(image.Contents())) == Ok(image.Contents())
              && image.isSparse == old(image.isSparse) && image.blockSize == old(image.blockSize)
    ensures old(EraseFooter(lib, image.Contents())).Err? ==>
              r.Err? && image.SameImage() && image.file == old(image.file)
    ensures r.Err? && old(image.isSparse) ==> image.SameImage() && image.file == old(image.file)
    ensures old(EraseFooter(lib, image.Contents())).Ok? ==>
              (r.Ok? <==>
                 var n := |old(EraseFooter(lib, image.Contents())).value|;
                 if old(image.isSparse) then
                   && n % old(image.blockSize) == 0
                   && (n > old(image.imageSize) ==> old(image.Room(n - image.imageSize, 0)))
                 else n >= 28)
  {
    hide ImageHandler.Anchored, ImageHandler.Contents, ParseImage, ReadsInside, Resize, ImageHandler.Room;
    var p := ParseImageFile(lib, image);
    if p.Err? {
      return Err(p.error);
    }
    if p.value.0.None? {
      return Err(AvbError);
    }
    r := image.Truncate(p.value.0.value.originalImageSize);
  }

  /** The checks of resize_image; the footer to be moved. */
  method CheckResize(lib: D.Hashes, image: ImageHandler, partitionSize: nat) returns (r: Result<Footer>)
    requires image.Valid() && (image.isSparse ==> ReadsInside(image.Contents())) && image.blockSize >= SIZE
    modifies image`filePos
    ensures image.Valid()
    ensures r.Err? ==> ResizeImage(lib, image.Contents(), image.blockSize, partitionSize).Err?
    ensures r.Ok? ==>
              var f, bs, c := r.value, image.blockSize, image.Contents();
              var end := RoundToMultiple(f.vbmetaOffset + f.vbmetaSize, bs);
              && WF(f) && FooterEnd(c) == f.vbmetaOffset + f.vbmetaSize
              && partitionSize % bs == 0 && end + bs <= partitionSize
              && ResizeImage(lib, c, bs, partitionSize)
                 == Ok(Resize(Resize(c, end), partitionSize - bs) + FooterBlock(f, bs))
  {
    hide ImageHandler.Anchored, ImageHandler.Contents, ImageHandler.Valid, ReadsInside, Resize, FooterOf,
      FooterBlock, RoundToMultiple, VbMeta.ParseAt, WF;
    if partitionSize % image.blockSize != 0 {
      return Err(AvbError);
    }
    var p := ParseImageFile(lib, image);
    if p.Err? {
      return Err(p.error);
    }
    if p.value.0.None? {
      return Err(AvbError);
    }
    var f := p.value.0.value;
    FooterOfIsWF(image.Contents());
    if partitionSize < RoundToMultiple(f.vbmetaOffset + f.vbmetaSize, image.blockSize) + image.blockSize {
      return Err(AvbError);
    }
    return Ok(f);
  }

  /** Cuts at end, fills up and writes the footer block. */
  method MoveFooter(image: ImageHandler, end: nat, f: Footer, partitionSize: nat) returns (r: Result<()>)
    requires image.Valid() && !image.readOnly && image.blockSize >= SIZE && WF(f)
    requires partitionSize % image.blockSize == 0 && end % image.blockSize == 0
    requires end + image.blockSize <= partitionSize
    modifies image
    ensures image.isSparse == old(image.isSparse) && image.blockSize == old(image.blockSize)
    ensures r.Ok? <==> if image.isSparse then old(Movable(image, end, partitionSize)) else end > 0
    ensures r.Ok? ==>
              && image.Valid()
              && image.Contents() == Resize(Resize(old(image.Contents()), end), partitionSize - image.blockSize)
                                     + FooterBlock(f, image.blockSize)
    ensures r.Err? ==> LeftMoving(image, end, partitionSize)
  {
    hide ImageHandler.Contents, ImageHandler.Valid, Resize, ImageHandler.Room, FooterBlock, WF, ImageHandler.Anchored,
      Overflows, S.Decode, KeptChunks;
    image.BlockSizePositive();
    if end > 0 {
      MultiplesGap(image.blockSize, end, image.blockSize);
    }
    if image.isSparse {
      GrowthRoom(image, end, partitionSize);
    }
    r := image.Truncate(end);
    if r.Err? {
      return;
    }
    image.ValidIsIntact();
    r := Finish(image, f, partitionSize);
  }

  /** A sparse image has room for filling and footer block once it is cut, or grown, to end. */
  ghost predicate Movable(image: ImageHandler, end: nat, partitionSize: nat)
    requires image.blockSize > 0
    reads image
  {
    && image.ChunksAfter(end) + 2 < U32 && partitionSize / image.blockSize < U32
    && S.CHUNK_HDR_SZ + image.blockSize < U32
  }

  /** Growing to end needs no more than all that follows. */
  lemma GrowthRoom(image: ImageHandler, end: nat, partitionSize: nat)
    requires image.Valid() && image.isSparse && image.blockSize > 0 && end % image.blockSize == 0
    requires end <= partitionSize
    ensures end > image.imageSize && Movable(image, end, partitionSize) ==> image.Room(end - image.imageSize, 0)
  {
    hide ImageHandler.Contents, ImageHandler.Valid, ImageHandler.Room, ImageHandler.Anchored;
    image.BlockSizePositive();
    image.WholeBlocks();
    if end > image.imageSize {
      MultiplesClosed(end, image.imageSize, image.blockSize);
      image.RoomIff(end - image.imageSize, 0);
      DivMonotone(end, partitionSize, image.blockSize);
    }
  }

  /**
    What a failure on the way leaves, there being no rollback: a sparse file as it was, cut, or filled up as well; it
    can be opened unless the chunk of the footer block overflowed. A plain file has been emptied.
   */
  twostate predicate LeftMoving(image: ImageHandler, end: nat, partitionSize: nat)
    requires old(image.Valid())
    reads image
  {
    && (!image.isSparse ==> image.file == [])
    && (image.isSparse ==>
          || (image.SameImage() && image.file == old(image.file))
          || (image.Anchored() && image.Contents() == Resize(old(image.Contents()), end) && image.Intact())
          || FilledTo(image, Resize(old(image.Contents()), end), partitionSize))
  }

  /** Filled up from content w, and perhaps spoiled by the footer block. */
  ghost predicate FilledTo(image: ImageHandler, w: bytes, partitionSize: nat)
    reads image
  {
    && image.Anchored() && partitionSize >= image.blockSize
    && image.Contents() == Resize(w, partitionSize - image.blockSize)
    && if Overflows(image.sp, image.blockSize) then S.Decode(image.file).Err? else image.Intact()
  }

  /** resize_image: on any file it does what it does to flat content, and succeeds where a sparse image has room. */
  method ResizeImageOf(lib: D.Hashes, image: ImageHandler, partitionSize: nat) returns (r: Result<()>)
    requires image.Valid() && (image.isSparse ==> ReadsInside(image.Contents())) && !image.readOnly
    requires image.blockSize >= SIZE
    modifies image
    ensures image.isSparse == old(image.isSparse) && image.blockSize == old(image.blockSize)
    ensures match old(ResizeImage(lib, image.Contents(), image.blockSize, partitionSize))
            case Err(_) => r.Err? && image.SameImage() && image.file == old(image.file)
            case Ok(resized) =>
              var end := RoundToMultiple(FooterEnd(old(image.Contents())), image.blockSize);
              && (r.Ok? <==> if image.isSparse then old(Movable(image, end, partitionSize)) else end > 0)
              && (r.Ok? ==> image.Valid() && image.Contents() == resized)
              && (r.Err? ==> LeftMoving(image, end, partitionSize))
  {
    hide ImageHandler.Contents, ImageHandler.Valid, ReadsInside, Resize, FooterEnd, RoundToMultiple, ImageHandler.Room,
      FooterBlock, WF, ResizeImage, ImageHandler.Anchored, FooterOf, ParseImage, FilledTo, S.Decode, KeptChunks;
    var f := CheckResize(lib, image, partitionSize);
    if f.Err? {
      return Err(f.error);
    }
    r := MoveFooter(image, RoundToMultiple(f.value.vbmetaOffset + f.value.vbmetaSize, image.blockSize), f.value,
                    partitionSize);
  }

  /** Where the blob named by the footer ends. */
  function FooterEnd(c: bytes): nat {
    match FooterOf(c)
    case None => 0
    case Some(f) => f.vbmetaOffset + f.vbmetaSize
  }

  /** A sparse image can hold k more chunks and size bytes. */
  ghost predicate Roomy(image: ImageHandler, k: nat, size: nat)
    requires image.Valid()
    reads image
  {
    image.isSparse ==> image.blockSize > 0 && |image.sp.chunks| + k < U32 && size / image.blockSize < U32
  }

  /** A sparse image has k chunks more. */
  twostate predicate Longer(image: ImageHandler, k: nat)
    reads image
  {
    image.isSparse ==> |image.sp.chunks| == old(|image.sp.chunks|) + k
  }

  /** Fills up to the last block. A plain image that is already longer is silently cut; a sparse one refuses. */
  method FillUp(image: ImageHandler, partitionSize: nat) returns (r: Result<()>)
    requires image.Valid() && !image.readOnly
    requires partitionSize % image.blockSize == 0 && |image.Contents()| % image.blockSize == 0
    requires !image.isSparse ==> partitionSize >= 2 * image.blockSize
    modifies image
    ensures image.isSparse == old(image.isSparse) && image.blockSize == old(image.blockSize)
    ensures !image.isSparse ==> r.Ok?
    ensures image.isSparse ==>
              (r.Ok? <==> && old(|image.Contents()|) + old(image.blockSize) <= partitionSize
                          && old(Roomy(image, 1, partitionSize - image.blockSize)))
    ensures r.Ok? ==>
              && image.Valid() && partitionSize >= image.blockSize && Longer(image, 1)
              && image.Contents() == Resize(old(image.Contents()), partitionSize - image.blockSize)
    ensures r.Err? ==> image.SameImage()
    ensures r.Err? && old(|image.Contents()|) + image.blockSize <= partitionSize ==> image.file == old(image.file)
  {
    hide ImageHandler.Contents, ImageHandler.Valid, Resize, ImageHandler.Anchored, ImageHandler.Room,
      ImageHandler.Spoils, S.Decode;
    image.BlockSizePositive();
    var n := partitionSize - image.imageSize - image.blockSize;
    MultipleOfDifference(partitionSize, image.imageSize, image.blockSize);
    if image.isSparse {
      if n >= 0 {
        image.RoomIff(n, 0);
        image.NotSpoiled(n);
      } else {
        NoNegativeRoom(image, n);
      }
    }
    r := image.AppendDontCare(n);
  }

  lemma NoNegativeRoom(image: ImageHandler, n: int)
    requires image.Valid() && image.isSparse && n < 0
    ensures !image.Room(n, 0)
  {
    hide ImageHandler.Valid;
  }

  /** Fills up to the last block and writes the footer block; the footer is encoded after the filling. */
  method Finish(image: ImageHandler, f: Footer, partitionSize: nat) returns (r: Result<()>)
    requires image.Valid() && !image.readOnly && image.blockSize >= SIZE
    requires partitionSize % image.blockSize == 0 && |image.Contents()| % image.blockSize == 0
    requires !image.isSparse ==> partitionSize >= 2 * image.blockSize
    modifies image
    ensures image.isSparse == old(image.isSparse) && image.blockSize == old(image.blockSize)
    ensures r.Ok? <==>
              && WF(f)
              && (image.isSparse ==>
                    && old(|image.Contents()|) + old(image.blockSize) <= partitionSize
                    && old(Roomy(image, 2, partitionSize)) && S.CHUNK_HDR_SZ + image.blockSize < U32)
    ensures r.Ok? ==>
              && image.Valid() && partitionSize >= image.blockSize
              && image.Contents() == Resize(old(image.Contents()), partitionSize - image.blockSize)
                                     + FooterBlock(f, image.blockSize)
    ensures r.Err? ==>
              && image.Anchored() && (!image.isSparse ==> image.Valid())
              && (image.Contents() == old(image.Contents())
                  || FilledUp(old(image.Contents()), image.Contents(), image.isSparse, image.blockSize, partitionSize))
    ensures r.Err? && WF(f) && old(|image.Contents()|) + image.blockSize <= partitionSize ==>
              || (image.SameImage() && image.file == old(image.file))
              || FilledTo(image, old(image.Contents()), partitionSize)
  {
    hide ImageHandler.Contents, ImageHandler.Valid, Resize, FooterBlock, WF, ImageHandler.Anchored,
      ImageHandler.Room, ImageHandler.Spoils, Overflows, S.Decode;
    image.BlockSizePositive();
    BlocksBelow(partitionSize, image.blockSize);
    r := FillUp(image, partitionSize);
    if r.Err? {
      return;
    }
    if !WF(f) {
      return Err(StructError);
    }
    r := AppendFooterBlock(image, f);
  }

  /** Appends the last block to an image filled up to it. */
  method AppendFooterBlock(image: ImageHandler, f: Footer) returns (r: Result<()>)
    requires image.Valid() && !image.readOnly && image.blockSize >= SIZE && WF(f)
    modifies image
    ensures image.isSparse == old(image.isSparse) && image.blockSize == old(image.blockSize)
    ensures !image.isSparse ==> r.Ok?
    ensures image.isSparse ==>
              (r.Ok? <==> && old(Roomy(image, 1, |image.Contents()| + image.blockSize))
                          && S.CHUNK_HDR_SZ + image.blockSize < U32)
    ensures r.Ok? ==> image.Valid() && image.Contents() == old(image.Contents()) + FooterBlock(f, image.blockSize)
    ensures r.Err? ==> image.SameImage()
    ensures r.Err? ==> if Overflows(image.sp, image.blockSize) then S.Decode(image.file).Err? else image.Intact()
  {
    hide ImageHandler.Contents, ImageHandler.Valid, FooterBlock, WF, ImageHandler.Anchored, ImageHandler.Room,
      ImageHandler.Spoils, Overflows, S.Decode;
    image.BlockSizePositive();
    image.ValidIsIntact();
    MulMod(1, image.blockSize);
    if image.isSparse {
      image.RoomIff(image.blockSize, image.blockSize);
      image.SpoilsIff(image.blockSize);
    }
    r := image.AppendRaw(FooterBlock(f, image.blockSize));
  }

  /** The block count without the last block is smaller. */
  lemma BlocksBelow(size: nat, bs: nat)
    requires bs > 0
    ensures size >= bs ==> (size - bs) / bs <= size / bs
  {
    if size >= bs {
      DivMonotone(size - bs, size, bs);
    }
  }

  /** What filling up leaves. */
  predicate FilledUp(before: bytes, after: bytes, sparse: bool, bs: nat, partitionSize: nat) {
    && partitionSize >= bs && after == Resize(before, partitionSize - bs)
    && (sparse ==> |before| + bs <= partitionSize)
  }

  /** What an image must look like for the blob and the footer to be put behind its content. */
  ghost predicate Stage(image: ImageHandler, partitionSize: nat)
    reads image
  {
    && image.Valid() && !image.readOnly && image.blockSize >= SIZE && partitionSize % image.blockSize == 0
    && |image.Contents()| + MAX_METADATA_SIZE <= partitionSize
    && (!image.isSparse ==> |image.Contents()| >= 28)
  }

  /** Grows a plain image to whole blocks. */
  method PadPlain(image: ImageHandler)
    requires image.Valid() && !image.readOnly && image.blockSize > 0
    requires !image.isSparse ==> |image.Contents()| >= 28
    modifies image
    ensures image.isSparse == old(image.isSparse) && image.blockSize == old(image.blockSize) && image.Valid()
    ensures image.Contents() == Resize(old(image.Contents()), RoundToMultiple(old(|image.Contents()|), image.blockSize))
    ensures |image.Contents()| % image.blockSize == 0
    ensures image.isSparse ==> image.file == old(image.file) && image.sp == old(image.sp) && image.SameImage()
  {
    hide ImageHandler.Contents, ImageHandler.Valid, ImageHandler.Anchored, Resize, RoundToMultiple, ImageHandler.Room;
    image.BlockSizePositive();
    if image.isSparse {
      image.WholeBlocks();
    }
    ResizeSame(image.Contents());
    if image.imageSize % image.blockSize != 0 {
      var t := image.Truncate(RoundToMultiple(image.imageSize, image.blockSize));
    }
  }

  /** Appends data; a failure, which only a sparse image knows, leaves what LeftBehind says. */
  method AppendFirst(image: ImageHandler, data: bytes) returns (r: Result<()>)
    requires image.Valid() && !image.readOnly && image.blockSize > 0 && |data| % image.blockSize == 0
    modifies image
    ensures image.isSparse == old(image.isSparse) && image.blockSize == old(image.blockSize)
    ensures r.Ok? <==> (image.isSparse ==>
                          old(Roomy(image, 1, |image.Contents()| + |data|)) && S.CHUNK_HDR_SZ + |data| < U32)
    ensures r.Ok? ==> image.Valid() && image.Contents() == old(image.Contents()) + data && Longer(image, 1)
    ensures r.Err? ==> image.SameImage() && LeftBehind(image, |image.Contents()|, |data|)
  {
    hide ImageHandler.Contents, ImageHandler.Valid, ImageHandler.Anchored, ImageHandler.Spoils, ImageHandler.Room,
      S.Decode, Overflows;
    if image.isSparse {
      image.SpoilsIff(|data|);
      image.RoomIff(|data|, |data|);
    }
    r := image.AppendRaw(data);
  }

  /** Grows a plain image to whole blocks and appends the padded blob. */
  method AppendBlob(image: ImageHandler, ghost s: bytes, blob: bytes, partitionSize: nat) returns (r: Result<()>)
    requires Stage(image, partitionSize) && image.Contents() == s
    modifies image
    ensures image.isSparse == old(image.isSparse) && image.blockSize == old(image.blockSize)
    ensures r.Ok? <==> (image.isSparse ==>
                          && old(Roomy(image, 1, |WithBlob(s, blob, image.blockSize)|))
                          && S.CHUNK_HDR_SZ + RoundToMultiple(|blob|, image.blockSize) < U32)
    ensures r.Ok? ==> image.Valid() && image.Contents() == WithBlob(s, blob, image.blockSize) && Longer(image, 1)
    ensures r.Err? ==> image.SameImage() && LeftBehind(image, |s|, RoundToMultiple(|blob|, image.blockSize))
  {
    hide ImageHandler.Contents, ImageHandler.Valid, ImageHandler.Anchored, Resize, RoundToMultiple, Overflows, S.Decode;
    var bs := image.blockSize;
    PadPlain(image);
    r := AppendFirst(image, Resize(blob, RoundToMultiple(|blob|, bs)));
  }

  /**
    What a failure leaves of a sparse image of size bytes when the first chunk appended is to hold n: if that chunk's
    size overflows, a file that cannot be opened; otherwise the file as it was, or one that has grown.
   */
  ghost predicate LeftBehindOf(image: ImageHandler, size: nat, n: nat, sp0: S.Sparse, f0: bytes)
    requires image.Anchored()
    reads image
  {
    if Overflows(sp0, n) then S.Decode(image.file).Err? && |image.Contents()| == size && image.sp == sp0
    else
      || (|image.Contents()| > size && S.CHUNK_HDR_SZ + n < U32)
      || (|image.Contents()| == size && image.file == f0 && image.sp == sp0)
  }

  twostate predicate LeftBehind(image: ImageHandler, size: nat, n: nat)
    requires image.Anchored()
    reads image
  {
    image.isSparse ==> LeftBehindOf(image, size, n, old(image.sp), old(image.file))
  }

  /** The same once the image is cut to its size again: only the overflow is beyond repair. */
  twostate predicate RolledBack(image: ImageHandler, n: nat)
    reads image
  {
    && (image.isSparse ==>
          if Overflows(old(image.sp), n) then S.Decode(image.file).Err? && image.sp == old(image.sp)
          else image.Intact() && !Overflows(image.sp, n))
    && (!image.isSparse ==> image.Intact())
  }

  /** The blob fits, and its padded form and the last block are small enough to be one chunk each. */
  predicate BlobRoom(s: bytes, blob: bytes, bs: nat, partitionSize: nat)
    requires bs > 0
  {
    Fits(s, blob, bs, partitionSize) && RoundToMultiple(|blob|, bs) + 12 < U32 && bs + 12 < U32
  }

  /** Appends blob and footer to content s; after a failure s is still there in front. */
  method AppendBlobAndFooter(image: ImageHandler, original: nat, ghost s: bytes, blob: bytes, partitionSize: nat)
    returns (r: Result<()>)
    requires Stage(image, partitionSize) && image.Contents() == s && blob != []
    modifies image
    ensures image.isSparse == old(image.isSparse) && image.blockSize == old(image.blockSize)
    ensures r.Ok? <==>
              && WF(FooterFor(original, |s|, blob, image.blockSize))
              && (image.isSparse ==>
                    old(Roomy(image, 3, partitionSize)) && BlobRoom(s, blob, image.blockSize, partitionSize))
    ensures r.Ok? ==>
              && image.Valid() && Finished(original, s, image.Contents(), blob, image.blockSize, partitionSize)
              && (image.isSparse ==> Fits(s, blob, image.blockSize, partitionSize))
              && (image.isSparse ==> S.CHUNK_HDR_SZ + RoundToMultiple(|blob|, image.blockSize) < U32)
    ensures r.Err? ==>
              && image.Anchored() && (!image.isSparse ==> image.Valid())
              && |image.Contents()| >= |s| && image.Contents()[..|s|] == s
              && LeftBehind(image, |s|, RoundToMultiple(|blob|, image.blockSize))
  {
    hide ImageHandler.Contents, ImageHandler.Valid, FooterBlock, WF, WithBlob, RoundToMultiple, FooterFor,
      ImageHandler.Anchored, FilledTo, S.Decode, Overflows, BlobRoom, Fits;
    image.BlockSizePositive();
    var bs, size := image.blockSize, image.imageSize;
    ghost var sp := image.sp;
    WithBlobSize(s, blob, bs);
    WithBlobGrows(s, blob, bs);
    RoomSteps(|image.sp.chunks|, s, blob, bs, partitionSize);
    r := AppendBlob(image, s, blob, partitionSize);
    if r.Err? {
      assert s[..|s|] == s;
      return;
    }
    ghost var w := image.Contents();
    r := Finish(image, FooterFor(original, size, blob, bs), partitionSize);
    if r.Err? {
      StillInFront(s, w, image.Contents(), image.isSparse, bs, partitionSize);
      if image.isSparse {
        SmallNeverOverflows(sp, RoundToMultiple(|blob|, bs));
      }
    }
  }

  /** Room for all three chunks behind n others is room for the blob's, and then for the other two. */
  lemma RoomSteps(n: nat, s: bytes, blob: bytes, bs: nat, partitionSize: nat)
    requires bs > 0
    ensures var w, p := |WithBlob(s, blob, bs)|, RoundToMultiple(|blob|, bs);
            (n + 3 < U32 && partitionSize / bs < U32 && BlobRoom(s, blob, bs, partitionSize))
            <==> && n + 1 < U32 && w / bs < U32 && S.CHUNK_HDR_SZ + p < U32
                 && w + bs <= partitionSize && n + 1 + 2 < U32 && partitionSize / bs < U32
                 && S.CHUNK_HDR_SZ + bs < U32
    ensures BlobRoom(s, blob, bs, partitionSize) ==>
              Fits(s, blob, bs, partitionSize) && S.CHUNK_HDR_SZ + RoundToMultiple(|blob|, bs) < U32
  {
    var w := |WithBlob(s, blob, bs)|;
    if w + bs <= partitionSize {
      DivMonotone(w, partitionSize, bs);
    }
  }

  /** Content s, with blob and footer put behind it. */
  ghost predicate Finished(original: nat, s: bytes, x: bytes, blob: bytes, bs: nat, partitionSize: nat) {
    && bs >= SIZE && partitionSize >= bs && WF(FooterFor(original, |s|, blob, bs))
    && x == WithFooter(original, s, blob, bs, partitionSize)
  }

  lemma StillInFront(s: bytes, w: bytes, x: bytes, sparse: bool, bs: nat, partitionSize: nat)
    requires |s| <= |w| && w[..|s|] == s && (!sparse ==> |s| + bs <= partitionSize)
    requires x == w || FilledUp(w, x, sparse, bs, partitionSize)
    ensures |s| <= |x| && x[..|s|] == s
  {
    assert forall i :: 0 <= i < |s| ==> x[i] == w[i] == s[i];
  }

  lemma WithBlobGrows(s: bytes, blob: bytes, bs: nat)
    requires bs > 0 && blob != []
    ensures |WithBlob(s, blob, bs)| > |s|
  {
  }

  lemma WithBlobSize(s: bytes, blob: bytes, bs: nat)
    requires bs > 0
    ensures |WithBlob(s, blob, bs)| % bs == 0 && |WithBlob(s, blob, bs)| >= |s|
    ensures WithBlob(s, blob, bs)[..|s|] == s
  {
    MultiplesClosed(RoundToMultiple(|s|, bs), RoundToMultiple(|blob|, bs), bs);
    hide RoundToMultiple;
    var w := WithBlob(s, blob, bs);
    assert forall i :: 0 <= i < |s| ==> w[i] == s[i];
  }

  /** A sparse image can be cut, or grown, to the content below its footer. */
  ghost predicate Strippable(image: ImageHandler)
    requires image.Valid()
    reads image
  {
    var n := |Stripped(image.Contents())|;
    image.isSparse ==>
      && image.blockSize > 0 && n % image.blockSize == 0
      && (n > image.imageSize ==> image.Room(n - image.imageSize, 0))
  }

  /** The chunks of a sparse image that are left once it is stripped. */
  ghost function ChunksLeft(image: ImageHandler): nat
    requires image.Valid()
    reads image
  {
    if FooterOf(image.Contents()).None? then |image.sp.chunks|
    else image.ChunksAfter(|Stripped(image.Contents())|)
  }

  /** Drops an existing footer and everything behind the original content. */
  method StripFooter(image: ImageHandler) returns (r: Result<()>)
    requires image.Valid() && !image.readOnly
    requires !image.isSparse ==> |Stripped(image.Contents())| >= 28
    modifies image
    ensures image.isSparse == old(image.isSparse) && image.blockSize == old(image.blockSize)
    ensures r.Ok? <==> old(Strippable(image))
    ensures r.Ok? ==> image.Valid() && image.Contents() == Stripped(old(image.Contents()))
    ensures r.Ok? && image.isSparse ==> |image.sp.chunks| == old(ChunksLeft(image))
    ensures r.Ok? && old(FooterOf(image.Contents())).None? ==>
              image.file == old(image.file) && image.sp == old(image.sp)
    ensures r.Err? ==> image.SameImage() && image.file == old(image.file)
  {
    hide ImageHandler.Contents, ImageHandler.Valid, ImageHandler.Anchored, Resize, ImageHandler.Room, FooterOf,
      KeptChunks;
    image.BlockSizePositive();
    if image.isSparse {
      image.WholeBlocks();
    }
    if image.imageSize < SIZE {
      TooSmallForFooter(image.Contents());
      return Ok(());
    }
    var f := ReadFooter(image);
    if f.None? {
      return Ok(());
    }
    r := image.Truncate(f.value.originalImageSize);
  }

  lemma TooSmallForFooter(c: bytes)
    requires |c| < SIZE
    ensures FooterOf(c) == None
  {
  }

  /** All text put into the blob is text. */
  ghost predicate Legible(lib: D.Hashes, a: HashFooter.Args, s: bytes) {
    lib.plain.size(a.algorithm).Some? ==>
      VbMeta.Legible(lib, HashFooter.BlobArgs(a), [HashFooter.HashDescriptor(lib, a, s)], a.images)
  }

  /** Digests the image and generates the blob. */
  method MakeBlob(lib: D.Hashes, a: HashFooter.Args, image: ImageHandler) returns (r: Result<bytes>)
    requires image.Valid() && Legible(lib, a, image.Contents()) && lib.plain.size(a.algorithm).Some?
    modifies image`filePos
    ensures image.Valid()
    ensures r == HashFooter.BlobFor(lib, a, image.Contents())
  {
    hide ImageHandler.Contents, ImageHandler.Valid, ImageHandler.Anchored, VbMeta.Legible, VbMeta.Generated;
    image.BlockSizePositive();
    var data := ReadAt(image, 0, image.imageSize);
    assert data == image.Contents();
    var digest := lib.plain.digest(a.algorithm, a.salt + data);
    var desc := D.Hash(image.imageSize, a.algorithm, a.name, a.salt, if a.persistentDigest then [] else digest,
                       if a.doNotUseAb then 1 else 0);
    r := VbMeta.GenerateVbmetaBlob(lib, HashFooter.BlobArgs(a), [desc], a.images);
  }

  /** A sparse image can be stripped, and has room for the three chunks add_hash_footer then appends. */
  ghost predicate HasRoom(lib: D.Hashes, a: HashFooter.Args, image: ImageHandler)
    requires image.Valid() && image.blockSize > 0
    reads image
  {
    var s := Stripped(image.Contents());
    image.isSparse ==>
      && Strippable(image) && ChunksLeft(image) + 3 < U32 && a.partitionSize / image.blockSize < U32
      && HashFooter.BlobFor(lib, a, s).Ok?
      && BlobRoom(s, HashFooter.BlobFor(lib, a, s).value, image.blockSize, a.partitionSize)
  }

  /** The size of the first chunk add_hash_footer appends to content s, or 0 when it gets no further. */
  ghost function FirstChunk(lib: D.Hashes, a: HashFooter.Args, s: bytes, bs: nat): nat
    requires bs > 0
  {
    if Addable(lib, a, s, bs) then RoundToMultiple(|HashFooter.BlobFor(lib, a, s).value|, bs) else 0
  }

  /**
    add_hash_footer. It succeeds exactly when it does on flat content and, in a sparse image, there is room, and then
    the image holds that result. After a failure behind the stripping the file reads as the stripped content again,
    unless it is sparse and the padded blob overflows the size field of its chunk: then it cannot be opened any more.
   */
  method AddHashFooter(lib: D.Hashes, a: HashFooter.Args, image: ImageHandler) returns (r: Result<()>)
    requires image.Valid() && !image.readOnly && image.blockSize >= SIZE
    requires Legible(lib, a, Stripped(image.Contents()))
    requires !image.isSparse ==> |Stripped(image.Contents())| >= 28
    modifies image
    ensures image.isSparse == old(image.isSparse) && image.blockSize == old(image.blockSize)
    ensures r.Ok? <==>
              old(HashFooter.Add(lib, a, image.Contents(), image.blockSize)).Ok? && old(HasRoom(lib, a, image))
    ensures r.Ok? ==>
              image.Valid() && Ok(image.Contents()) == old(HashFooter.Add(lib, a, image.Contents(), image.blockSize))
    ensures r.Ok? && image.isSparse ==> old(HashFooter.BlobFitsPartition(lib, a, image.Contents(), image.blockSize))
    ensures r.Ok? && image.isSparse ==>
              S.CHUNK_HDR_SZ + FirstChunk(lib, a, Stripped(old(image.Contents())), image.blockSize) < U32
    ensures r.Err? && (a.partitionSize < MAX_METADATA_SIZE || !old(Strippable(image))) ==>
              image.SameImage() && image.file == old(image.file)
    ensures r.Err? && a.partitionSize >= MAX_METADATA_SIZE && old(Strippable(image)) ==>
              && image.Anchored() && image.Contents() == Stripped(old(image.Contents()))
              && Left(image, FirstChunk(lib, a, Stripped(old(image.Contents())), image.blockSize))
  {
    hide ImageHandler.Contents, ImageHandler.Valid, ImageHandler.Anchored, Legible, HashFooter.BlobFor, Stripped,
      WithFooter, WF, FooterFor, Fits, Overflows, FooterOf, ImageHandler.Intact, BlobRoom, ImageHandler.Room,
      KeptChunks;
    if a.partitionSize < MAX_METADATA_SIZE {
      return Err(AvbError);
    }
    r := StripFooter(image);
    if r.Err? {
      return;
    }
    ghost var bs, s := image.blockSize, image.Contents();
    r := AddToStripped(lib, a, image, s);
  }

  /**
    The file after a failure and its rollback: a sparse one is beyond repair exactly when the first chunk overflows. The
    chunk list is the one behind the stripping, and the original one when there was no footer to strip.
   */
  twostate predicate Left(image: ImageHandler, n: nat)
    requires old(image.Valid())
    reads image
  {
    && (image.isSparse && Overflows(image.sp, n) ==> S.Decode(image.file).Err?)
    && (!(image.isSparse && Overflows(image.sp, n)) ==> image.Intact())
    && (image.isSparse && old(FooterOf(image.Contents())).None? ==>
          (Overflows(image.sp, n) <==> Overflows(old(image.sp), n)))
  }

  /**
    A sparse and a plain image of equal content with 4096-byte blocks: where the command succeeds on the sparse one it
    does on the plain one, and leaves the same content; the other way round it takes room for the chunks.
   */
  method AddEitherWay(lib: D.Hashes, a: HashFooter.Args, sparse: ImageHandler, plain: ImageHandler)
    returns (r: Result<()>, q: Result<()>)
    requires sparse != plain && sparse.Valid() && plain.Valid() && sparse.isSparse && !plain.isSparse
    requires sparse.blockSize == 4096 && !sparse.readOnly && !plain.readOnly
    requires sparse.Contents() == plain.Contents() && |Stripped(plain.Contents())| >= 28
    requires Legible(lib, a, Stripped(plain.Contents()))
    modifies sparse, plain
    ensures r.Ok? ==>
              && q.Ok? && sparse.Valid() && plain.Valid()
              && sparse.Contents() == plain.Contents() && |plain.Contents()| == a.partitionSize
    ensures old(HasRoom(lib, a, sparse)) ==> (r.Ok? <==> q.Ok?)
  {
    hide ImageHandler.Contents, ImageHandler.Valid, ImageHandler.Anchored, HashFooter.Add, Legible, Stripped,
      Strippable, ChunksLeft, BlobRoom, HashFooter.BlobFitsPartition, HashFooter.BlobFor, ImageHandler.Room, FooterOf;
    plain.BlockSizePositive();
    if HashFooter.Add(lib, a, plain.Contents(), 4096).Ok? {
      HashFooter.AddFillsPartition(lib, a, plain.Contents(), 4096);
    }
    r := AddHashFooter(lib, a, sparse);
    q := AddHashFooter(lib, a, plain);
  }

  /** The part of add_hash_footer behind the stripping, with its rollback. */
  method AddToStripped(lib: D.Hashes, a: HashFooter.Args, image: ImageHandler, ghost s: bytes) returns (r: Result<()>)
    requires image.Valid() && !image.readOnly && image.blockSize >= SIZE && image.Contents() == s
    requires a.partitionSize >= MAX_METADATA_SIZE && Legible(lib, a, s) && (!image.isSparse ==> |s| >= 28)
    modifies image
    ensures image.isSparse == old(image.isSparse) && image.blockSize == old(image.blockSize)
    ensures r.Ok? ==>
              && image.Valid() && Addable(lib, a, s, image.blockSize)
              && Finished(|s|, s, image.Contents(), HashFooter.BlobFor(lib, a, s).value, image.blockSize,
                          a.partitionSize)
              && (image.isSparse ==> Fits(s, HashFooter.BlobFor(lib, a, s).value, image.blockSize, a.partitionSize))
              && (image.isSparse ==> S.CHUNK_HDR_SZ + FirstChunk(lib, a, s, image.blockSize) < U32)
    ensures r.Ok? <==>
              && Addable(lib, a, s, image.blockSize)
              && WF(FooterFor(|s|, |s|, HashFooter.BlobFor(lib, a, s).value, image.blockSize))
              && (image.isSparse ==>
                    && old(Roomy(image, 3, a.partitionSize))
                    && BlobRoom(s, HashFooter.BlobFor(lib, a, s).value, image.blockSize, a.partitionSize))
    ensures r.Err? ==>
              && image.Anchored() && image.Contents() == s && RolledBack(image, FirstChunk(lib, a, s, image.blockSize))
  {
    hide ImageHandler.Contents, ImageHandler.Valid, ImageHandler.Anchored, Legible, WF, Finished, Addable, FirstChunk,
      FooterFor, Fits, S.Decode, Overflows, BlobRoom, Roomy, HashFooter.BlobFor;
    image.BlockSizePositive();
    if image.isSparse {
      image.WholeBlocks();
    }
    image.ValidIsIntact();
    var size := image.imageSize;
    ghost var sp, f := image.sp, image.file;
    if a.partitionSize % image.blockSize != 0 {
      NotAddable(lib, a, image.sp, s, image.blockSize);
      return Err(AvbError);
    }
    r := AddOrFail(lib, a, image, s);
    if r.Err? {
      r := RollbackFrom(image, size, s, sp, f, FirstChunk(lib, a, s, image.blockSize));
    }
  }

  lemma NotAddable(lib: D.Hashes, a: HashFooter.Args, sp: S.Sparse, s: bytes, bs: nat)
    requires bs > 0 && a.partitionSize % bs != 0
    ensures !Addable(lib, a, s, bs) && !Overflows(sp, FirstChunk(lib, a, s, bs))
  {
  }

  /** The checks, the blob and the appending; on failure the content is still in front. */
  method AddOrFail(lib: D.Hashes, a: HashFooter.Args, image: ImageHandler, ghost s: bytes) returns (r: Result<()>)
    requires image.Valid() && !image.readOnly && image.blockSize >= SIZE && image.Contents() == s
    requires a.partitionSize >= MAX_METADATA_SIZE && Legible(lib, a, s) && (!image.isSparse ==> |s| >= 28)
    requires a.partitionSize % image.blockSize == 0
    modifies image
    ensures image.isSparse == old(image.isSparse) && image.blockSize == old(image.blockSize)
    ensures r.Ok? ==>
              && image.Valid() && Addable(lib, a, s, image.blockSize)
              && Finished(|s|, s, image.Contents(), HashFooter.BlobFor(lib, a, s).value, image.blockSize,
                          a.partitionSize)
              && (image.isSparse ==> Fits(s, HashFooter.BlobFor(lib, a, s).value, image.blockSize, a.partitionSize))
              && (image.isSparse ==> S.CHUNK_HDR_SZ + FirstChunk(lib, a, s, image.blockSize) < U32)
    ensures r.Ok? <==>
              && Addable(lib, a, s, image.blockSize)
              && WF(FooterFor(|s|, |s|, HashFooter.BlobFor(lib, a, s).value, image.blockSize))
              && (image.isSparse ==>
                    && old(Roomy(image, 3, a.partitionSize))
                    && BlobRoom(s, HashFooter.BlobFor(lib, a, s).value, image.blockSize, a.partitionSize))
    ensures r.Err? ==>
              && image.Anchored() && (!image.isSparse ==> image.Valid())
              && |image.Contents()| >= |s| && image.Contents()[..|s|] == s
              && LeftBehind(image, |s|, FirstChunk(lib, a, s, image.blockSize))
  {
    hide ImageHandler.Contents, ImageHandler.Valid, ImageHandler.Anchored, Legible, HashFooter.BlobFor, WF, Finished,
      FooterFor, Fits, S.Decode, Overflows, BlobRoom, RoundToMultiple;
    NothingOverflows(image.sp);
    image.BlockSizePositive();
    assert s[..|s|] == s;
    if image.imageSize > a.partitionSize - MAX_METADATA_SIZE {
      return Err(AvbError);
    }
    if lib.plain.size(a.algorithm).None? {
      return Err(AvbError);
    }
    var blob := MakeBlob(lib, a, image);
    if blob.Err? {
      return Err(blob.error);
    }
    HashFooter.BlobIsNotEmpty(lib, a, s);
    r := AppendBlobAndFooter(image, image.imageSize, s, blob.value, a.partitionSize);
  }

  lemma NothingOverflows(sp: S.Sparse)
    ensures !Overflows(sp, 0)
  {
  }

  /** The checks of add_hash_footer on stripped content pass. */
  ghost predicate Addable(lib: D.Hashes, a: HashFooter.Args, s: bytes, bs: nat)
    requires bs > 0
  {
    && a.partitionSize % bs == 0 && |s| + MAX_METADATA_SIZE <= a.partitionSize
    && lib.plain.size(a.algorithm).Some? && HashFooter.BlobFor(lib, a, s).Ok?
  }

  /** Truncates to the original size and reports the failure. */
  method Rollback(image: ImageHandler, originalImageSize: nat, ghost s: bytes) returns (r: Result<()>)
    requires image.Anchored() && (!image.isSparse ==> image.Valid() && |s| >= 28) && !image.readOnly
    requires originalImageSize == |s| <= |image.Contents()| && image.Contents()[..|s|] == s
    requires image.isSparse ==> |s| % image.blockSize == 0
    modifies image
    ensures image.isSparse == old(image.isSparse) && image.blockSize == old(image.blockSize)
    ensures r == Err(AvbError) && image.Anchored() && image.Contents() == s
    ensures old(image.Valid()) || |s| < old(image.imageSize) ==> image.Valid()
    ensures image.isSparse && |s| == old(image.imageSize) ==> image.file == old(image.file) && image.sp == old(image.sp)
  {
    hide ImageHandler.Contents, ImageHandler.Valid, ImageHandler.Anchored, Resize, ImageHandler.Room;
    image.BlockSizePositive();
    ResizeShorter(image.Contents(), |s|);
    r := image.Truncate(originalImageSize);
    return Err(AvbError);
  }

  /** Rolling back from what a failure left behind of an image with chunks sp0 in file f0. */
  method RollbackFrom(image: ImageHandler, size: nat, ghost s: bytes, ghost sp0: S.Sparse, ghost f0: bytes,
                      ghost n: nat)
    returns (r: Result<()>)
    requires image.Anchored() && (!image.isSparse ==> image.Valid() && |s| >= 28) && !image.readOnly
    requires size == |s| <= |image.Contents()| && image.Contents()[..|s|] == s
    requires image.isSparse ==> |s| % image.blockSize == 0 && S.Decode(f0) == Ok(Some(sp0))
    requires image.isSparse ==> LeftBehindOf(image, |s|, n, sp0, f0)
    modifies image
    ensures image.isSparse == old(image.isSparse) && image.blockSize == old(image.blockSize)
    ensures r == Err(AvbError) && image.Anchored() && image.Contents() == s
    ensures image.isSparse && Overflows(sp0, n) ==> S.Decode(image.file).Err? && image.sp == sp0
    ensures !(image.isSparse && Overflows(sp0, n)) ==> image.Intact() && (image.isSparse ==> !Overflows(image.sp, n))
  {
    hide ImageHandler.Contents, ImageHandler.Valid, ImageHandler.Anchored, S.Decode, Overflows;
    image.BlockSizePositive();
    r := Rollback(image, size, s);
    if image.Valid() {
      image.ValidIsIntact();
    }
    if S.CHUNK_HDR_SZ + n < U32 {
      SmallNeverOverflows(image.sp, n);
    }
  }

  lemma SmallNeverOverflows(sp: S.Sparse, n: nat)
    requires S.CHUNK_HDR_SZ + n < U32
    ensures !Overflows(sp, n)
  {
  }

  lemma MultipleOfDifference(p: nat, n: nat, bs: nat)
    requires bs > 0 && p % bs == 0 && n % bs == 0
    ensures (p - n - bs) % bs == 0
  {
    var a := MultipleAsProduct(p, bs);
    var b := MultipleAsProduct(n, bs);
    NegativeMultiple(a - b - 1, bs);
    assert p - n - bs == (a - b - 1) * bs;
  }

  lemma NegativeMultiple(k: int, bs: nat)
    requires bs > 0
    ensures (k * bs) % bs == 0
  {
    if k >= 0 {
      MulMod(k, bs);
    } else {
      var q, r := (k * bs) / bs, (k * bs) % bs;
      assert k * bs == q * bs + r;
      Distribute(k, -q, bs);
      assert (k - q) * bs == r;
      if k - q >= 1 { MulGrows(1, k - q, bs); }
      if k - q <= -1 { MulGrows(k - q, -1, bs); }
    }
  }
}
