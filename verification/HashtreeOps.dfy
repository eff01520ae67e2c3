/** add_hashtree_footer and zero_hashtree on image files, against their meaning on flat content. */
module HashtreeCommands {
  import opened Bytes
  import D = Descriptors
  import VbMeta
  import opened Footers
  import S = SparseFormat
  import SparseLayout
  import opened ImageHandling
  import opened HashTree
  import opened HashtreeFooter
  import A = AvbCommands

  /** Grows a plain image to whole blocks. */
  method Grow(image: ImageHandler, ghost s: bytes) returns (r: Result<()>)
    requires image.Valid() && !image.readOnly && image.Contents() == s && image.blockSize > 0
    modifies image
    ensures image.isSparse == old(image.isSparse) && image.blockSize == old(image.blockSize)
    ensures r.Ok? && image.Valid() && image.Contents() == Grown(s, image.blockSize)
    ensures image.isSparse ==> image.file == old(image.file) && image.sp == old(image.sp)
    ensures image.isSparse ==> image.imageSize == old(image.imageSize) == |Grown(s, image.blockSize)| == |s|
  {
    hide ImageHandler.Contents, ImageHandler.Valid, RoundToMultiple, ImageHandler.Anchored;
    image.BlockSizePositive();
    if image.isSparse {
      image.WholeBlocks();
    }
    var rounded := RoundToMultiple(image.imageSize, image.blockSize);
    r := Ok(());
    if rounded > image.imageSize {
      ZerosAppended(s, rounded - image.imageSize);
      r := image.AppendRaw(Zeros(rounded - image.imageSize), false);
    } else {
      ResizeSame(image.Contents());
    }
  }

  /** All text put into the blob is text. */
  ghost predicate Legible(lib: D.Hashes, a: Args, s: bytes, bs: nat)
    requires Usable(lib, a.base.algorithm, bs)
  {
    VbMeta.Legible(lib, BlobArgs(a), [HashtreeDescriptor(lib, a, s, bs)], a.base.images)
  }

  /** Level offsets first, then the tree over the whole image. */
  method TreeOver(image: ImageHandler, p: Params, ghost t: bytes) returns (root: bytes, tree: bytes)
    requires p.WF() && image.Valid() && image.Contents() == t && p.bs <= |t|
    modifies image`filePos
    ensures image.Valid() && image.Contents() == t
    ensures root == Root(p, t) && tree == Tree(p, t)
  {
    hide ImageHandler.Contents, ImageHandler.Valid, ImageHandler.Anchored, Tree, Root, LevelSizes, Offsets, TreeSize;
    image.BlockSizePositive();
    var offsets, treeSize := CalcHashLevelOffsets(image.imageSize, p.bs, p.EntrySize());
    assert t[..image.imageSize] == t;
    root, tree := GenerateHashTree(image, image.imageSize, p, offsets, treeSize);
  }

  /** Generates the tree to store and its descriptor. */
  method MakeTree(lib: D.Hashes, a: Args, image: ImageHandler, ghost s: bytes) returns (d: D.Descriptor, tree: bytes)
    requires image.Valid() && s != []
    requires Usable(lib, a.base.algorithm, image.blockSize) && image.Contents() == Grown(s, image.blockSize)
    modifies image`filePos
    ensures image.Valid()
    ensures d == HashtreeDescriptor(lib, a, s, image.blockSize) && tree == StoredTree(lib, a, s, image.blockSize)
  {
    hide ImageHandler.Contents, ImageHandler.Valid, ImageHandler.Anchored, TreeParams, Tree, Root, Params.WF, Grown;
    ParamsWF(lib, a, image.blockSize);
    NonEmptyGrown(s, image.blockSize);
    image.BlockSizePositive();
    var bs, size := image.blockSize, image.imageSize;
    var root;
    root, tree := TreeOver(image, TreeParams(lib, a, bs), Grown(s, bs));
    if a.noHashtree {
      tree := [];
    }
    d := D.Hashtree(1, size, size, |tree|, bs, bs, 0, 0, 0, a.base.algorithm, a.base.name, a.base.salt,
                    if a.base.persistentDigest then [] else root,
                    (if a.base.doNotUseAb then 1 else 0) + (if a.checkAtMostOnce then 2 else 0));
  }

  /** Generates the tree and its descriptor, and stores the tree behind the content. */
  method StoreTree(lib: D.Hashes, a: Args, image: ImageHandler, ghost s: bytes) returns (r: Result<D.Descriptor>)
    requires image.Valid() && !image.readOnly && s != []
    requires Usable(lib, a.base.algorithm, image.blockSize) && image.Contents() == Grown(s, image.blockSize)
    modifies image
    ensures image.isSparse == old(image.isSparse) && image.blockSize == old(image.blockSize)
    ensures r.Ok? <==> old(Storable(image, StoredTree(lib, a, s, image.blockSize)))
    ensures r.Ok? ==>
              && image.Valid() && image.Contents() == Body(lib, a, s, image.blockSize)
              && r.value == HashtreeDescriptor(lib, a, s, image.blockSize)
              && Appended(image, |StoredTree(lib, a, s, image.blockSize)|)
    ensures r.Err? ==>
              && image.SameImage() && StoredTree(lib, a, s, image.blockSize) != []
              && A.LeftBehind(image, |image.Contents()|, |StoredTree(lib, a, s, image.blockSize)|)
  {
    hide ImageHandler.Contents, ImageHandler.Valid, ImageHandler.Anchored, StoredTree, HashtreeDescriptor, Grown;
    StoredTreeWhole(lib, a, s, image.blockSize);
    var d, tree := MakeTree(lib, a, image, s);
    var u := AppendTree(image, tree);
    if u.Err? {
      return Err(u.error);
    }
    return Ok(d);
  }

  lemma StoredTreeWhole(lib: D.Hashes, a: Args, s: bytes, bs: nat)
    requires Usable(lib, a.base.algorithm, bs)
    ensures |StoredTree(lib, a, s, bs)| % bs == 0
  {
    ParamsWF(lib, a, bs);
    MulMod(0, bs);
    TreeSizeWhole(|Grown(s, bs)|, bs, RoundToPow2(lib.tree.size(a.base.algorithm).value));
  }

  lemma NonEmptyGrown(s: bytes, bs: nat)
    requires s != [] && bs > 0
    ensures |Grown(s, bs)| >= bs
  {
    MulMod(1, bs);
    MultiplesGap(bs, RoundToMultiple(|s|, bs), bs);
  }

  /** The chunks a tree takes. */
  function TreeChunks(tree: bytes): nat {
    if tree == [] then 0 else 1
  }

  /** A sparse image has room for the tree, if there is one. */
  ghost predicate Storable(image: ImageHandler, tree: bytes)
    requires image.Valid()
    reads image
  {
    image.isSparse && tree != [] ==>
      A.Roomy(image, 1, |image.Contents()| + |tree|) && S.CHUNK_HDR_SZ + |tree| < U32
  }

  /** What appending n bytes tells of a sparse image: their size fits a chunk, or there was nothing to append. */
  twostate predicate Appended(image: ImageHandler, n: nat)
    reads image
  {
    image.isSparse ==>
      if n > 0 then S.CHUNK_HDR_SZ + n < U32 && A.Longer(image, 1)
      else image.file == old(image.file) && image.sp == old(image.sp)
  }

  /** Appends the tree padded to whole blocks, if there is one. */
  method AppendTree(image: ImageHandler, tree: bytes) returns (r: Result<()>)
    requires image.Valid() && !image.readOnly && image.blockSize > 0 && |tree| % image.blockSize == 0
    modifies image
    ensures image.isSparse == old(image.isSparse) && image.blockSize == old(image.blockSize)
    ensures r.Ok? <==> old(Storable(image, tree))
    ensures r.Ok? ==> image.Valid() && image.Contents() == old(image.Contents()) + tree && Appended(image, |tree|)
    ensures r.Err? ==> image.SameImage() && tree != [] && A.LeftBehind(image, |image.Contents()|, |tree|)
  {
    hide ImageHandler.Contents, ImageHandler.Valid, ImageHandler.Anchored, A.LeftBehindOf;
    var padded := Resize(tree, RoundToMultiple(|tree|, image.blockSize));
    ResizeSame(tree);
    assert image.Contents() + [] == image.Contents();
    if |padded| == 0 {
      return Ok(());
    }
    r := A.AppendFirst(image, padded);
  }

  /** The checks behind the stripping pass. */
  ghost predicate Addable(lib: D.Hashes, a: Args, s: bytes, bs: nat)
    requires Usable(lib, a.base.algorithm, bs)
  {
    SizeChecked(lib, a, s, bs) && BlobFor(lib, a, s, bs).Ok?
  }

  /** The tree of s, the padded blob and the last block are each small enough for a chunk, and all fits. */
  ghost predicate TreeRoom(lib: D.Hashes, a: Args, s: bytes, bs: nat)
    requires Usable(lib, a.base.algorithm, bs) && BlobFor(lib, a, s, bs).Ok?
  {
    && (StoredTree(lib, a, s, bs) != [] ==> S.CHUNK_HDR_SZ + |StoredTree(lib, a, s, bs)| < U32)
    && A.BlobRoom(Body(lib, a, s, bs), BlobFor(lib, a, s, bs).value, bs, a.base.partitionSize)
  }

  /** Room for tree, blob, filling and footer block behind so many chunks. */
  ghost predicate RoomFor(lib: D.Hashes, a: Args, chunks: nat, s: bytes, bs: nat)
    requires Usable(lib, a.base.algorithm, bs) && BlobFor(lib, a, s, bs).Ok?
  {
    && chunks + TreeChunks(StoredTree(lib, a, s, bs)) + 3 < U32 && a.base.partitionSize / bs < U32
    && TreeRoom(lib, a, s, bs)
  }

  /** What the commands need of arguments and content s. */
  ghost predicate Ready(lib: D.Hashes, a: Args, image: ImageHandler, s: bytes)
    reads image
  {
    && image.Valid() && !image.readOnly && image.blockSize >= SIZE && a.base.partitionSize > 0
    && s != [] && (!image.isSparse ==> |s| >= 28)
    && Usable(lib, a.base.algorithm, image.blockSize) && Legible(lib, a, s, image.blockSize)
  }

  function BlobChunk(blob: Result<bytes>, bs: nat): nat
    requires bs > 0
  {
    if blob.Ok? then RoundToMultiple(|blob.value|, bs) else 0
  }

  /** The size of the first chunk the command appends to content s: the tree's, or the blob's when there is no tree. */
  ghost function FirstChunk(lib: D.Hashes, a: Args, s: bytes, bs: nat): nat
    requires Usable(lib, a.base.algorithm, bs)
  {
    if !SizeChecked(lib, a, s, bs) then 0
    else if StoredTree(lib, a, s, bs) != [] then |StoredTree(lib, a, s, bs)|
    else BlobChunk(BlobFor(lib, a, s, bs), bs)
  }

  lemma FirstChunkIs(lib: D.Hashes, a: Args, s: bytes, bs: nat)
    requires Usable(lib, a.base.algorithm, bs)
    ensures !SizeChecked(lib, a, s, bs) ==> FirstChunk(lib, a, s, bs) == 0
    ensures (SizeChecked(lib, a, s, bs) && StoredTree(lib, a, s, bs) != []) ==>
              FirstChunk(lib, a, s, bs) == |StoredTree(lib, a, s, bs)|
    ensures (SizeChecked(lib, a, s, bs) && StoredTree(lib, a, s, bs) == []) ==>
              FirstChunk(lib, a, s, bs) == BlobChunk(BlobFor(lib, a, s, bs), bs)
  {
  }

  /** Growing, size check and tree; on failure the content is still in front. */
  method GrowAndStore(lib: D.Hashes, a: Args, image: ImageHandler, ghost s: bytes) returns (r: Result<D.Descriptor>)
    requires Ready(lib, a, image, s) && image.Contents() == s && a.base.partitionSize % image.blockSize == 0
    modifies image
    ensures image.isSparse == old(image.isSparse) && image.blockSize == old(image.blockSize)
    ensures r.Ok? ==>
              && image.Valid() && image.Contents() == Body(lib, a, s, image.blockSize)
              && r.value == HashtreeDescriptor(lib, a, s, image.blockSize) && SizeChecked(lib, a, s, image.blockSize)
              && Appended(image, |StoredTree(lib, a, s, image.blockSize)|)
    ensures r.Ok? <==>
              && SizeChecked(lib, a, s, image.blockSize)
              && StorableAt(image.isSparse, old(|image.sp.chunks|), lib, a, s, image.blockSize)
    ensures r.Err? ==>
              && image.Anchored() && (!image.isSparse ==> image.Valid())
              && image.Contents() == Grown(s, image.blockSize)
              && A.LeftBehind(image, |s|, FirstChunk(lib, a, s, image.blockSize))
  {
    hide ImageHandler.Contents, ImageHandler.Valid, ImageHandler.Anchored, StoredTree, HashtreeDescriptor, Grown,
      RoundToPow2, TreeSize, Legible, Body, FirstChunk, BlobFor, BlobChunk, Overflows, S.Decode, RoundToMultiple;
    FirstChunkIs(lib, a, s, image.blockSize);
    BodySize(lib, a, s, image.blockSize);
    A.NothingOverflows(image.sp);
    var digestSize := RoundToPow2(lib.tree.size(a.base.algorithm).value);
    var maxTreeSize := 0;
    if !a.noHashtree {
      var offsets;
      offsets, maxTreeSize := CalcHashLevelOffsets(a.base.partitionSize, image.blockSize, digestSize);
    }
    var g := Grow(image, s);
    image.BlockSizePositive();
    if image.imageSize + maxTreeSize + MAX_METADATA_SIZE > a.base.partitionSize {
      return Err(AvbError);
    }
    TreeWithinReservation(lib, a, s, image.blockSize);
    r := StoreTree(lib, a, image, s);
  }

  /** Room for everything is room for the tree, and then for the rest. */
  lemma RoomSplits(lib: D.Hashes, a: Args, chunks: nat, s: bytes, bs: nat)
    requires Usable(lib, a.base.algorithm, bs) && BlobFor(lib, a, s, bs).Ok? && SizeChecked(lib, a, s, bs)
    ensures RoomFor(lib, a, chunks, s, bs) <==>
              && StorableAt(true, chunks, lib, a, s, bs)
              && chunks + TreeChunks(StoredTree(lib, a, s, bs)) + 3 < U32 && a.base.partitionSize / bs < U32
              && A.BlobRoom(Body(lib, a, s, bs), BlobFor(lib, a, s, bs).value, bs, a.base.partitionSize)
    ensures StorableAt(false, chunks, lib, a, s, bs)
  {
    hide StoredTree, Body, BlobFor, A.BlobRoom, SizeChecked;
    TreeWithinReservation(lib, a, s, bs);
    DivMonotone(|Body(lib, a, s, bs)|, a.base.partitionSize, bs);
  }

  /** Room for the tree in a sparse image of so many chunks. */
  ghost predicate StorableAt(sparse: bool, chunks: nat, lib: D.Hashes, a: Args, s: bytes, bs: nat)
    requires Usable(lib, a.base.algorithm, bs)
  {
    sparse && StoredTree(lib, a, s, bs) != [] ==>
      && chunks + 1 < U32 && |Body(lib, a, s, bs)| / bs < U32 && S.CHUNK_HDR_SZ + |StoredTree(lib, a, s, bs)| < U32
  }

  /** Content s lies in front of x. */
  predicate InFront(s: bytes, x: bytes) {
    |s| <= |x| && x[..|s|] == s
  }

  lemma InFrontOfParts(lib: D.Hashes, a: Args, s: bytes, bs: nat)
    requires Usable(lib, a.base.algorithm, bs)
    ensures InFront(s, Grown(s, bs)) && InFront(s, Body(lib, a, s, bs))
  {
    GrownPrefix(lib, a, s, bs);
  }

  lemma InFrontTransitive(s: bytes, t: bytes, x: bytes)
    requires InFront(s, t) && InFront(t, x)
    ensures InFront(s, x)
  {
    SubSlice(x, 0, |t|, 0, |s|);
  }

  /** Blob and footer behind the body; on failure the body is still in front. */
  method AppendBehindTree(lib: D.Hashes, a: Args, image: ImageHandler, size: nat, ghost body: bytes, d: D.Descriptor)
    returns (r: Result<()>)
    requires A.Stage(image, a.base.partitionSize) && image.Contents() == body
    requires VbMeta.Legible(lib, BlobArgs(a), [d], a.base.images)
    modifies image
    ensures image.isSparse == old(image.isSparse) && image.blockSize == old(image.blockSize) > 0
    ensures var blob := VbMeta.Generated(lib, BlobArgs(a), [d], a.base.images);
            && (r.Ok? ==>
                  && blob.Ok? && image.Valid()
                  && A.Finished(size, body, image.Contents(), blob.value, image.blockSize, a.base.partitionSize)
                  && (image.isSparse ==> S.CHUNK_HDR_SZ + BlobChunk(blob, image.blockSize) < U32))
            && (r.Err? ==>
                  && image.Anchored() && (!image.isSparse ==> image.Valid()) && InFront(body, image.Contents())
                  && A.LeftBehind(image, |body|, BlobChunk(blob, image.blockSize)))
            && (r.Ok? <==>
                  && blob.Ok? && WF(FooterFor(size, |body|, blob.value, image.blockSize))
                  && (image.isSparse ==>
                        && old(A.Roomy(image, 3, a.base.partitionSize))
                        && A.BlobRoom(body, blob.value, image.blockSize, a.base.partitionSize)))
  {
    hide ImageHandler.Contents, ImageHandler.Valid, ImageHandler.Anchored, VbMeta.Legible, VbMeta.Generated, WF,
      FooterFor, A.Finished, A.BlobRoom, A.Roomy, Overflows, S.Decode;
    image.BlockSizePositive();
    A.NothingOverflows(image.sp);
    assert body[..|body|] == body;
    VbMeta.GeneratedIsNotEmpty(lib, BlobArgs(a), [d], a.base.images);
    var blob := VbMeta.GenerateVbmetaBlob(lib, BlobArgs(a), [d], a.base.images);
    if blob.Err? {
      return Err(blob.error);
    }
    r := A.AppendBlobAndFooter(image, size, body, blob.value, a.base.partitionSize);
  }

  /** What a body of s must allow for the blob to be put behind it. */
  lemma BodyIsStage(lib: D.Hashes, a: Args, image: ImageHandler, s: bytes)
    requires Ready(lib, a, image, s) && a.base.partitionSize % image.blockSize == 0
    requires image.Contents() == Body(lib, a, s, image.blockSize) && SizeChecked(lib, a, s, image.blockSize)
    ensures A.Stage(image, a.base.partitionSize)
  {
    hide ImageHandler.Contents, ImageHandler.Valid, ImageHandler.Anchored, StoredTree, Grown, Body, SizeChecked, Usable,
      Legible;
    InFrontOfParts(lib, a, s, image.blockSize);
    TreeWithinReservation(lib, a, s, image.blockSize);
  }

  /** Tree, blob and footer; on failure the content is still in front. */
  method AppendAll(lib: D.Hashes, a: Args, image: ImageHandler, ghost s: bytes) returns (r: Result<()>)
    requires Ready(lib, a, image, s) && image.Contents() == s && a.base.partitionSize % image.blockSize == 0
    modifies image
    ensures image.isSparse == old(image.isSparse) && image.blockSize == old(image.blockSize)
    ensures r.Ok? ==>
              && image.Valid() && Addable(lib, a, s, image.blockSize)
              && A.Finished(|s|, Body(lib, a, s, image.blockSize), image.Contents(),
                            BlobFor(lib, a, s, image.blockSize).value, image.blockSize, a.base.partitionSize)
              && (image.isSparse ==> S.CHUNK_HDR_SZ + FirstChunk(lib, a, s, image.blockSize) < U32)
    ensures r.Ok? <==>
              && Addable(lib, a, s, image.blockSize)
              && WF(FooterFor(|s|, |Body(lib, a, s, image.blockSize)|, BlobFor(lib, a, s, image.blockSize).value,
                              image.blockSize))
              && (image.isSparse ==> RoomFor(lib, a, old(|image.sp.chunks|), s, image.blockSize))
    ensures r.Err? ==>
              && image.Anchored() && (!image.isSparse ==> image.Valid()) && InFront(s, image.Contents())
              && A.LeftBehind(image, |s|, FirstChunk(lib, a, s, image.blockSize))
  {
    hide ImageHandler.Contents, ImageHandler.Valid, ImageHandler.Anchored, StoredTree, HashtreeDescriptor, Grown,
      Body, BlobFor, SizeChecked, Usable, WF, FooterFor, A.Finished, A.BlobRoom, VbMeta.Legible, InFront,
      FirstChunk, Overflows, S.Decode, A.Stage, VbMeta.Generated, BlobChunk, RoomFor, StorableAt;
    InFrontOfParts(lib, a, s, image.blockSize);
    image.BlockSizePositive();
    if image.isSparse {
      image.WholeBlocks();
    }
    ghost var sp0, f0, first := image.sp, image.file, FirstChunk(lib, a, s, image.blockSize);
    var size := image.imageSize;
    if SizeChecked(lib, a, s, image.blockSize) && BlobFor(lib, a, s, image.blockSize).Ok? {
      RoomSplits(lib, a, |image.sp.chunks|, s, image.blockSize);
    }
    var d := GrowAndStore(lib, a, image, s);
    if d.Err? {
      return Err(d.error);
    }
    ghost var body := image.Contents();
    BodyIsStage(lib, a, image, s);
    assert BlobFor(lib, a, s, image.blockSize) == VbMeta.Generated(lib, BlobArgs(a), [d.value], a.base.images) by {
      BlobForUnfolds(lib, a, s, image.blockSize);
    }
    r := AppendBehindTree(lib, a, image, size, body, d.value);
    FirstChunkIs(lib, a, s, image.blockSize);
    if r.Err? {
      InFrontTransitive(s, body, image.Contents());
      BodySize(lib, a, s, image.blockSize);
      if S.CHUNK_HDR_SZ + first < U32 {
        A.SmallNeverOverflows(sp0, first);
      }
    }
  }

  lemma BlobForUnfolds(lib: D.Hashes, a: Args, s: bytes, bs: nat)
    requires Usable(lib, a.base.algorithm, bs)
    ensures BlobFor(lib, a, s, bs)
         == VbMeta.Generated(lib, BlobArgs(a), [HashtreeDescriptor(lib, a, s, bs)], a.base.images)
  {
  }

  lemma BodySize(lib: D.Hashes, a: Args, s: bytes, bs: nat)
    requires Usable(lib, a.base.algorithm, bs)
    ensures |s| + |StoredTree(lib, a, s, bs)| <= |Body(lib, a, s, bs)|
    ensures |s| % bs == 0 ==> |Body(lib, a, s, bs)| == |s| + |StoredTree(lib, a, s, bs)|
    ensures |Body(lib, a, s, bs)| == |Grown(s, bs)| + |StoredTree(lib, a, s, bs)|
  {
    hide StoredTree;
  }

  /** What is done to the stripped image, with the rollback. */
  method AddToStripped(lib: D.Hashes, a: Args, image: ImageHandler, ghost s: bytes) returns (r: Result<()>)
    requires Ready(lib, a, image, s) && image.Contents() == s && a.base.partitionSize % image.blockSize == 0
    modifies image
    ensures image.isSparse == old(image.isSparse) && image.blockSize == old(image.blockSize)
    ensures r.Ok? ==>
              && image.Valid() && Addable(lib, a, s, image.blockSize)
              && A.Finished(|s|, Body(lib, a, s, image.blockSize), image.Contents(),
                            BlobFor(lib, a, s, image.blockSize).value, image.blockSize, a.base.partitionSize)
              && (image.isSparse ==> S.CHUNK_HDR_SZ + FirstChunk(lib, a, s, image.blockSize) < U32)
    ensures r.Ok? <==>
              && Addable(lib, a, s, image.blockSize)
              && WF(FooterFor(|s|, |Body(lib, a, s, image.blockSize)|, BlobFor(lib, a, s, image.blockSize).value,
                              image.blockSize))
              && (image.isSparse ==> RoomFor(lib, a, old(|image.sp.chunks|), s, image.blockSize))
    ensures r.Err? ==>
              && image.Anchored() && image.Contents() == s
              && A.RolledBack(image, FirstChunk(lib, a, s, image.blockSize))
  {
    hide ImageHandler.Contents, ImageHandler.Valid, ImageHandler.Anchored, Body, TreeRoom, Usable, WF, FooterFor,
      A.Finished, A.Roomy, Legible, BlobFor, Addable, FirstChunk, Overflows, S.Decode;
    image.BlockSizePositive();
    if image.isSparse {
      image.WholeBlocks();
    }
    image.ValidIsIntact();
    var size := image.imageSize;
    ghost var sp0, f0 := image.sp, image.file;
    r := AppendAll(lib, a, image, s);
    if r.Err? {
      r := A.RollbackFrom(image, size, s, sp0, f0, FirstChunk(lib, a, s, image.blockSize));
    }
  }

  /** A sparse image can be stripped, and has room for the chunks add_hashtree_footer then appends. */
  ghost predicate HasRoom(lib: D.Hashes, a: Args, image: ImageHandler)
    requires image.Valid() && Usable(lib, a.base.algorithm, image.blockSize)
    reads image
  {
    var s := Stripped(image.Contents());
    image.isSparse ==>
      && A.Strippable(image) && BlobFor(lib, a, s, image.blockSize).Ok?
      && RoomFor(lib, a, A.ChunksLeft(image), s, image.blockSize)
  }

  /**
    add_hashtree_footer. It succeeds exactly when it does on flat content and, in a sparse image, there is room, and
    then the image holds that result. After a failure behind the stripping the file reads as the stripped content
    again, unless it is sparse and the tree (or, without one, the padded blob) overflows the size field of its chunk:
    then it cannot be opened any more.
   */
  method AddHashtreeFooter(lib: D.Hashes, a: Args, image: ImageHandler) returns (r: Result<()>)
    requires image.Valid() && Ready(lib, a, image, Stripped(image.Contents()))
    modifies image
    ensures image.isSparse == old(image.isSparse) && image.blockSize == old(image.blockSize)
    ensures r.Ok? <==>
              old(HashtreeFooter.Add(lib, a, image.Contents(), image.blockSize)).Ok? && old(HasRoom(lib, a, image))
    ensures r.Ok? ==>
              && image.Valid()
              && Ok(image.Contents()) == old(HashtreeFooter.Add(lib, a, image.Contents(), image.blockSize))
    ensures r.Ok? && image.isSparse ==>
              S.CHUNK_HDR_SZ + FirstChunk(lib, a, Stripped(old(image.Contents())), image.blockSize) < U32
    ensures r.Err? && (a.base.partitionSize % image.blockSize != 0 || !old(A.Strippable(image))) ==>
              image.SameImage() && image.file == old(image.file)
    ensures r.Err? && a.base.partitionSize % image.blockSize == 0 && old(A.Strippable(image)) ==>
              && image.Anchored() && image.Contents() == Stripped(old(image.Contents()))
              && A.Left(image, FirstChunk(lib, a, Stripped(old(image.Contents())), image.blockSize))
  {
    hide ImageHandler.Contents, ImageHandler.Valid, ImageHandler.Anchored, Legible, BlobFor, Stripped, WithFooter, WF,
      FooterFor, Usable, SizeChecked, Body, A.BlobRoom, StoredTree, FirstChunk, Overflows, S.Decode,
      ImageHandler.Intact;
    if a.base.partitionSize % image.blockSize != 0 {
      return Err(AvbError);
    }
    r := A.StripFooter(image);
    if r.Err? {
      return;
    }
    r := AddToStripped(lib, a, image, image.Contents());
  }

  // ------------------------------------------------------------- a tree too large for its chunk

  /** 512 GiB in one DONT_CARE chunk of 4096-byte blocks. */
  const HOLE := S.Sparse(4096, 0, [S.Chunk(S.DontCare, 0, 0x800_0000, [])])

  /** The tree of so large an image with 32-byte digests takes more than 2^32 bytes, so that its chunk overflows. */
  lemma TreeOverflowsItsChunk(lib: D.Hashes, a: Args)
    requires Usable(lib, a.base.algorithm, 4096) && lib.tree.size(a.base.algorithm) == Some(32)
    requires !a.noHashtree && a.base.partitionSize == 0x100_0000_0000
    ensures SparseLayout.PlainImage(HOLE)
    ensures var s := SparseLayout.Expand(HOLE.chunks, HOLE.blockSize);
            && |s| == 0x80_0000_0000 && Stripped(s) == s && SizeChecked(lib, a, s, 4096)
            && Overflows(HOLE, FirstChunk(lib, a, s, 4096))
  {
    hide StoredTree, BlobFor, BlobChunk;
    HoleExpands();
    HoleIsSmall();
    HoleTree(lib, a);
  }

  lemma HoleExpands()
    ensures SparseLayout.PlainImage(HOLE)
    ensures SparseLayout.Expand(HOLE.chunks, HOLE.blockSize) == Zeros(0x80_0000_0000)
    ensures Stripped(Zeros(0x80_0000_0000)) == Zeros(0x80_0000_0000)
  {
    var s := Zeros(0x80_0000_0000);
    assert SparseLayout.Expand(HOLE.chunks[1..], 4096) == [];
    assert s + [] == s;
    NoFooterInZeros(s);
  }

  lemma NoFooterInZeros(s: bytes)
    requires |s| >= SIZE && s == Zeros(|s|)
    ensures Stripped(s) == s
  {
    hide Parse;
    var tail := s[|s| - SIZE..];
    ParseIff(tail);
    assert tail[..4][0] == tail[0] == s[|s| - SIZE] == 0;
  }

  lemma HoleIsSmall()
    ensures |HOLE.chunks| == 1 && S.TotalBlocks(HOLE.chunks) == 0x800_0000 && HOLE.blockSize == 4096
  {
    assert S.TotalBlocks(HOLE.chunks[1..]) == 0;
  }

  lemma HoleTree(lib: D.Hashes, a: Args)
    requires Usable(lib, a.base.algorithm, 4096) && lib.tree.size(a.base.algorithm) == Some(32)
    requires !a.noHashtree && a.base.partitionSize == 0x100_0000_0000
    ensures SizeChecked(lib, a, Zeros(0x80_0000_0000), 4096)
    ensures |StoredTree(lib, a, Zeros(0x80_0000_0000), 4096)| == 0x1_0204_1000
  {
    var s := Zeros(0x80_0000_0000);
    ParamsWF(lib, a, 4096);
    assert RoundToPow2(32) == 32;
    HoleLevels();
    ResizeSame(s);
  }

  lemma HoleLevels()
    ensures TreeSize(0x80_0000_0000, 4096, 32) == 0x1_0204_1000
    ensures TreeSize(0x100_0000_0000, 4096, 32) == 0x2_0408_1000
  {
    hide TreeSize;
    FullLevel(0x10_0000);
    FullLevel(0x2000);
    FullLevel(0x40);
    TopLevel(0x40);
    FullLevel(0x20_0000);
    FullLevel(0x4000);
    FullLevel(0x80);
    TopLevel(0x80);
  }

  /** 128 entries of 32 bytes fill a block. */
  lemma FullLevel(k: nat)
    requires k > 0
    ensures TreeSize(0x8_0000 * k, 4096, 32) == 4096 * k + TreeSize(4096 * k, 4096, 32)
  {
    hide TreeSize, LevelSizes;
    assert LevelSize(0x8_0000 * k, 4096, 32) == 4096 * k by {
      assert CeilDiv(0x8_0000 * k, 4096) == 128 * k;
      MulMod(k, 4096);
    }
    TreeSizeStep(0x8_0000 * k, 4096, 32);
  }

  lemma TopLevel(k: nat)
    requires 1 < k <= 128
    ensures TreeSize(4096 * k, 4096, 32) == 4096
  {
    assert CeilDiv(4096 * k, 4096) == k;
    TreeSizeStep(4096 * k, 4096, 32);
  }
}
