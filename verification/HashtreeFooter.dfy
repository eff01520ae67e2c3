/** add_hashtree_footer without FEC as a function on flat content: hash tree, blob and footer behind the image. */
module HashtreeFooter {
  import opened Bytes
  import D = Descriptors
  import Merging
  import VbMeta
  import opened Footers
  import HashTree
  import HashFooter

  datatype Args = Args(base: HashFooter.Args, noHashtree: bool, checkAtMostOnce: bool)

  function RequiredMinor(a: Args): nat {
    if a.base.blob.rollbackIndexLocation > 0 then 2
    else if a.base.persistentDigest || a.base.doNotUseAb || a.checkAtMostOnce then 1
    else 0
  }

  function BlobArgs(a: Args): VbMeta.Args {
    a.base.blob.(minMinor := RequiredMinor(a))
  }

  function Minor(a: Args): nat {
    VbMeta.MaxMinor(RequiredMinor(a), a.base.images)
  }

  /** The digest algorithm is known and its padded digests fit twice into a block. */
  ghost predicate Usable(lib: D.Hashes, alg: bytes, bs: nat) {
    && lib.Valid() && lib.tree.size(alg).Some? && lib.tree.size(alg).value > 0
    && HashTree.WFSizes(bs, RoundToPow2(lib.tree.size(alg).value))
  }

  /** Parameters of a hash tree: digests are NUL-padded to the next power of two. */
  function ParamsOf(lib: D.Hashes, alg: bytes, salt: bytes, bs: nat): HashTree.Params
    requires lib.tree.size(alg).Some? && lib.tree.size(alg).value > 0
  {
    var n := lib.tree.size(alg).value;
    HashTree.Params(x => lib.tree.digest(alg, x), n, salt, RoundToPow2(n) - n, bs)
  }

  function TreeParams(lib: D.Hashes, a: Args, bs: nat): HashTree.Params
    requires lib.tree.size(a.base.algorithm).Some? && lib.tree.size(a.base.algorithm).value > 0
  {
    ParamsOf(lib, a.base.algorithm, a.base.salt, bs)
  }

  lemma ParamsWF(lib: D.Hashes, a: Args, bs: nat)
    requires Usable(lib, a.base.algorithm, bs)
    ensures TreeParams(lib, a, bs).WF() && TreeParams(lib, a, bs).bs == bs
    ensures TreeParams(lib, a, bs).EntrySize() == RoundToPow2(lib.tree.size(a.base.algorithm).value)
  {
  }

  /** Room set aside for the tree: that of a tree over the whole partition. */
  function MaxTreeSize(lib: D.Hashes, a: Args, bs: nat): nat
    requires lib.tree.size(a.base.algorithm).Some? && lib.tree.size(a.base.algorithm).value > 0
    requires HashTree.WFSizes(bs, RoundToPow2(lib.tree.size(a.base.algorithm).value))
  {
    if a.noHashtree then 0
    else HashTree.TreeSize(a.base.partitionSize, bs, RoundToPow2(lib.tree.size(a.base.algorithm).value))
  }

  /** The content in whole blocks. */
  function Grown(s: bytes, bs: nat): (r: bytes)
    requires bs > 0
    ensures |r| == RoundToMultiple(|s|, bs)
  {
    Resize(s, RoundToMultiple(|s|, bs))
  }

  ghost function StoredTree(lib: D.Hashes, a: Args, s: bytes, bs: nat): bytes
    requires Usable(lib, a.base.algorithm, bs)
  {
    ParamsWF(lib, a, bs);
    if a.noHashtree then [] else HashTree.Tree(TreeParams(lib, a, bs), Grown(s, bs))
  }

  /** The grown content with its tree behind it. */
  ghost function Body(lib: D.Hashes, a: Args, s: bytes, bs: nat): bytes
    requires Usable(lib, a.base.algorithm, bs)
  {
    Grown(s, bs) + StoredTree(lib, a, s, bs)
  }

  ghost function HashtreeDescriptor(lib: D.Hashes, a: Args, s: bytes, bs: nat): D.Descriptor
    requires Usable(lib, a.base.algorithm, bs)
  {
    ParamsWF(lib, a, bs);
    var t := Grown(s, bs);
    D.Hashtree(1, |t|, |t|, |StoredTree(lib, a, s, bs)|, bs, bs, 0, 0, 0, a.base.algorithm, a.base.name, a.base.salt,
               if a.base.persistentDigest then [] else HashTree.Root(TreeParams(lib, a, bs), t),
               (if a.base.doNotUseAb then 1 else 0) + (if a.checkAtMostOnce then 2 else 0))
  }

  ghost function BlobDescriptors(lib: D.Hashes, a: Args, s: bytes, bs: nat): Result<seq<D.Descriptor>>
    requires Usable(lib, a.base.algorithm, bs)
  {
    VbMeta.AllDescriptors(BlobArgs(a), [HashtreeDescriptor(lib, a, s, bs)], a.base.images)
  }

  ghost function BlobFor(lib: D.Hashes, a: Args, s: bytes, bs: nat): Result<bytes>
    requires Usable(lib, a.base.algorithm, bs)
  {
    VbMeta.Generated(lib, BlobArgs(a), [HashtreeDescriptor(lib, a, s, bs)], a.base.images)
  }

  /** The size check of the command on stripped content. */
  ghost predicate SizeChecked(lib: D.Hashes, a: Args, s: bytes, bs: nat)
    requires Usable(lib, a.base.algorithm, bs)
  {
    |Grown(s, bs)| + MaxTreeSize(lib, a, bs) + MAX_METADATA_SIZE <= a.base.partitionSize
  }

  /** The whole command for a partition of known size. */
  ghost function Add(lib: D.Hashes, a: Args, c: bytes, bs: nat): Result<bytes>
    requires Usable(lib, a.base.algorithm, bs) && bs >= SIZE
  {
    var s := Stripped(c);
    if a.base.partitionSize % bs != 0 then Err(AvbError)
    else if !SizeChecked(lib, a, s, bs) then Err(AvbError)
    else if BlobFor(lib, a, s, bs).Err? then Err(AvbError)
    else
      var body, blob := Body(lib, a, s, bs), BlobFor(lib, a, s, bs).value;
      if !WF(FooterFor(|s|, |body|, blob, bs)) || a.base.partitionSize < bs then Err(AvbError)
      else Ok(WithFooter(|s|, body, blob, bs, a.base.partitionSize))
  }

  // ------------------------------------------------------------- the reservation

  /** The stored tree is no larger than what was set aside, and ends on a block boundary. */
  lemma TreeWithinReservation(lib: D.Hashes, a: Args, s: bytes, bs: nat)
    requires Usable(lib, a.base.algorithm, bs) && SizeChecked(lib, a, s, bs)
    ensures |StoredTree(lib, a, s, bs)| <= MaxTreeSize(lib, a, bs)
    ensures |Body(lib, a, s, bs)| + MAX_METADATA_SIZE <= a.base.partitionSize
    ensures |Body(lib, a, s, bs)| % bs == 0 && |StoredTree(lib, a, s, bs)| % bs == 0
  {
    ParamsWF(lib, a, bs);
    hide HashTree.Tree, HashTree.TreeSize, TreeParams, Grown, RoundToPow2, HashTree.Params.WF;
    var entry, t := RoundToPow2(lib.tree.size(a.base.algorithm).value), Grown(s, bs);
    if a.noHashtree {
      MulMod(0, bs);
    } else {
      HashTree.TreeSizeMonotone(|t|, a.base.partitionSize, bs, entry);
      HashTree.TreeSizeWhole(|t|, bs, entry);
    }
    MultiplesClosed(|t|, |StoredTree(lib, a, s, bs)|, bs);
  }

  /** The reservation is sound: whatever passes the size check leaves room for the blob and the footer block. */
  lemma CheckedImageFits(lib: D.Hashes, a: Args, s: bytes, bs: nat, blob: bytes)
    requires Usable(lib, a.base.algorithm, bs) && SizeChecked(lib, a, s, bs)
    requires a.base.partitionSize % bs == 0 && Reserved(bs) && |blob| <= MAX_VBMETA_SIZE
    ensures var body := Body(lib, a, s, bs);
            a.base.partitionSize - |body| - RoundToMultiple(|blob|, bs) - bs >= 0
            && Fits(body, blob, bs, a.base.partitionSize)
  {
    TreeWithinReservation(lib, a, s, bs);
    hide Body, Reserved, RoundToMultiple;
    var body := Body(lib, a, s, bs);
    ReservedFits(body, blob, bs, a.base.partitionSize);
  }

  // ------------------------------------------------------------- laws

  lemma AddedIs(lib: D.Hashes, a: Args, c: bytes, bs: nat)
    requires Usable(lib, a.base.algorithm, bs) && bs >= SIZE && Add(lib, a, c, bs).Ok?
    ensures var s := Stripped(c);
            && a.base.partitionSize >= bs && a.base.partitionSize % bs == 0 && SizeChecked(lib, a, s, bs)
            && BlobFor(lib, a, s, bs).Ok?
            && WF(FooterFor(|s|, |Body(lib, a, s, bs)|, BlobFor(lib, a, s, bs).value, bs))
            && Add(lib, a, c, bs).value
               == WithFooter(|s|, Body(lib, a, s, bs), BlobFor(lib, a, s, bs).value, bs, a.base.partitionSize)
  {
    hide Stripped, BlobFor, WithFooter, Body, SizeChecked, WF;
  }

  /** The result fills the partition exactly. */
  lemma AddFillsPartition(lib: D.Hashes, a: Args, c: bytes, bs: nat)
    requires Usable(lib, a.base.algorithm, bs) && bs >= SIZE && Add(lib, a, c, bs).Ok?
    ensures |Add(lib, a, c, bs).value| == a.base.partitionSize
  {
    hide Add, BlobFor, Stripped, WithFooter, Body, SizeChecked;
    AddedIs(lib, a, c, bs);
  }

  /** The original content is where it was. */
  lemma ContentInFront(lib: D.Hashes, a: Args, c: bytes, bs: nat)
    requires Usable(lib, a.base.algorithm, bs) && SIZE <= bs <= MAX_METADATA_SIZE && Add(lib, a, c, bs).Ok?
    ensures Resize(Add(lib, a, c, bs).value, |Stripped(c)|) == Stripped(c)
  {
    AddedIs(lib, a, c, bs);
    var s := Stripped(c);
    TreeWithinReservation(lib, a, s, bs);
    GrownPrefix(lib, a, s, bs);
    hide Add, BlobFor, WithFooter, Body, WF, FooterFor, Stripped, Resize;
    WithFooterPrefix(|s|, Body(lib, a, s, bs), BlobFor(lib, a, s, bs).value, bs, a.base.partitionSize, |s|);
  }

  lemma GrownPrefix(lib: D.Hashes, a: Args, s: bytes, bs: nat)
    requires Usable(lib, a.base.algorithm, bs)
    ensures |s| <= |Body(lib, a, s, bs)| && Body(lib, a, s, bs)[..|s|] == s
  {
    hide StoredTree;
    var b := Body(lib, a, s, bs);
    assert forall i :: 0 <= i < |s| ==> b[i] == s[i];
  }

  /** Adding again changes nothing. */
  lemma AddIdempotent(lib: D.Hashes, a: Args, c: bytes, bs: nat)
    requires Usable(lib, a.base.algorithm, bs) && SIZE <= bs <= MAX_METADATA_SIZE && Add(lib, a, c, bs).Ok?
    ensures Stripped(Add(lib, a, c, bs).value) == Stripped(c)
    ensures Add(lib, a, Add(lib, a, c, bs).value, bs) == Add(lib, a, c, bs)
  {
    AddedIs(lib, a, c, bs);
    ContentInFront(lib, a, c, bs);
    hide BlobFor, WithFooter, Body, WF, FooterFor, Resize, FooterOf, SizeChecked;
    var s := Stripped(c);
    WithFooterHasFooter(|s|, Body(lib, a, s, bs), BlobFor(lib, a, s, bs).value, bs, a.base.partitionSize);
    SameWhenStripped(lib, a, c, Add(lib, a, c, bs).value, bs);
  }

  lemma SameWhenStripped(lib: D.Hashes, a: Args, c: bytes, d: bytes, bs: nat)
    requires Usable(lib, a.base.algorithm, bs) && bs >= SIZE && Stripped(c) == Stripped(d)
    ensures Add(lib, a, c, bs) == Add(lib, a, d, bs)
  {
    hide BlobFor, WithFooter, Body, WF, FooterFor, SizeChecked, Stripped;
  }

  /** The blob is within the 64 KiB set aside for it, and the block size is one the reservation covers. */
  ghost predicate SmallBlob(lib: D.Hashes, a: Args, s: bytes, bs: nat)
    requires Usable(lib, a.base.algorithm, bs)
  {
    Reserved(bs) && BlobFor(lib, a, s, bs).Ok? && |BlobFor(lib, a, s, bs).value| <= MAX_VBMETA_SIZE
  }

  lemma BlobForIs(lib: D.Hashes, a: Args, s: bytes, bs: nat)
    requires Usable(lib, a.base.algorithm, bs) && BlobFor(lib, a, s, bs).Ok?
    ensures BlobDescriptors(lib, a, s, bs).Ok?
    ensures VbMeta.BlobFits(lib, BlobArgs(a), Minor(a), BlobDescriptors(lib, a, s, bs).value)
    ensures BlobFor(lib, a, s, bs).value
         == VbMeta.Blob(lib, BlobArgs(a), Minor(a), BlobDescriptors(lib, a, s, bs).value)
    ensures HashtreeDescriptor(lib, a, s, bs) in BlobDescriptors(lib, a, s, bs).value
    ensures BlobDescriptors(lib, a, s, bs).value[0] == HashtreeDescriptor(lib, a, s, bs)
  {
    hide VbMeta.BlobFits, VbMeta.Blob, HashtreeDescriptor, VbMeta.PropDescriptors, VbMeta.CmdlineDescriptors,
      VbMeta.AllIncluded;
  }

  /** What parsing the finished image gives: its footer, and the blob's descriptors, the hash tree's first. */
  lemma AddedParses(lib: D.Hashes, a: Args, c: bytes, bs: nat)
    requires Usable(lib, a.base.algorithm, bs) && bs >= SIZE && Add(lib, a, c, bs).Ok?
    requires SmallBlob(lib, a, Stripped(c), bs)
    ensures BlobFor(lib, a, Stripped(c), bs).Ok? && BlobDescriptors(lib, a, Stripped(c), bs).Ok?
    ensures VbMeta.AllWF(lib, BlobDescriptors(lib, a, Stripped(c), bs).value)
    ensures var s := Stripped(c);
            var blob, ds := BlobFor(lib, a, s, bs).value, BlobDescriptors(lib, a, s, bs).value;
            && Fits(Body(lib, a, s, bs), blob, bs, a.base.partitionSize)
            && |ds| > 0 && ds[0] == HashtreeDescriptor(lib, a, s, bs)
            && ParseImage(lib, Add(lib, a, c, bs).value)
               == Ok((Some(FooterFor(|s|, |Body(lib, a, s, bs)|, blob, bs)),
                      VbMeta.BlobHeader(BlobArgs(a), Minor(a), |D.EncodeAll(lib, ds)|), ds))
  {
    AddedIs(lib, a, c, bs);
    var s := Stripped(c);
    BlobForIs(lib, a, s, bs);
    hide Add, Stripped, WithFooter, BlobDescriptors, BlobFor, VbMeta.BlobFits, VbMeta.Blob, ParseImage, WF,
      VbMeta.BlobHeader, D.EncodeAll, Fits, Body, SizeChecked, HashtreeDescriptor, FooterFor, Reserved;
    CheckedImageFits(lib, a, s, bs, BlobFor(lib, a, s, bs).value);
    var ds := BlobDescriptors(lib, a, s, bs).value;
    HashFooter.FinishedParses(lib, BlobArgs(a), Minor(a), ds, |s|, Body(lib, a, s, bs), bs,
                              a.base.partitionSize);
  }

  /** When the command succeeds: the content in whole blocks leaves room for the largest tree, blob and footer. */
  lemma AddIff(lib: D.Hashes, a: Args, c: bytes, bs: nat)
    requires Usable(lib, a.base.algorithm, bs) && bs >= SIZE
    ensures var s, p := Stripped(c), a.base.partitionSize;
            var entry := RoundToPow2(lib.tree.size(a.base.algorithm).value);
            var reserved := if a.noHashtree then 0 else HashTree.TreeSize(p, bs, entry);
            Add(lib, a, c, bs).Ok? <==>
              && p % bs == 0 && RoundToMultiple(|s|, bs) + reserved + 69632 <= p && BlobFor(lib, a, s, bs).Ok?
              && |s| < 0x1_0000_0000_0000_0000 && |BlobFor(lib, a, s, bs).value| < 0x1_0000_0000_0000_0000
              && RoundToMultiple(|Body(lib, a, s, bs)|, bs) < 0x1_0000_0000_0000_0000
  {
    hide BlobFor, Stripped, WithFooter, RoundToMultiple, HashTree.TreeSize, Body, RoundToPow2;
    if a.base.partitionSize % bs == 0 && 0 < a.base.partitionSize < bs {
      DivUnique(a.base.partitionSize, bs, 0, a.base.partitionSize);
    }
  }

  /** The image made of content s, octet by octet: content, NULs up to whole blocks, tree, blob, NULs, footer. */
  lemma AddedOctets(lib: D.Hashes, a: Args, c: bytes, bs: nat)
    requires Usable(lib, a.base.algorithm, bs) && bs >= SIZE && Add(lib, a, c, bs).Ok?
    requires SmallBlob(lib, a, Stripped(c), bs)
    ensures var x, s := Add(lib, a, c, bs).value, Stripped(c);
            var blob, tree, n := BlobFor(lib, a, s, bs).value, StoredTree(lib, a, s, bs), RoundToMultiple(|s|, bs);
            var off := n + |tree|;
            && |x| == a.base.partitionSize && |s| <= n <= off <= off + |blob| <= |x| - 64
            && x[..|s|] == s && x[|s|..n] == Zeros(n - |s|) && x[n..off] == tree
            && x[off..off + |blob|] == blob && x[off + |blob|..|x| - 64] == Zeros(|x| - 64 - off - |blob|)
            && IsFooter(x[|x| - 64..], |s|, off, |blob|)
  {
    hide Add, BlobFor, Stripped, WithFooter, FooterFor, WF, IsFooter, Fits, RoundToMultiple, StoredTree, SizeChecked,
      Reserved, Usable;
    AddedIs(lib, a, c, bs);
    var x, s := Add(lib, a, c, bs).value, Stripped(c);
    var blob, body, tree := BlobFor(lib, a, s, bs).value, Body(lib, a, s, bs), StoredTree(lib, a, s, bs);
    TreeWithinReservation(lib, a, s, bs);
    assert RoundToMultiple(|body|, bs) == |body|;
    CheckedImageFits(lib, a, s, bs, blob);
    FinishedOctets(|s|, body, blob, bs, a.base.partitionSize);
    BodyOctets(x, s, RoundToMultiple(|s|, bs), tree, body);
  }

  lemma BodyOctets(x: bytes, s: bytes, n: nat, tree: bytes, body: bytes)
    requires |s| <= n && body == Resize(s, n) + tree && |body| <= |x| && x[..|body|] == body
    ensures x[..|s|] == s && x[|s|..n] == Zeros(n - |s|) && x[n..n + |tree|] == tree
  {
    assert body[..|s|] == s && body[|s|..n] == Zeros(n - |s|) && body[n..n + |tree|] == tree;
    assert x[..|s|] == x[..|body|][..|s|];
    SubSlice(x, 0, |body|, |s|, n);
    SubSlice(x, 0, |body|, n, n + |tree|);
  }

  /**
    What is found in it: the hashtree descriptor asked for, with the tree that is stored as one over its data, then
    properties and command lines, behind a header with the values asked for and the version they need.
   */
  lemma AddedContents(lib: D.Hashes, a: Args, c: bytes, bs: nat)
    requires Usable(lib, a.base.algorithm, bs) && bs >= SIZE && Add(lib, a, c, bs).Ok? && Stripped(c) != []
    requires SmallBlob(lib, a, Stripped(c), bs)
    ensures ParseImage(lib, Add(lib, a, c, bs).value).Ok?
    ensures var s := Stripped(c);
            var (_, h, ds) := ParseImage(lib, Add(lib, a, c, bs).value).value;
            var m, k := |a.base.blob.props|, |a.base.blob.cmdlines|;
            && 1 + m + k <= |ds| && Describes(lib, a, ds[0], s, bs)
            && (forall i :: 0 <= i < m ==> VbMeta.IsProp(ds[1 + i], a.base.blob.props[i]))
            && (forall i :: 0 <= i < k ==> ds[1 + m + i] == D.KernelCmdline(0, a.base.blob.cmdlines[i]))
            && ds[1 + m + k..] == Merging.Included(VbMeta.AllIncluded(a.base.images))
            && h.rollbackIndex == a.base.blob.rollbackIndex && h.flags == a.base.blob.flags
            && h.rollbackIndexLocation == a.base.blob.rollbackIndexLocation
            && HashFooter.Needs(h.minor, a.base.blob.rollbackIndexLocation > 0,
                                a.base.persistentDigest || a.base.doNotUseAb || a.checkAtMostOnce, a.base.images)
  {
    hide Add, Stripped, WithFooter, FooterOf, VbMeta.ParseAt, VbMeta.IsProp, VbMeta.Generated, WF, Merging.Included,
      VbMeta.AllIncluded, RoundToMultiple, HashtreeDescriptor, Fits, Body, SizeChecked, Describes, Reserved, Usable,
      BlobDescriptors, VbMeta.BlobHeader, D.EncodeAll;
    AddedIs(lib, a, c, bs);
    AddedParses(lib, a, c, bs);
    var x, s := Add(lib, a, c, bs).value, Stripped(c);
    var body, blob := Body(lib, a, s, bs), BlobFor(lib, a, s, bs).value;
    WithFooterHasFooter(|s|, body, blob, bs, a.base.partitionSize);
    BlobInPlace(|s|, body, blob, bs, a.base.partitionSize);
    VbMeta.GeneratedContents(lib, BlobArgs(a), [HashtreeDescriptor(lib, a, s, bs)], a.base.images, x,
                             RoundToMultiple(|body|, bs));
    DescribesIt(lib, a, s, bs);
  }

  /** The fields of the descriptor, and the tree it speaks of. */
  ghost predicate Describes(lib: D.Hashes, a: Args, d: D.Descriptor, s: bytes, bs: nat)
    requires Usable(lib, a.base.algorithm, bs)
  {
    var n := RoundToMultiple(|s|, bs);
    && d.Hashtree? && d.verityVersion == 1 && d.imageSize == d.treeOffset == n
    && d.dataBlockSize == d.hashBlockSize == bs && d.fecNumRoots == d.fecOffset == d.fecSize == 0
    && d.algorithm == a.base.algorithm && d.name == a.base.name && d.salt == a.base.salt
    && d.flags == (if a.base.doNotUseAb then 1 else 0) + (if a.checkAtMostOnce then 2 else 0)
    && d.treeSize == |StoredTree(lib, a, s, bs)| && (a.noHashtree ==> d.treeSize == 0)
    && (a.base.persistentDigest ==> d.rootDigest == [])
    && exists offsets, tree, root :: IsTreeOf(lib, a, d, s, bs, offsets, tree, root)
  }

  /** A tree over the content in whole blocks, stored and named as the arguments ask. */
  ghost predicate IsTreeOf(lib: D.Hashes, a: Args, d: D.Descriptor, s: bytes, bs: nat, offsets: seq<nat>, tree: bytes,
                           root: bytes)
    requires Usable(lib, a.base.algorithm, bs) && d.Hashtree?
  {
    var size, p := lib.tree.size(a.base.algorithm).value, TreeParams(lib, a, bs);
    && (forall x :: p.hash(x) == lib.tree.digest(a.base.algorithm, x))
    && p.digestSize == size && p.salt == a.base.salt && p.padding == RoundToPow2(size) - size && p.bs == bs
    && HashTree.IsTree(p, Resize(s, RoundToMultiple(|s|, bs)), offsets, tree, root)
    && (!a.noHashtree ==> tree == StoredTree(lib, a, s, bs)) && (!a.base.persistentDigest ==> root == d.rootDigest)
  }

  lemma DescribesIt(lib: D.Hashes, a: Args, s: bytes, bs: nat)
    requires Usable(lib, a.base.algorithm, bs) && s != []
    ensures Describes(lib, a, HashtreeDescriptor(lib, a, s, bs), s, bs)
  {
    hide IsTreeOf, HashTree.IsTree, HashTree.Tree, HashTree.Root, HashTree.LevelSizes, HashTree.Offsets, RoundToPow2,
      Usable;
    TreeIsStored(lib, a, s, bs);
  }

  lemma TreeIsStored(lib: D.Hashes, a: Args, s: bytes, bs: nat)
    requires Usable(lib, a.base.algorithm, bs) && s != []
    ensures exists offsets, tree, root ::
              IsTreeOf(lib, a, HashtreeDescriptor(lib, a, s, bs), s, bs, offsets, tree, root)
  {
    hide HashTree.IsTree, HashTree.Tree, HashTree.Root, HashTree.LevelSizes, HashTree.Offsets, RoundToPow2;
    ParamsWF(lib, a, bs);
    var p, t := TreeParams(lib, a, bs), Grown(s, bs);
    HashTree.TreeIs(p, t);
    var offsets := HashTree.Offsets(HashTree.LevelSizes(|t|, bs, p.EntrySize()));
    var d := HashtreeDescriptor(lib, a, s, bs);
    assert IsTreeOf(lib, a, d, s, bs, offsets, HashTree.Tree(p, t), HashTree.Root(p, t));
  }

  /** Erasing the footer, tree and all, restores the content. */
  lemma EraseAfterAdd(lib: D.Hashes, a: Args, c: bytes, bs: nat)
    requires Usable(lib, a.base.algorithm, bs) && SIZE <= bs <= MAX_METADATA_SIZE && Add(lib, a, c, bs).Ok?
    requires SmallBlob(lib, a, Stripped(c), bs)
    ensures EraseFooter(lib, Add(lib, a, c, bs).value) == Ok(Stripped(c))
    ensures FooterOf(c) == None ==> EraseFooter(lib, Add(lib, a, c, bs).value) == Ok(c)
  {
    AddedParses(lib, a, c, bs);
    ContentInFront(lib, a, c, bs);
    hide Add, BlobFor, BlobDescriptors, ParseImage, FooterOf, SmallBlob, Resize, Body, Fits, HashtreeDescriptor;
  }

  /** The descriptors an added footer's image is found to have: those of the blob with the last block over it. */
  ghost function FoundArea(lib: D.Hashes, a: Args, c: bytes, bs: nat): bytes
    requires Usable(lib, a.base.algorithm, bs) && HashFooter.SmallBlocks(bs) && Add(lib, a, c, bs).Ok?
  {
    AddedIs(lib, a, c, bs);
    var s := Stripped(c);
    BlobForIs(lib, a, s, bs);
    TreeWithinReservation(lib, a, s, bs);
    var body := Body(lib, a, s, bs);
    HashFooter.HeaderInFront(body, bs, a.base.partitionSize);
    HashFooter.Area(lib, BlobDescriptors(lib, a, s, bs).value, body,
                    FooterFor(|s|, |body|, BlobFor(lib, a, s, bs).value, bs), bs, a.base.partitionSize)
  }

  /**
    Whether or not the blob fits: _parse_image finds footer and header, and the descriptors of the overlaid area;
    erase_footer restores the content exactly when that area parses.
   */
  lemma AddedParsesAs(lib: D.Hashes, a: Args, c: bytes, bs: nat)
    requires Usable(lib, a.base.algorithm, bs) && HashFooter.SmallBlocks(bs) && Add(lib, a, c, bs).Ok?
    ensures BlobFor(lib, a, Stripped(c), bs).Ok? && BlobDescriptors(lib, a, Stripped(c), bs).Ok?
    ensures var x, s := Add(lib, a, c, bs).value, Stripped(c);
            var ds, area := BlobDescriptors(lib, a, s, bs).value, FoundArea(lib, a, c, bs);
            && VbMeta.AllWF(lib, ds)
            && ParseImage(lib, x)
               == HashFooter.Parsed(lib, FooterFor(|s|, |Body(lib, a, s, bs)|, BlobFor(lib, a, s, bs).value, bs),
                                    VbMeta.BlobHeader(BlobArgs(a), Minor(a), |D.EncodeAll(lib, ds)|), area)
            && EraseFooter(lib, x) == if D.Parse(lib, area).Ok? then Ok(s) else Err(D.Parse(lib, area).error)
  {
    hide Add, BlobFor, BlobDescriptors, WithFooter, VbMeta.BlobHeader, VbMeta.BlobFits, VbMeta.Blob, D.EncodeAll, WF,
      Resize, Stripped, HashFooter.Area, D.Parse, D.WF, InFront, ParseImage, HashFooter.Parsed, EraseFooter, FooterFor,
      Body, SizeChecked, HashtreeDescriptor, Usable, FooterOf;
    AddedIs(lib, a, c, bs);
    var s := Stripped(c);
    BlobForIs(lib, a, s, bs);
    TreeWithinReservation(lib, a, s, bs);
    var body, blob, ds := Body(lib, a, s, bs), BlobFor(lib, a, s, bs).value, BlobDescriptors(lib, a, s, bs).value;
    assert VbMeta.AllWF(lib, ds) by {
      HashFooter.BlobParts(lib, BlobArgs(a), Minor(a), ds);
    }
    HashFooter.HeaderInFront(body, bs, a.base.partitionSize);
    HashFooter.FinishedParsesAs(lib, BlobArgs(a), Minor(a), ds, |s|, body, bs, a.base.partitionSize);
    HashFooter.OriginalSize(|s|, |body|, blob, bs);
    HashFooter.EraseParsed(lib, Add(lib, a, c, bs).value, FooterFor(|s|, |body|, blob, bs),
                           VbMeta.BlobHeader(BlobArgs(a), Minor(a), |D.EncodeAll(lib, ds)|), FoundArea(lib, a, c, bs));
    ContentInFront(lib, a, c, bs);
  }

  /** erase_footer with keep_hashtree: cuts behind the tree the first hashtree descriptor names. */
  function EraseKeepingTree(lib: D.Hashes, c: bytes): Result<bytes> {
    var (f, _, ds) :- ParseImage(lib, c);
    if f.None? then Err(AvbError)
    else
      var n := TreeEnd(ds);
      if n == 0 then Err(AvbError) else Ok(Resize(c, n))
  }

  /** Where the data of the first hashtree descriptor ends; 0 without one. */
  function TreeEnd(ds: seq<D.Descriptor>): nat {
    if ds == [] then 0
    else if ds[0].Hashtree? then
      var n := ds[0].treeOffset + ds[0].treeSize;
      if ds[0].fecOffset > 0 then Max(n, ds[0].fecOffset + ds[0].fecSize) else n
    else TreeEnd(ds[1..])
  }

  lemma TreeEndsWithBody(lib: D.Hashes, a: Args, s: bytes, bs: nat, ds: seq<D.Descriptor>)
    requires Usable(lib, a.base.algorithm, bs) && ds != [] && ds[0] == HashtreeDescriptor(lib, a, s, bs)
    ensures TreeEnd(ds) == |Body(lib, a, s, bs)| >= |s|
  {
    hide StoredTree, TreeParams, HashTree.Root;
  }

  lemma BodyInFront(lib: D.Hashes, a: Args, c: bytes, bs: nat)
    requires Usable(lib, a.base.algorithm, bs) && SIZE <= bs <= MAX_METADATA_SIZE && Add(lib, a, c, bs).Ok?
    ensures Resize(Add(lib, a, c, bs).value, |Body(lib, a, Stripped(c), bs)|) == Body(lib, a, Stripped(c), bs)
  {
    AddedIs(lib, a, c, bs);
    var s := Stripped(c);
    var body, blob := Body(lib, a, s, bs), BlobFor(lib, a, s, bs).value;
    TreeWithinReservation(lib, a, s, bs);
    hide Add, BlobFor, Resize, WithFooter, Body, WF, FooterFor, SizeChecked, Stripped;
    WithFooterPrefix(|s|, body, blob, bs, a.base.partitionSize, |body|);
    assert body[..|body|] == body;
  }

  /** Keeping the tree leaves exactly the grown content and its tree. */
  lemma KeepTreeAfterAdd(lib: D.Hashes, a: Args, c: bytes, bs: nat)
    requires Usable(lib, a.base.algorithm, bs) && SIZE <= bs <= MAX_METADATA_SIZE && Add(lib, a, c, bs).Ok?
    requires SmallBlob(lib, a, Stripped(c), bs) && Stripped(c) != []
    ensures EraseKeepingTree(lib, Add(lib, a, c, bs).value) == Ok(Body(lib, a, Stripped(c), bs))
  {
    AddedParses(lib, a, c, bs);
    BodyInFront(lib, a, c, bs);
    hide Add, BlobFor, BlobDescriptors, ParseImage, FooterOf, SmallBlob, Resize, Body, TreeEnd, HashtreeDescriptor,
      Fits, Stripped;
    TreeEndsWithBody(lib, a, Stripped(c), bs, BlobDescriptors(lib, a, Stripped(c), bs).value);
  }

  /** Adding for one partition size and resizing to another is adding for the other. */
  lemma ResizeAfterAdd(lib: D.Hashes, a: Args, c: bytes, bs: nat, partitionSize: nat)
    requires Usable(lib, a.base.algorithm, bs) && bs >= SIZE && Add(lib, a, c, bs).Ok?
    requires var a2 := a.(base := a.base.(partitionSize := partitionSize)); Add(lib, a2, c, bs).Ok?
    requires SmallBlob(lib, a, Stripped(c), bs)
    ensures ResizeImage(lib, Add(lib, a, c, bs).value, bs, partitionSize)
         == Add(lib, a.(base := a.base.(partitionSize := partitionSize)), c, bs)
  {
    var a2 := a.(base := a.base.(partitionSize := partitionSize));
    var s := Stripped(c);
    SameParts(lib, a, a2, s, bs);
    AddedParses(lib, a, c, bs);
    AddedIs(lib, a, c, bs);
    AddedIs(lib, a2, c, bs);
    hide Add, BlobFor, BlobDescriptors, ParseImage, FooterOf, Stripped, WithFooter, Body, WF, FooterFor, SizeChecked,
      ResizeImage, Fits, HashtreeDescriptor, Reserved;
    var body, blob, ds := Body(lib, a, s, bs), BlobFor(lib, a, s, bs).value, BlobDescriptors(lib, a, s, bs).value;
    CheckedImageFits(lib, a2, s, bs, blob);
    var h :| ParseImage(lib, Add(lib, a, c, bs).value) == Ok((Some(FooterFor(|s|, |body|, blob, bs)), h, ds));
    HashFooter.ResizeFinished(lib, |s|, body, blob, h, ds, bs, a.base.partitionSize, partitionSize);
  }

  lemma SameParts(lib: D.Hashes, a: Args, a2: Args, s: bytes, bs: nat)
    requires Usable(lib, a.base.algorithm, bs) && a2 == a.(base := a.base.(partitionSize := a2.base.partitionSize))
    ensures BlobFor(lib, a2, s, bs) == BlobFor(lib, a, s, bs) && Body(lib, a2, s, bs) == Body(lib, a, s, bs)
  {
    hide VbMeta.Generated, HashTree.Tree, HashTree.Root, Grown;
    ParamsWF(lib, a, bs);
    ParamsWF(lib, a2, bs);
    SameParams(lib, a, a2, bs);
  }

  lemma SameParams(lib: D.Hashes, a: Args, a2: Args, bs: nat)
    requires Usable(lib, a.base.algorithm, bs) && a2 == a.(base := a.base.(partitionSize := a2.base.partitionSize))
    ensures TreeParams(lib, a, bs) == TreeParams(lib, a2, bs)
  {
  }
}
