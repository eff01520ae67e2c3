/** verify_image without signatures: when each descriptor, and an image with all its descriptors, is accepted. */
module Verification {
  import opened Bytes
  import D = Descriptors
  import Merging
  import VbMeta
  import opened Footers
  import HashFooter
  import HashTree
  import HashtreeFooter
  import ZeroHashtree

  /** Flat contents of the image files next to the one being verified, by partition name. */
  type Files = map<bytes, bytes>

  /** Where the data a descriptor speaks of is read from: a file of its own, or the containing image. */
  predicate Readable(name: bytes, files: Files) {
    name == [] || name in files
  }

  function Source(name: bytes, files: Files, own: bytes): bytes
    requires Readable(name, files)
  {
    if name == [] then own else files[name]
  }

  /** A hash descriptor reads its partition's file from the start, but the containing image from the cursor on. */
  predicate HashAccepted(lib: D.Hashes, d: D.Descriptor, files: Files, own: bytes, pos: nat)
    requires d.Hash?
  {
    && Readable(d.name, files)
    && lib.plain.size(d.algorithm).Some?
    && var at := if d.name == [] then pos else 0;
       var data := Slice(Source(d.name, files, own), at, at + d.imageSize);
       d.digest == [] || lib.plain.digest(d.algorithm, d.salt + data) == d.digest
  }

  function TreeParams(lib: D.Hashes, d: D.Descriptor): HashTree.Params
    requires d.Hashtree? && lib.tree.size(d.algorithm).Some? && lib.tree.size(d.algorithm).value > 0
  {
    HashtreeFooter.ParamsOf(lib, d.algorithm, d.salt, d.dataBlockSize)
  }

  /** The image is at least one block and is all there. */
  ghost predicate TreeDomain(lib: D.Hashes, d: D.Descriptor, content: bytes)
    requires d.Hashtree?
  {
    HashtreeFooter.Usable(lib, d.algorithm, d.dataBlockSize) && d.dataBlockSize <= d.imageSize <= |content|
  }

  lemma TreeParamsWF(lib: D.Hashes, d: D.Descriptor)
    requires d.Hashtree? && HashtreeFooter.Usable(lib, d.algorithm, d.dataBlockSize)
    ensures TreeParams(lib, d).WF()
  {
  }

  function OnDisk(d: D.Descriptor, content: bytes): bytes
    requires d.Hashtree?
  {
    Slice(content, d.treeOffset, d.treeOffset + d.treeSize)
  }

  predicate Zeroed(d: D.Descriptor, content: bytes)
    requires d.Hashtree?
  {
    d.treeSize == 0 || Slice(OnDisk(d, content), 0, 8) == ZeroHashtree.MARK
  }

  /** The root digest is checked unless there is none; then the stored tree, unless it is zeroed and that is fine. */
  ghost predicate TreeAccepted(lib: D.Hashes, d: D.Descriptor, content: bytes, acceptZeroed: bool)
    requires d.Hashtree? && TreeDomain(lib, d, content)
  {
    TreeParamsWF(lib, d);
    var p, data := TreeParams(lib, d), content[..d.imageSize];
    && (d.rootDigest == [] || HashTree.Root(p, data) == d.rootDigest)
    && ((Zeroed(d, content) && acceptZeroed) || HashTree.Tree(p, data) == OnDisk(d, content))
  }

  /** desc.verify, for chain partitions without any expected ones. */
  ghost predicate Accepted(lib: D.Hashes, d: D.Descriptor, files: Files, own: bytes, pos: nat, acceptZeroed: bool) {
    match d
    case Hash(_, _, _, _, _, _) => HashAccepted(lib, d, files, own, pos)
    case Hashtree(_, _, _, _, _, _, _, _, _, _, name, _, _, _) =>
      && Readable(name, files) && TreeDomain(lib, d, Source(name, files, own))
      && TreeAccepted(lib, d, Source(name, files, own), acceptZeroed)
    case ChainPartition(_, _, _, _) => false
    case _ => true
  }

  /** The cursor of the containing image after a descriptor was verified. */
  function CursorAfter(d: D.Descriptor, own: bytes, pos: nat): nat {
    match d
    case Hash(size, _, name, _, _, _) => if name == [] then pos + |Slice(own, pos, pos + size)| else pos
    case Hashtree(_, _, to, _, _, _, _, _, _, _, name, _, _, _) => if name == [] then to + |OnDisk(d, own)| else pos
    case _ => pos
  }

  ghost predicate AllAccepted(lib: D.Hashes, ds: seq<D.Descriptor>, files: Files, own: bytes, pos: nat,
                              acceptZeroed: bool)
  {
    ds == []
    || (Accepted(lib, ds[0], files, own, pos, acceptZeroed)
        && AllAccepted(lib, ds[1..], files, own, CursorAfter(ds[0], own, pos), acceptZeroed))
  }

  /** verify_image: the image parses, is unsigned and all its descriptors are accepted. */
  ghost predicate ImageAccepted(lib: D.Hashes, c: bytes, files: Files, acceptZeroed: bool) {
    var p := ParseImage(lib, c);
    && p.Ok?
    && var (f, h, ds) := p.value;
       h.algorithm == 0 && AllAccepted(lib, ds, files, c, BlobEnd(c, f, h), acceptZeroed)
  }

  /** The cursor once the blob was read. */
  function BlobEnd(c: bytes, f: Option<Footer>, h: VbMeta.Header): nat {
    var off := if f.Some? then f.value.vbmetaOffset else 0;
    off + |Slice(c, off, off + VbMeta.HEADER_SIZE + h.authSize + h.auxSize)|
  }

  // ------------------------------------------------------------- what an image is accepted by

  /** A descriptor that leaves the cursor where it is. */
  predicate Still(d: D.Descriptor) {
    match d
    case Hash(_, _, name, _, _, _) => name != []
    case Hashtree(_, _, _, _, _, _, _, _, _, _, name, _, _, _) => name != []
    case _ => true
  }

  predicate AllStill(ds: seq<D.Descriptor>) {
    forall i :: 0 <= i < |ds| ==> Still(ds[i])
  }

  /** Named descriptors in front are accepted each on its own. */
  lemma {:induction false} AcceptedInFront(lib: D.Hashes, ds: seq<D.Descriptor>, es: seq<D.Descriptor>, files: Files,
                                          own: bytes, pos: nat, acceptZeroed: bool)
    requires AllStill(ds)
    ensures AllAccepted(lib, ds + es, files, own, pos, acceptZeroed)
            <==> (forall i :: 0 <= i < |ds| ==> Accepted(lib, ds[i], files, own, pos, acceptZeroed))
                 && AllAccepted(lib, es, files, own, pos, acceptZeroed)
  {
    hide Accepted, OnDisk;
    if ds == [] {
      assert ds + es == es;
    } else {
      assert (ds + es)[1..] == ds[1..] + es && (ds + es)[0] == ds[0];
      AcceptedInFront(lib, ds[1..], es, files, own, pos, acceptZeroed);
      assert forall i :: 0 <= i < |ds| - 1 ==> ds[1..][i] == ds[i + 1];
      assert forall i :: 1 <= i < |ds| ==> ds[i] == ds[1..][i - 1];
    }
  }

  /** Properties and kernel command lines are always accepted. */
  predicate JustText(d: D.Descriptor) {
    d.Property? || d.KernelCmdline?
  }

  lemma {:induction false} PropsAreText(props: seq<bytes>)
    requires VbMeta.PropDescriptors(props).Ok?
    ensures forall d <- VbMeta.PropDescriptors(props).value :: JustText(d)
  {
    if props != [] {
      PropsAreText(props[1..]);
    }
  }

  lemma TextIsAccepted(lib: D.Hashes, d: D.Descriptor, files: Files, own: bytes, pos: nat, acceptZeroed: bool)
    requires JustText(d)
    ensures Still(d) && Accepted(lib, d, files, own, pos, acceptZeroed)
  {
  }

  /** A blob of one descriptor, text and included descriptors stands and falls with the first and the last. */
  lemma OwnAndIncluded(lib: D.Hashes, args: VbMeta.Args, d: D.Descriptor, images: seq<VbMeta.Image>, files: Files,
                       own: bytes, pos: nat, acceptZeroed: bool)
    requires VbMeta.AllDescriptors(args, [d], images).Ok? && Still(d)
    ensures AllAccepted(lib, VbMeta.AllDescriptors(args, [d], images).value, files, own, pos, acceptZeroed)
            <==> Accepted(lib, d, files, own, pos, acceptZeroed)
                 && AllAccepted(lib, Merging.Included(VbMeta.AllIncluded(images)), files, own, pos, acceptZeroed)
  {
    hide Accepted, AllAccepted, Merging.Included, VbMeta.AllIncluded;
    PropsAreText(args.props);
    var text := VbMeta.PropDescriptors(args.props).value + VbMeta.CmdlineDescriptors(args.cmdlines);
    forall i | 0 <= i < |text| ensures Still(text[i]) && Accepted(lib, text[i], files, own, pos, acceptZeroed) {
      TextIsAccepted(lib, text[i], files, own, pos, acceptZeroed);
    }
    var rest := Merging.Included(VbMeta.AllIncluded(images));
    assert VbMeta.AllDescriptors(args, [d], images).value == ([d] + text) + rest;
    assert ([d] + text)[0] == d;
    assert forall i :: 1 <= i < |[d] + text| ==> ([d] + text)[i] == text[i - 1];
    AcceptedInFront(lib, [d] + text, rest, files, own, pos, acceptZeroed);
  }

  /** What must hold of the data a descriptor speaks of; chain partitions are refused, other kinds pass. */
  ghost predicate Holds(lib: D.Hashes, d: D.Descriptor, files: Files, own: bytes, at: nat, acceptZeroed: bool) {
    && !d.ChainPartition?
    && (d.Hash? ==>
          && (d.name == [] || d.name in files) && lib.plain.size(d.algorithm).Some?
          && var data :=
               if d.name == [] then Slice(own, at, at + d.imageSize) else Slice(files[d.name], 0, d.imageSize);
             d.digest == [] || d.digest == lib.plain.digest(d.algorithm, d.salt + data))
    && (d.Hashtree? ==>
          && (d.name == [] || d.name in files)
          && var data := if d.name == [] then own else files[d.name];
             TreeDomain(lib, d, data) && TreeAccepted(lib, d, data, acceptZeroed))
  }

  /** Where a file is left by reading n bytes at a place. */
  function ReadTo(s: bytes, at: nat, n: nat): nat {
    if at + n <= |s| then at + n else if at <= |s| then |s| else at
  }

  /** Where each descriptor finds the cursor of the containing image: only those without a name move it. */
  ghost predicate Cursors(ds: seq<D.Descriptor>, own: bytes, cs: seq<nat>) {
    |cs| == |ds| + 1 && forall i :: 0 <= i < |ds| ==> cs[i + 1] == Moved(ds[i], own, cs[i])
  }

  function Moved(d: D.Descriptor, own: bytes, at: nat): nat {
    if d.Hash? && d.name == [] then ReadTo(own, at, d.imageSize)
    else if d.Hashtree? && d.name == [] then ReadTo(own, d.treeOffset, d.treeSize)
    else at
  }

  /** An image is accepted when it is unsigned and each of its descriptors holds from the cursor it finds. */
  lemma ImageAcceptedIff(lib: D.Hashes, c: bytes, files: Files, acceptZeroed: bool, cs: seq<nat>)
    requires ParseImage(lib, c).Ok? && Cursors(ParseImage(lib, c).value.2, c, cs)
    requires var (f, h, _) := ParseImage(lib, c).value;
             cs[0] == ReadTo(c, if f.Some? then f.value.vbmetaOffset else 0, 256 + h.authSize + h.auxSize)
    ensures var (_, h, ds) := ParseImage(lib, c).value;
            ImageAccepted(lib, c, files, acceptZeroed)
            <==> h.algorithm == 0 && forall i :: 0 <= i < |ds| ==> Holds(lib, ds[i], files, c, cs[i], acceptZeroed)
  {
    hide ParseImage, AllAccepted, Holds, Cursors, TreeAccepted, TreeDomain;
    var (f, h, ds) := ParseImage(lib, c).value;
    ReadsTo(c, if f.Some? then f.value.vbmetaOffset else 0, 256 + h.authSize + h.auxSize);
    AllAcceptedIff(lib, ds, files, c, acceptZeroed, cs);
  }

  lemma ReadsTo(s: bytes, at: nat, n: nat)
    ensures at + |Slice(s, at, at + n)| == ReadTo(s, at, n)
  {
  }

  lemma {:induction false} AllAcceptedIff(lib: D.Hashes, ds: seq<D.Descriptor>, files: Files, own: bytes,
                                         acceptZeroed: bool, cs: seq<nat>)
    requires Cursors(ds, own, cs)
    ensures AllAccepted(lib, ds, files, own, cs[0], acceptZeroed)
            <==> forall i :: 0 <= i < |ds| ==> Holds(lib, ds[i], files, own, cs[i], acceptZeroed)
  {
    hide Holds, Accepted, CursorAfter, Moved;
    if ds != [] {
      AcceptedHolds(lib, ds[0], files, own, cs[0], acceptZeroed);
      MovedIs(ds[0], own, cs[0]);
      var dt, ct := ds[1..], cs[1..];
      assert forall i {:trigger dt[i]} :: 0 <= i < |dt| ==> dt[i] == ds[i + 1] && ct[i] == cs[i + 1];
      assert forall i {:trigger ds[i]} :: 1 <= i < |ds| ==> ds[i] == dt[i - 1] && cs[i] == ct[i - 1];
      AllAcceptedIff(lib, dt, files, own, acceptZeroed, ct);
    }
  }

  lemma MovedIs(d: D.Descriptor, own: bytes, at: nat)
    ensures Moved(d, own, at) == CursorAfter(d, own, at)
  {
  }

  lemma AcceptedHolds(lib: D.Hashes, d: D.Descriptor, files: Files, own: bytes, pos: nat, acceptZeroed: bool)
    ensures Accepted(lib, d, files, own, pos, acceptZeroed) <==> Holds(lib, d, files, own, pos, acceptZeroed)
  {
    hide TreeAccepted, TreeDomain;
  }

  // ------------------------------------------------------------- what is added is accepted

  /** The hash descriptor of an added footer is accepted on the finished image, under its partition's name. */
  lemma AddedHashAccepted(lib: D.Hashes, a: HashFooter.Args, c: bytes, bs: nat, files: Files, own: bytes, pos: nat)
    requires SIZE <= bs <= MAX_METADATA_SIZE && HashFooter.Add(lib, a, c, bs).Ok? && a.name != []
    requires a.name in files && files[a.name] == HashFooter.Add(lib, a, c, bs).value
    ensures HashAccepted(lib, HashFooter.HashDescriptor(lib, a, Stripped(c)), files, own, pos)
  {
    hide HashFooter.Add, HashFooter.BlobFor, Stripped, WithFooter, FooterFor, WF, Slice;
    AlgorithmKnown(lib, a, c, bs);
    AddedInFront(lib, a, c, bs);
  }

  /** The finished image starts with the stripped content. */
  lemma AddedInFront(lib: D.Hashes, a: HashFooter.Args, c: bytes, bs: nat)
    requires SIZE <= bs <= MAX_METADATA_SIZE && HashFooter.Add(lib, a, c, bs).Ok?
    ensures Slice(HashFooter.Add(lib, a, c, bs).value, 0, |Stripped(c)|) == Stripped(c)
  {
    hide HashFooter.Add, HashFooter.BlobFor, Stripped, WithFooter, FooterFor, WF;
    HashFooter.AddedIs(lib, a, c, bs);
    var s, x := Stripped(c), HashFooter.Add(lib, a, c, bs).value;
    WithFooterPrefix(|s|, s, HashFooter.BlobFor(lib, a, s).value, bs, a.partitionSize, |s|);
    assert s[..|s|] == s;
    assert Slice(x, 0, |s|) == x[..|s|] == Resize(x, |s|);
  }

  /**
    The finished image itself, its own file among the files: it is accepted as a whole exactly when the descriptors it
    includes from other images are.
   */
  lemma AddedHashImageAccepted(lib: D.Hashes, a: HashFooter.Args, c: bytes, bs: nat, files: Files, acceptZeroed: bool)
    requires SIZE <= bs <= MAX_METADATA_SIZE && HashFooter.Add(lib, a, c, bs).Ok? && a.name != []
    requires HashFooter.BlobFitsPartition(lib, a, c, bs)
    requires a.name in files && files[a.name] == HashFooter.Add(lib, a, c, bs).value
    ensures var x := HashFooter.Add(lib, a, c, bs).value;
            && ParseImage(lib, x).Ok?
            && var (f, h, _) := ParseImage(lib, x).value;
               ImageAccepted(lib, x, files, acceptZeroed)
               <==> AllAccepted(lib, Merging.Included(VbMeta.AllIncluded(a.images)), files, x, BlobEnd(x, f, h),
                                acceptZeroed)
  {
    HashFooter.AddedParses(lib, a, c, bs);
    var x, s := HashFooter.Add(lib, a, c, bs).value, Stripped(c);
    var (f, h, ds) := ParseImage(lib, x).value;
    AddedHashAccepted(lib, a, c, bs, files, x, BlobEnd(x, f, h));
    hide HashFooter.Add, Stripped, HashFooter.BlobFor, HashFooter.BlobFitsPartition, ParseImage, AllAccepted,
      HashAccepted, VbMeta.AllDescriptors, BlobEnd, Merging.Included, VbMeta.AllIncluded;
    OwnAndIncluded(lib, HashFooter.BlobArgs(a), HashFooter.HashDescriptor(lib, a, s), a.images, files, x,
                   BlobEnd(x, f, h), acceptZeroed);
  }

  lemma AlgorithmKnown(lib: D.Hashes, a: HashFooter.Args, c: bytes, bs: nat)
    requires bs >= SIZE && HashFooter.Add(lib, a, c, bs).Ok?
    ensures lib.plain.size(a.algorithm).Some?
  {
    hide Stripped, HashFooter.BlobFor, WithFooter;
  }

  /** Two images accepted under one hashtree descriptor hold the same data, unless hash inputs met for both collide. */
  lemma TreeBinds(lib: D.Hashes, d: D.Descriptor, a: bytes, b: bytes, acceptZeroed: bool)
    requires d.Hashtree? && d.rootDigest != [] && TreeDomain(lib, d, a) && TreeDomain(lib, d, b)
    requires TreeAccepted(lib, d, a, acceptZeroed) && TreeAccepted(lib, d, b, acceptZeroed)
    ensures TreeParams(lib, d).WF()
    ensures var p, x, y := TreeParams(lib, d), a[..d.imageSize], b[..d.imageSize];
            x == y || HashTree.Collide(p.hash, HashTree.Inputs(p, x), HashTree.Inputs(p, y))
  {
    TreeParamsWF(lib, d);
    hide HashTree.Root, HashTree.Tree, HashTree.Inputs, TreeParams;
    HashTree.RootBinds(TreeParams(lib, d), a[..d.imageSize], b[..d.imageSize]);
  }

  /** Two images of the same data accepted under one hashtree descriptor hold the same tree. */
  lemma TreeRegionBinds(lib: D.Hashes, d: D.Descriptor, a: bytes, b: bytes)
    requires d.Hashtree? && TreeDomain(lib, d, a) && TreeDomain(lib, d, b) && a[..d.imageSize] == b[..d.imageSize]
    requires TreeAccepted(lib, d, a, false) && TreeAccepted(lib, d, b, false)
    ensures Slice(a, d.treeOffset, d.treeOffset + d.treeSize) == Slice(b, d.treeOffset, d.treeOffset + d.treeSize)
  {
    hide HashTree.Root, HashTree.Tree, TreeParams, Slice;
    TreeParamsWF(lib, d);
  }

  // ------------------------------------------------------------- hash trees

  lemma BodyParts(lib: D.Hashes, a: HashtreeFooter.Args, c: bytes, bs: nat)
    requires HashtreeFooter.Usable(lib, a.base.algorithm, bs) && SIZE <= bs <= MAX_METADATA_SIZE
    requires HashtreeFooter.Add(lib, a, c, bs).Ok?
    ensures var x, s := HashtreeFooter.Add(lib, a, c, bs).value, Stripped(c);
            var t, tree := HashtreeFooter.Grown(s, bs), HashtreeFooter.StoredTree(lib, a, s, bs);
            |t| + |tree| <= |x| && Resize(x, |t| + |tree|) == t + tree
  {
    HashtreeFooter.BodyInFront(lib, a, c, bs);
    HashtreeFooter.AddFillsPartition(lib, a, c, bs);
    HashtreeFooter.AddedIs(lib, a, c, bs);
    hide HashtreeFooter.Add, HashtreeFooter.BlobFor, Stripped, WithFooter, FooterFor, WF, HashtreeFooter.SizeChecked,
      HashtreeFooter.StoredTree, HashtreeFooter.Grown, Resize, Slice;
    HashtreeFooter.TreeWithinReservation(lib, a, Stripped(c), bs);
  }

  /** Content and stored tree as the finished image holds them. */
  lemma AddedTreeParts(lib: D.Hashes, a: HashtreeFooter.Args, c: bytes, bs: nat)
    requires HashtreeFooter.Usable(lib, a.base.algorithm, bs) && SIZE <= bs <= MAX_METADATA_SIZE
    requires HashtreeFooter.Add(lib, a, c, bs).Ok?
    ensures var x, s := HashtreeFooter.Add(lib, a, c, bs).value, Stripped(c);
            var d := HashtreeFooter.HashtreeDescriptor(lib, a, s, bs);
            && d.imageSize <= |x| && x[..d.imageSize] == HashtreeFooter.Grown(s, bs)
            && OnDisk(d, x) == HashtreeFooter.StoredTree(lib, a, s, bs)
  {
    BodyParts(lib, a, c, bs);
    var x, s := HashtreeFooter.Add(lib, a, c, bs).value, Stripped(c);
    DescriptorFields(lib, a, s, bs);
    hide HashtreeFooter.Add, Stripped, HashtreeFooter.StoredTree, HashtreeFooter.Grown, Resize, Slice,
      HashtreeFooter.HashtreeDescriptor, HashtreeFooter.Usable, OnDisk;
    var d := HashtreeFooter.HashtreeDescriptor(lib, a, s, bs);
    var t, tree := HashtreeFooter.Grown(s, bs), HashtreeFooter.StoredTree(lib, a, s, bs);
    PartsOnDisk(x, d, t, tree);
  }

  lemma PartsOnDisk(x: bytes, d: D.Descriptor, t: bytes, tree: bytes)
    requires d.Hashtree? && d.imageSize == d.treeOffset == |t| && d.treeSize == |tree|
    requires |t| + |tree| <= |x| && Resize(x, |t| + |tree|) == t + tree
    ensures x[..d.imageSize] == t && OnDisk(d, x) == tree
  {
    TwoParts(x, t, tree);
  }

  lemma DescriptorFields(lib: D.Hashes, a: HashtreeFooter.Args, s: bytes, bs: nat)
    requires HashtreeFooter.Usable(lib, a.base.algorithm, bs)
    ensures var d := HashtreeFooter.HashtreeDescriptor(lib, a, s, bs);
            && d.Hashtree? && d.imageSize == d.treeOffset == |HashtreeFooter.Grown(s, bs)|
            && d.treeSize == |HashtreeFooter.StoredTree(lib, a, s, bs)|
  {
    hide HashtreeFooter.StoredTree, HashtreeFooter.Grown, HashtreeFooter.TreeParams;
  }

  lemma TwoParts(x: bytes, t: bytes, tree: bytes)
    requires |t| + |tree| <= |x| && Resize(x, |t| + |tree|) == t + tree
    ensures x[..|t|] == t && Slice(x, |t|, |t| + |tree|) == tree
  {
    assert x[..|t| + |tree|][..|t|] == t;
    assert x[..|t| + |tree|][|t|..] == tree;
  }

  /**
    The hashtree descriptor of an added footer is accepted on the finished image, except that an image of several
    blocks added without its tree is accepted only where zeroed trees are.
   */
  lemma AddedTreeAccepted(lib: D.Hashes, a: HashtreeFooter.Args, c: bytes, bs: nat, acceptZeroed: bool)
    requires HashtreeFooter.Usable(lib, a.base.algorithm, bs) && SIZE <= bs <= MAX_METADATA_SIZE
    requires HashtreeFooter.Add(lib, a, c, bs).Ok? && Stripped(c) != []
    ensures var x, s := HashtreeFooter.Add(lib, a, c, bs).value, Stripped(c);
            var d := HashtreeFooter.HashtreeDescriptor(lib, a, s, bs);
            && TreeDomain(lib, d, x)
            && (TreeAccepted(lib, d, x, acceptZeroed)
                <==> !a.noHashtree || acceptZeroed || |HashtreeFooter.Grown(s, bs)| <= bs)
  {
    AddedTreeParts(lib, a, c, bs);
    var x, s := HashtreeFooter.Add(lib, a, c, bs).value, Stripped(c);
    HashtreeFooter.ParamsWF(lib, a, bs);
    var p, t := HashtreeFooter.TreeParams(lib, a, bs), HashtreeFooter.Grown(s, bs);
    MulMod(1, bs);
    MultiplesGap(bs, |t|, bs);
    TreeIsEmpty(p, t);
    hide HashtreeFooter.Add, Stripped, HashTree.Tree, HashTree.Root, OnDisk, HashtreeFooter.Grown;
  }

  /**
    Whatever becomes of a finished image behind its content: under the descriptor added with a tree it is accepted
    exactly as long as the tree is unchanged, or, where that is allowed, marked as zeroed.
   */
  lemma ChangedTreeAccepted(lib: D.Hashes, a: HashtreeFooter.Args, c: bytes, bs: nat, y: bytes, acceptZeroed: bool)
    requires HashtreeFooter.Usable(lib, a.base.algorithm, bs) && SIZE <= bs <= MAX_METADATA_SIZE
    requires HashtreeFooter.Add(lib, a, c, bs).Ok? && Stripped(c) != [] && !a.noHashtree
    requires var x, d := HashtreeFooter.Add(lib, a, c, bs).value,
                         HashtreeFooter.HashtreeDescriptor(lib, a, Stripped(c), bs);
             d.treeOffset <= |x| && d.treeOffset <= |y| && y[..d.treeOffset] == x[..d.treeOffset]
    ensures var x, d := HashtreeFooter.Add(lib, a, c, bs).value,
                        HashtreeFooter.HashtreeDescriptor(lib, a, Stripped(c), bs);
            var was, now := Slice(x, d.treeOffset, d.treeOffset + d.treeSize),
                            Slice(y, d.treeOffset, d.treeOffset + d.treeSize);
            && TreeDomain(lib, d, y)
            && (TreeAccepted(lib, d, y, acceptZeroed)
                <==> now == was || (acceptZeroed && Slice(now, 0, 8) == [90, 101, 82, 111, 72, 97, 83, 72]))
  {
    hide HashtreeFooter.Add, Stripped, HashTree.Tree, HashTree.Root, HashtreeFooter.Grown, TreeParams,
      HashtreeFooter.HashtreeDescriptor, HashtreeFooter.StoredTree, HashtreeFooter.Usable;
    AddedTreeParts(lib, a, c, bs);
    AddedTreeAccepted(lib, a, c, bs, false);
    var x, d := HashtreeFooter.Add(lib, a, c, bs).value, HashtreeFooter.HashtreeDescriptor(lib, a, Stripped(c), bs);
    DescriptorFields(lib, a, Stripped(c), bs);
    ChangedTree(lib, d, x, y, acceptZeroed);
  }

  lemma ChangedTree(lib: D.Hashes, d: D.Descriptor, x: bytes, y: bytes, acceptZeroed: bool)
    requires d.Hashtree? && TreeDomain(lib, d, x) && TreeAccepted(lib, d, x, false) && d.treeOffset == d.imageSize
    requires d.treeOffset <= |x| && d.treeOffset <= |y| && y[..d.treeOffset] == x[..d.treeOffset]
    ensures TreeDomain(lib, d, y)
    ensures TreeAccepted(lib, d, y, acceptZeroed) <==>
              OnDisk(d, y) == OnDisk(d, x) || (acceptZeroed && Slice(OnDisk(d, y), 0, 8) == ZeroHashtree.MARK)
  {
    hide HashTree.Root, HashTree.Tree, TreeParams, HashtreeFooter.Usable;
    TreeParamsWF(lib, d);
  }

  /** The finished image itself, its own file among the files. */
  lemma AddedTreeImageAccepted(lib: D.Hashes, a: HashtreeFooter.Args, c: bytes, bs: nat, files: Files,
                               acceptZeroed: bool)
    requires HashtreeFooter.Usable(lib, a.base.algorithm, bs) && SIZE <= bs <= MAX_METADATA_SIZE
    requires HashtreeFooter.Add(lib, a, c, bs).Ok? && Stripped(c) != [] && a.base.name != []
    requires HashtreeFooter.SmallBlob(lib, a, Stripped(c), bs)
    requires a.base.name in files && files[a.base.name] == HashtreeFooter.Add(lib, a, c, bs).value
    ensures var x := HashtreeFooter.Add(lib, a, c, bs).value;
            && ParseImage(lib, x).Ok?
            && var (f, h, _) := ParseImage(lib, x).value;
               ImageAccepted(lib, x, files, acceptZeroed)
               <==> && (!a.noHashtree || acceptZeroed || |HashtreeFooter.Grown(Stripped(c), bs)| <= bs)
                    && AllAccepted(lib, Merging.Included(VbMeta.AllIncluded(a.base.images)), files, x,
                                   BlobEnd(x, f, h), acceptZeroed)
  {
    hide *;
    AddedTreeAccepted(lib, a, c, bs, acceptZeroed);
    AddedTreeParses(lib, a, c, bs);
    var x, d := HashtreeFooter.Add(lib, a, c, bs).value, HashtreeFooter.HashtreeDescriptor(lib, a, Stripped(c), bs);
    var (f, h, ds) := ParseImage(lib, x).value;
    OwnTree(lib, d, files, x, BlobEnd(x, f, h), acceptZeroed);
    OwnAndIncluded(lib, HashtreeFooter.BlobArgs(a), d, a.base.images, files, x, BlobEnd(x, f, h), acceptZeroed);
    Unsigned(lib, x, files, acceptZeroed);
  }

  lemma AddedTreeParses(lib: D.Hashes, a: HashtreeFooter.Args, c: bytes, bs: nat)
    requires HashtreeFooter.Usable(lib, a.base.algorithm, bs) && bs >= SIZE && HashtreeFooter.Add(lib, a, c, bs).Ok?
    requires HashtreeFooter.SmallBlob(lib, a, Stripped(c), bs)
    ensures var p := ParseImage(lib, HashtreeFooter.Add(lib, a, c, bs).value);
            var d := HashtreeFooter.HashtreeDescriptor(lib, a, Stripped(c), bs);
            && p.Ok? && p.value.1.algorithm == 0 && d.Hashtree? && d.name == a.base.name
            && VbMeta.AllDescriptors(HashtreeFooter.BlobArgs(a), [d], a.base.images) == Ok(p.value.2)
  {
    hide HashtreeFooter.Add, Stripped, HashtreeFooter.BlobFor, HashtreeFooter.SmallBlob, ParseImage,
      VbMeta.AllDescriptors, HashtreeFooter.Grown, HashtreeFooter.StoredTree, HashtreeFooter.Usable;
    HashtreeFooter.AddedParses(lib, a, c, bs);
  }

  lemma OwnTree(lib: D.Hashes, d: D.Descriptor, files: Files, own: bytes, pos: nat, acceptZeroed: bool)
    requires d.Hashtree? && d.name != [] && d.name in files && TreeDomain(lib, d, files[d.name])
    ensures Still(d)
    ensures Accepted(lib, d, files, own, pos, acceptZeroed) <==> TreeAccepted(lib, d, files[d.name], acceptZeroed)
  {
    hide TreeAccepted, TreeDomain;
  }

  lemma Unsigned(lib: D.Hashes, x: bytes, files: Files, acceptZeroed: bool)
    requires ParseImage(lib, x).Ok? && ParseImage(lib, x).value.1.algorithm == 0
    ensures var (f, h, ds) := ParseImage(lib, x).value;
            ImageAccepted(lib, x, files, acceptZeroed)
            <==> AllAccepted(lib, ds, files, x, BlobEnd(x, f, h), acceptZeroed)
  {
    hide ParseImage, AllAccepted, BlobEnd;
  }

  lemma TreeIsEmpty(p: HashTree.Params, s: bytes)
    requires p.WF()
    ensures HashTree.Tree(p, s) == [] <==> |s| <= p.bs
  {
    if |s| > p.bs {
      HashTree.TreeUnfold(p, s);
    }
  }

  /** After zero_hashtree the descriptor is still accepted where zeroed trees are. */
  lemma ZeroedTreeAccepted(lib: D.Hashes, a: HashtreeFooter.Args, c: bytes, bs: nat)
    requires HashtreeFooter.Usable(lib, a.base.algorithm, bs) && SIZE <= bs <= MAX_METADATA_SIZE
    requires HashtreeFooter.Add(lib, a, c, bs).Ok? && Stripped(c) != []
    requires !a.noHashtree && |HashtreeFooter.Grown(Stripped(c), bs)| > bs
    ensures var x := HashtreeFooter.Add(lib, a, c, bs).value;
            var d := HashtreeFooter.HashtreeDescriptor(lib, a, Stripped(c), bs);
            && d.treeSize >= bs && ZeroHashtree.RegionEnd(d) <= |x|
            && TreeDomain(lib, d, ZeroHashtree.Blanked(x, d)) && TreeAccepted(lib, d, ZeroHashtree.Blanked(x, d), true)
  {
    AddedTreeAccepted(lib, a, c, bs, true);
    AddedTreeParts(lib, a, c, bs);
    TreeRegion(lib, a, c, bs);
    var x, d := HashtreeFooter.Add(lib, a, c, bs).value, HashtreeFooter.HashtreeDescriptor(lib, a, Stripped(c), bs);
    hide HashtreeFooter.Add, Stripped, HashTree.Tree, HashTree.Root, HashtreeFooter.HashtreeDescriptor,
      ZeroHashtree.Blanked;
    ZeroHashtree.BlankedParts(x, d);
    BlankedIsZeroed(x, d);
  }

  lemma TreeRegion(lib: D.Hashes, a: HashtreeFooter.Args, c: bytes, bs: nat)
    requires HashtreeFooter.Usable(lib, a.base.algorithm, bs) && SIZE <= bs <= MAX_METADATA_SIZE
    requires HashtreeFooter.Add(lib, a, c, bs).Ok?
    requires !a.noHashtree && |HashtreeFooter.Grown(Stripped(c), bs)| > bs
    ensures var x := HashtreeFooter.Add(lib, a, c, bs).value;
            var d := HashtreeFooter.HashtreeDescriptor(lib, a, Stripped(c), bs);
            && d.treeSize >= bs && d.fecOffset == 0 && d.treeOffset == d.imageSize
            && ZeroHashtree.RegionEnd(d) <= |x|
  {
    var s := Stripped(c);
    HashtreeFooter.AddFillsPartition(lib, a, c, bs);
    HashtreeFooter.AddedIs(lib, a, c, bs);
    HashtreeFooter.TreeWithinReservation(lib, a, s, bs);
    HashtreeFooter.ParamsWF(lib, a, bs);
    HashTree.TreeUnfold(HashtreeFooter.TreeParams(lib, a, bs), HashtreeFooter.Grown(s, bs));
    hide HashtreeFooter.Add, Stripped, HashTree.Tree, HashTree.Root, HashtreeFooter.Grown;
  }

  lemma BlankedIsZeroed(x: bytes, d: D.Descriptor)
    requires d.Hashtree? && ZeroHashtree.RegionEnd(d) <= |x| && d.treeSize >= 8 && d.fecOffset == 0
    ensures Zeroed(d, ZeroHashtree.Blanked(x, d))
  {
    var y := ZeroHashtree.Blanked(x, d);
    assert OnDisk(d, y) == y[d.treeOffset..d.treeOffset + d.treeSize];
    assert y[d.treeOffset..d.treeOffset + d.treeSize][..8] == ZeroHashtree.MARK;
  }

  lemma RegionOfAdded(lib: D.Hashes, a: HashtreeFooter.Args, c: bytes, bs: nat)
    requires HashtreeFooter.Usable(lib, a.base.algorithm, bs) && SIZE <= bs <= MAX_METADATA_SIZE && bs % 4 == 0
    requires HashtreeFooter.Add(lib, a, c, bs).Ok?
    requires !a.noHashtree && |HashtreeFooter.Grown(Stripped(c), bs)| > bs
    ensures var x := HashtreeFooter.Add(lib, a, c, bs).value;
            var d := HashtreeFooter.HashtreeDescriptor(lib, a, Stripped(c), bs);
            && ZeroHashtree.Blankable(d, |x|, bs) && |Stripped(c)| <= d.treeOffset
            && ZeroHashtree.RegionEnd(d) == |HashtreeFooter.Body(lib, a, Stripped(c), bs)|
            && ZeroHashtree.RegionEnd(d) + SIZE <= |x|
            && RoundToMultiple(ZeroHashtree.RegionEnd(d), bs) == ZeroHashtree.RegionEnd(d)
  {
    var s := Stripped(c);
    TreeRegion(lib, a, c, bs);
    HashtreeFooter.AddFillsPartition(lib, a, c, bs);
    HashtreeFooter.AddedIs(lib, a, c, bs);
    HashtreeFooter.TreeWithinReservation(lib, a, s, bs);
    DescriptorFields(lib, a, s, bs);
    hide HashtreeFooter.Add, Stripped, HashtreeFooter.StoredTree, HashtreeFooter.HashtreeDescriptor, WithFooter, WF,
      HashtreeFooter.BlobFor, HashtreeFooter.SizeChecked, HashtreeFooter.Usable;
    FourDivides(|HashtreeFooter.StoredTree(lib, a, s, bs)|, bs);
  }

  lemma FourDivides(n: nat, bs: nat)
    requires bs > 0 && bs % 4 == 0 && n % bs == 0
    ensures n % 4 == 0
  {
    var q := MultipleAsProduct(n, bs);
    var k := bs / 4;
    assert n == 4 * (q * k) by { assert q * (4 * k) == 4 * (q * k); }
  }

  /** zero_hashtree finds the tree that was added, and erasing the footer afterwards still restores the content. */
  lemma ZeroThenErase(lib: D.Hashes, a: HashtreeFooter.Args, c: bytes, bs: nat)
    requires HashtreeFooter.Usable(lib, a.base.algorithm, bs) && SIZE <= bs <= MAX_METADATA_SIZE && bs % 4 == 0
    requires HashtreeFooter.Add(lib, a, c, bs).Ok? && HashtreeFooter.SmallBlob(lib, a, Stripped(c), bs)
    requires !a.noHashtree && |HashtreeFooter.Grown(Stripped(c), bs)| > bs
    ensures var x := HashtreeFooter.Add(lib, a, c, bs).value;
            var d := HashtreeFooter.HashtreeDescriptor(lib, a, Stripped(c), bs);
            && ZeroHashtree.Target(lib, x) == Ok(d) && ZeroHashtree.Blankable(d, |x|, bs)
            && EraseFooter(lib, ZeroHashtree.Blanked(x, d)) == Ok(Stripped(c))
  {
    RegionOfAdded(lib, a, c, bs);
    HashtreeFooter.AddedParses(lib, a, c, bs);
    HashtreeFooter.EraseAfterAdd(lib, a, c, bs);
    var x, s := HashtreeFooter.Add(lib, a, c, bs).value, Stripped(c);
    TargetOfAdded(lib, x, HashtreeFooter.HashtreeDescriptor(lib, a, s, bs),
                  FooterFor(|s|, |HashtreeFooter.Body(lib, a, s, bs)|, HashtreeFooter.BlobFor(lib, a, s, bs).value, bs),
                  HashtreeFooter.BlobDescriptors(lib, a, s, bs).value);
    hide HashtreeFooter.Add, Stripped, HashtreeFooter.HashtreeDescriptor, ZeroHashtree.Target, ZeroHashtree.Blankable,
      ZeroHashtree.Blanked, HashtreeFooter.Body, HashtreeFooter.BlobFor, HashtreeFooter.BlobDescriptors, ParseImage,
      EraseFooter, FooterOf, HashtreeFooter.SmallBlob, HashtreeFooter.Usable, ZeroHashtree.RegionEnd;
    ZeroHashtree.EraseAfterBlanking(lib, x, HashtreeFooter.HashtreeDescriptor(lib, a, s, bs), bs);
  }

  lemma TargetOfAdded(lib: D.Hashes, x: bytes, d: D.Descriptor, f: Footer, ds: seq<D.Descriptor>)
    requires exists h :: ParseImage(lib, x) == Ok((Some(f), h, ds))
    requires |ds| > 0 && ds[0] == d && d.Hashtree? && d.fecOffset == 0
    ensures ZeroHashtree.Target(lib, x) == Ok(d) && FooterOf(x) == Some(f)
  {
    hide FooterOf, VbMeta.ParseAt;
  }
}
