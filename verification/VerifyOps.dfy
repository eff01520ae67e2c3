/** verify_image and make_vbmeta_image on image files, against their meaning on flat content. */
module VerifyCommands {
  import opened Bytes
  import D = Descriptors
  import VbMeta
  import opened Footers
  import HashFooter
  import HashTree
  import ZeroHashtree
  import opened SparseFormat
  import opened ImageHandling
  import opened Verification
  import A = AvbCommands
  import PackBoot

  /** The files in the image's directory, by partition name, stand for the flat contents. */
  ghost predicate Back(files: map<bytes, bytes>, flats: Files) {
    files.Keys == flats.Keys && forall n :: n in files ==> Opened(files[n], flats[n]) && flats[n] != []
  }

  /** What reading the data a descriptor speaks of needs: a whole number of blocks to hash, and no seek past the end. */
  ghost predicate Checkable(lib: D.Hashes, d: D.Descriptor, files: Files, own: bytes, sparse: bool) {
    && (sparse ==> Still(d))
    && (d.Hashtree? && Readable(d.name, files) ==>
          var c := Source(d.name, files, own); TreeDomain(lib, d, c) && d.treeOffset <= |c|)
  }

  /** The image a descriptor speaks of: the containing one, or a file opened for reading. */
  method Select(name: bytes, files: map<bytes, bytes>, ghost flats: Files, own: ImageHandler)
    returns (image: ImageHandler)
    requires own.Valid() && Back(files, flats) && (name == [] || name in files)
    ensures image.Valid() && image.Contents() == Source(name, flats, own.Contents())
    ensures if name == [] then image == own else fresh(image) && image.filePos == 0
    ensures own.Valid() && own.Contents() == old(own.Contents()) && own.filePos == old(own.filePos)
  {
    hide ImageHandler.Contents, ImageHandler.Valid, ImageHandler.Anchored, Opened;
    if name == [] {
      return own;
    }
    image := Open(files[name], flats[name]);
  }

  /** AvbHashDescriptor.verify */
  method VerifyHash(lib: D.Hashes, d: D.Descriptor, files: map<bytes, bytes>, ghost flats: Files, own: ImageHandler)
    returns (ok: bool)
    requires own.Valid() && Back(files, flats) && d.Hash? && (own.isSparse ==> d.name != [])
    modifies own`filePos
    ensures own.Valid() && own.Contents() == old(own.Contents())
    ensures ok <==> HashAccepted(lib, d, flats, own.Contents(), old(own.filePos))
    ensures ok ==> own.filePos == CursorAfter(d, own.Contents(), old(own.filePos))
  {
    hide ImageHandler.Contents, ImageHandler.Valid, ImageHandler.Anchored, Slice, Opened;
    if d.name != [] && d.name !in files {
      return false;
    }
    if lib.plain.size(d.algorithm).None? {
      return false;
    }
    var image := Select(d.name, files, flats, own);
    image.ChunksNonEmpty();
    var data := image.Read(d.imageSize);
    var digest := lib.plain.digest(d.algorithm, d.salt + data.value);
    return d.digest == [] || digest == d.digest;
  }

  /** Tree over the first imageSize bytes, from scratch. */
  method Recompute(lib: D.Hashes, d: D.Descriptor, image: ImageHandler) returns (root: bytes, tree: bytes)
    requires image.Valid() && d.Hashtree? && TreeDomain(lib, d, image.Contents())
    modifies image`filePos
    ensures image.Valid() && image.Contents() == old(image.Contents()) && TreeParams(lib, d).WF()
    ensures root == HashTree.Root(TreeParams(lib, d), image.Contents()[..d.imageSize])
    ensures tree == HashTree.Tree(TreeParams(lib, d), image.Contents()[..d.imageSize])
  {
    hide ImageHandler.Contents, ImageHandler.Valid, ImageHandler.Anchored, HashTree.Root, HashTree.Tree,
      HashTree.LevelSizes, HashTree.Offsets, HashTree.TreeSize;
    TreeParamsWF(lib, d);
    var p := TreeParams(lib, d);
    var offsets, treeSize := HashTree.CalcHashLevelOffsets(d.imageSize, d.dataBlockSize, p.EntrySize());
    root, tree := HashTree.GenerateHashTree(image, d.imageSize, p, offsets, treeSize);
  }

  /** AvbHashtreeDescriptor.verify */
  method VerifyTree(lib: D.Hashes, d: D.Descriptor, files: map<bytes, bytes>, ghost flats: Files, own: ImageHandler,
                    acceptZeroed: bool)
    returns (ok: bool)
    requires own.Valid() && Back(files, flats) && d.Hashtree?
    requires Checkable(lib, d, flats, own.Contents(), own.isSparse)
    modifies own`filePos
    ensures own.Valid() && own.Contents() == old(own.Contents())
    ensures ok <==> Accepted(lib, d, flats, own.Contents(), old(own.filePos), acceptZeroed)
    ensures ok ==> own.filePos == CursorAfter(d, own.Contents(), old(own.filePos))
  {
    hide ImageHandler.Contents, ImageHandler.Valid, ImageHandler.Anchored, Slice, Opened, HashTree.Root, HashTree.Tree,
      TreeDomain, TreeParams;
    if d.name != [] && d.name !in files {
      return false;
    }
    var image := Select(d.name, files, flats, own);
    ghost var c := image.Contents();
    TreeDomainParts(lib, d, c);
    var root, tree := Recompute(lib, d, image);
    if d.rootDigest != [] && root != d.rootDigest {
      return false;
    }
    var onDisk := A.ReadAt(image, d.treeOffset, d.treeSize);
    var zeroed := d.treeSize == 0 || Slice(onDisk, 0, 8) == ZeroHashtree.MARK;
    if zeroed && acceptZeroed {
      return true;
    }
    return tree == onDisk;
  }

  lemma TreeDomainParts(lib: D.Hashes, d: D.Descriptor, c: bytes)
    requires d.Hashtree? && TreeDomain(lib, d, c)
    ensures 0 < d.dataBlockSize <= d.imageSize <= |c|
  {
  }

  /** desc.verify */
  method VerifyDescriptor(lib: D.Hashes, d: D.Descriptor, files: map<bytes, bytes>, ghost flats: Files,
                          own: ImageHandler, acceptZeroed: bool)
    returns (ok: bool)
    requires own.Valid() && Back(files, flats) && Checkable(lib, d, flats, own.Contents(), own.isSparse)
    modifies own`filePos
    ensures own.Valid() && own.Contents() == old(own.Contents())
    ensures ok <==> Accepted(lib, d, flats, own.Contents(), old(own.filePos), acceptZeroed)
    ensures ok ==> own.filePos == CursorAfter(d, own.Contents(), old(own.filePos))
  {
    hide ImageHandler.Contents, ImageHandler.Valid, ImageHandler.Anchored, Slice, HashAccepted, TreeAccepted,
      TreeDomain, Back;
    match d {
      case Hash(_, _, _, _, _, _) => ok := VerifyHash(lib, d, files, flats, own);
      case Hashtree(_, _, _, _, _, _, _, _, _, _, _, _, _, _) =>
        ok := VerifyTree(lib, d, files, flats, own, acceptZeroed);
      case ChainPartition(_, _, _, _) => ok := false;
      case _ => ok := true;
    }
  }

  /** The loop over the descriptors; each starts where the one before left the cursor of the image. */
  method VerifyAll(lib: D.Hashes, ds: seq<D.Descriptor>, files: map<bytes, bytes>, ghost flats: Files,
                   own: ImageHandler, acceptZeroed: bool)
    returns (ok: bool)
    requires own.Valid() && Back(files, flats)
    requires forall i :: 0 <= i < |ds| ==> Checkable(lib, ds[i], flats, own.Contents(), own.isSparse)
    modifies own`filePos
    ensures own.Valid() && own.Contents() == old(own.Contents())
    ensures ok <==> AllAccepted(lib, ds, flats, own.Contents(), old(own.filePos), acceptZeroed)
  {
    hide ImageHandler.Contents, ImageHandler.Valid, ImageHandler.Anchored, Accepted, CursorAfter, Back, Checkable;
    ghost var c := own.Contents();
    assert ds[0..] == ds;
    for i := 0 to |ds|
      invariant own.Valid() && own.Contents() == c
      invariant AllAccepted(lib, ds[i..], flats, c, own.filePos, acceptZeroed)
            <==> AllAccepted(lib, ds, flats, c, old(own.filePos), acceptZeroed)
    {
      assert ds[i..][0] == ds[i] && ds[i..][1..] == ds[i + 1..];
      var one := VerifyDescriptor(lib, ds[i], files, flats, own, acceptZeroed);
      if !one {
        return false;
      }
    }
    return true;
  }

  /** The image can be opened and parsed without reading past its end. */
  ghost predicate Parsable(f: bytes, c: bytes) {
    Opened(f, c) && (Decode(f) != Ok(None) ==> A.ReadsInside(c))
  }

  lemma ParsedAt(lib: D.Hashes, f: bytes, c: bytes)
    requires Parsable(f, c) && ParseImage(lib, c).Ok?
    ensures |c| >= SIZE && ParseImage(lib, c).value.0 == FooterOf(c)
    ensures Decode(f) != Ok(None) ==> (if FooterOf(c).Some? then FooterOf(c).value.vbmetaOffset else 0) <= |c|
  {
    hide Opened, FooterOf, VbMeta.ParseAt, Decode, VbMeta.ParseHeader;
  }

  /** All descriptors of the image can be verified as far as reading goes; a signature is outside the model. */
  ghost predicate Verifiable(lib: D.Hashes, f: bytes, c: bytes, files: Files)
  {
    && Parsable(f, c)
    && var p := ParseImage(lib, c);
       p.Ok? ==>
         && p.value.1.algorithm == 0
         && forall i :: 0 <= i < |p.value.2| ==> Checkable(lib, p.value.2[i], files, c, Decode(f) != Ok(None))
  }

  /** verify_image without a key: it passes exactly on the images that are accepted over the files next to them. */
  method VerifyImage(lib: D.Hashes, f: bytes, ghost c: bytes, files: map<bytes, bytes>, ghost flats: Files,
                     acceptZeroed: bool)
    returns (r: Result<()>)
    requires Back(files, flats) && Verifiable(lib, f, c, flats)
    ensures r.Ok? <==> ImageAccepted(lib, c, flats, acceptZeroed)
  {
    hide ImageHandler.Contents, ImageHandler.Valid, ImageHandler.Anchored, Opened, Back, Checkable, ParseImage,
      FooterOf, Slice, AllAccepted, A.ReadsInside, Decode;
    var image := Open(f, c);
    var p := A.ParseImageFile(lib, image);
    if p.Err? {
      return Err(p.error);
    }
    ParsedAt(lib, f, c);
    var (footer, header, descriptors) := p.value;
    var offset := if footer.Some? then footer.value.vbmetaOffset else 0;
    var blob := A.ReadAt(image, offset, VbMeta.HEADER_SIZE + header.authSize + header.auxSize);
    var ok := VerifyAll(lib, descriptors, files, flats, image, acceptZeroed);
    if !ok {
      return Err(AvbError);
    }
    return Ok(());
  }

  /** Opens and parses the images whose descriptors are included. */
  method ReadImages(lib: D.Hashes, files: seq<bytes>, ghost cs: seq<bytes>) returns (r: Result<seq<VbMeta.Image>>)
    requires |files| == |cs| && forall i :: 0 <= i < |cs| ==> Parsable(files[i], cs[i])
    ensures r == PackBoot.ImagesOf(lib, cs)
  {
    hide ImageHandler.Contents, ImageHandler.Valid, ImageHandler.Anchored, Opened, ParseImage, A.ReadsInside, Decode;
    NoImages(lib, PackBoot.ImagesOf(lib, cs));
    var images: seq<VbMeta.Image> := [];
    assert cs[0..] == cs;
    for i := 0 to |files|
      invariant |files| == |cs| && Ahead(images, PackBoot.ImagesOf(lib, cs[i..])) == PackBoot.ImagesOf(lib, cs)
    {
      assert cs[i..][0] == cs[i] && cs[i..][1..] == cs[i + 1..];
      var image := Open(files[i], cs[i]);
      var p := A.ParseImageFile(lib, image);
      if p.Err? {
        return Err(p.error);
      }
      var one := VbMeta.Image(p.value.1.minor, p.value.2);
      AheadStep(images, one, PackBoot.ImagesOf(lib, cs[i + 1..]));
      images := images + [one];
    }
    assert cs[|files|..] == [] && images + [] == images;
    return Ok(images);
  }

  lemma NoImages(lib: D.Hashes, r: Result<seq<VbMeta.Image>>)
    ensures PackBoot.ImagesOf(lib, []) == Ok([]) && Ahead([], r) == r
  {
    assert r.Ok? ==> [] + r.value == r.value;
  }

  ghost function Ahead(images: seq<VbMeta.Image>, r: Result<seq<VbMeta.Image>>): Result<seq<VbMeta.Image>> {
    if r.Err? then r else Ok(images + r.value)
  }

  lemma AheadStep(images: seq<VbMeta.Image>, one: VbMeta.Image, r: Result<seq<VbMeta.Image>>)
    ensures Ahead(images + [one], r) == Ahead(images, Ahead([one], r))
  {
    if r.Ok? {
      Assoc(images, [one], r.value);
    }
  }

  /** make_vbmeta_image without descriptors of its own: the bytes written to the output. */
  method MakeVbmetaImage(lib: D.Hashes, args: VbMeta.Args, files: seq<bytes>, ghost cs: seq<bytes>, padding: nat)
    returns (r: Result<bytes>)
    requires |files| == |cs| && forall i :: 0 <= i < |cs| ==> Parsable(files[i], cs[i])
    requires PackBoot.ImagesOf(lib, cs).Ok? ==> VbMeta.Legible(lib, args, [], PackBoot.ImagesOf(lib, cs).value)
    ensures r == PackBoot.MakeVbmetaImage(lib, args, cs, padding)
  {
    hide Parsable, PackBoot.ImagesOf, VbMeta.Generated, RoundToMultiple, VbMeta.AllLegible, VbMeta.WFRelease;
    var images := ReadImages(lib, files, cs);
    if images.Err? {
      return Err(images.error);
    }
    var minor := VbMeta.MinorLoop(if args.rollbackIndexLocation > 0 then 2 else 0, images.value);
    var blob := VbMeta.GenerateVbmetaBlob(lib, args.(minMinor := minor), [], images.value);
    if blob.Err? {
      return blob;
    }
    var output := blob.value;
    if padding > 0 {
      ZerosAppended(output, RoundToMultiple(|blob.value|, padding) - |blob.value|);
      output := output + Zeros(RoundToMultiple(|blob.value|, padding) - |blob.value|);
    }
    return Ok(output);
  }

  // ------------------------------------------------------------- the boot recipe on files

  lemma RecipeIsLegible(lib: D.Hashes, name: bytes, partitionSize: nat, salt: bytes, c: bytes)
    requires PackBoot.Sha(lib) && PackBoot.RecipeName(name) && |salt| == 32 && PackBoot.ContentFits(c, partitionSize)
    ensures A.Legible(lib, PackBoot.FooterArgs(name, partitionSize, salt), Stripped(c))
  {
    hide Stripped, D.Legible, D.Packable, D.EncodeAll, D.Utf8, PackBoot.Sha, VbMeta.AllIncluded;
    PackBoot.RecipeBlob(lib, name, partitionSize, salt, c);
    PackBoot.NothingMet();
    var ds := [PackBoot.Described(lib, name, partitionSize, salt, c)];
    assert D.WF(lib, ds[0]);
  }

  /** add_hash_footer on a plain file of the recipe. */
  method AddToFile(lib: D.Hashes, name: bytes, f: bytes, partitionSize: nat, salt: bytes) returns (out: bytes)
    requires PackBoot.Sha(lib) && PackBoot.RecipeName(name) && |salt| == 32 && PackBoot.ContentFits(f, partitionSize)
    requires Decode(f) == Ok(None) && PackBoot.Openable(f)
    ensures HashFooter.Add(lib, PackBoot.FooterArgs(name, partitionSize, salt), f, PackBoot.BS) == Ok(out)
    ensures Decode(out) == Ok(None) && out != []
  {
    hide ImageHandler.Contents, ImageHandler.Valid, ImageHandler.Anchored, PackBoot.Sha, PackBoot.ContentFits,
      A.Legible, HashFooter.Add, Decode, Stripped, HashFooter.BlobFitsPartition;
    var image := new ImageHandler(f, false);
    var h := image.ReadHeader();
    image.PlainIsValid();
    image.BlockSizePositive();
    PlainContents(image);
    RecipeIsLegible(lib, name, partitionSize, salt, f);
    PackBoot.RecipeAdds(lib, name, partitionSize, salt, f);
    var r := A.AddHashFooter(lib, PackBoot.FooterArgs(name, partitionSize, salt), image);
    PlainContents(image);
    out := image.file;
    RawFiles(out);
  }

  lemma PlainContents(image: ImageHandler)
    requires image.Valid() && !image.isSparse
    ensures image.Contents() == image.file && Decode(image.file) == Ok(None)
  {
    hide Decode;
  }

  /** A blob is no sparse file: it starts with its own magic. */
  lemma BlobIsPlain(lib: D.Hashes, args: VbMeta.Args, minor: nat, ds: seq<D.Descriptor>)
    requires VbMeta.BlobFits(lib, args, minor, ds)
    ensures Decode(VbMeta.Blob(lib, args, minor, ds)) == Ok(None)
  {
    hide Decode, D.EncodeAll, D.WF, VbMeta.WF, VbMeta.BlobHeader, VbMeta.EncodeHeader, VbMeta.AuxBlock, VbMeta.AuxSize;
    var h := VbMeta.BlobHeader(args, minor, |D.EncodeAll(lib, ds)|);
    var b := VbMeta.Blob(lib, args, minor, ds);
    HeaderMagic(h);
    assert b[..4] == VbMeta.EncodeHeader(h)[..4] == VbMeta.MAGIC;
    assert FromLE(VbMeta.MAGIC) % 256 == 65 by { assert VbMeta.MAGIC[0] == 65; }
    RawFiles(b);
  }

  lemma HeaderMagic(h: VbMeta.Header)
    requires VbMeta.WF(h)
    ensures VbMeta.EncodeHeader(h)[..4] == VbMeta.MAGIC
  {
    hide VbMeta.WF;
    ResizeSame(VbMeta.MAGIC);
  }

  /** What including the two finished files needs. */
  lemma PairIsLegible(lib: D.Hashes, i: VbMeta.Image, j: VbMeta.Image, b: D.Descriptor, d: D.Descriptor)
    requires i == VbMeta.Image(0, [b]) && j == VbMeta.Image(0, [d])
    requires VbMeta.BlobFits(lib, PackBoot.DEFAULTS, 0, [b, d])
    ensures VbMeta.Legible(lib, PackBoot.DEFAULTS, [], [i, j])
  {
    hide D.Legible, D.Packable, D.EncodeAll, VbMeta.AllIncluded;
    PackBoot.AllOfTwo(i, j, b, d);
    var ds := [b, d];
    forall k | 0 <= k < |ds| ensures D.Legible(lib, ds[k]) {
      assert D.WF(lib, ds[k]);
    }
  }

  /** The vbmeta image of the recipe is a plain file, and its descriptors name other files. */
  lemma VbmetaIsVerifiable(lib: D.Hashes, b: D.Descriptor, d: D.Descriptor, files: Files)
    requires PackBoot.Sha(lib) && PackBoot.RecipeHash(b) && PackBoot.RecipeHash(d)
    ensures VbMeta.BlobFits(lib, PackBoot.DEFAULTS, 0, [b, d])
    ensures var v := VbMeta.Blob(lib, PackBoot.DEFAULTS, 0, [b, d]); Verifiable(lib, v, v, files)
  {
    hide Decode, VbMeta.BlobFits, VbMeta.Blob, ParseImage, FooterOf, D.EncodeAll, D.Encode, PackBoot.Sha;
    PackBoot.FooterOffsetIsZero(lib, b, d);
    BlobIsPlain(lib, PackBoot.DEFAULTS, 0, [b, d]);
    PackBoot.BlobImageParses(lib, PackBoot.DEFAULTS, 0, [b, d]);
  }

  /**
    The boot recipe on plain files: both footers, the vbmeta image over the two finished files, and its verification,
    which passes.
   */
  method PackFiles(lib: D.Hashes, boot: bytes, dtbo: bytes, bootSize: nat, dtboSize: nat, salt: bytes, salt2: bytes)
    returns (x: bytes, y: bytes, v: bytes, accepted: Result<()>)
    requires PackBoot.Sha(lib) && |salt| == 32 && |salt2| == 32
    requires PackBoot.ContentFits(boot, bootSize) && PackBoot.ContentFits(dtbo, dtboSize)
    requires Decode(boot) == Decode(dtbo) == Ok(None) && PackBoot.Openable(boot) && PackBoot.Openable(dtbo)
    ensures PackBoot.Pack(lib, boot, dtbo, bootSize, dtboSize, salt, salt2) == Ok((x, y, v))
    ensures |x| == bootSize && |y| == dtboSize && accepted.Ok?
  {
    hide PackBoot.Sha, PackBoot.ContentFits, PackBoot.Openable, HashFooter.Add, Decode, Stripped, ParseImage,
      VbMeta.BlobHeader, PackBoot.Described, ImageAccepted, FooterOf, PackBoot.MakeVbmetaImage, PackBoot.Bound,
      VbMeta.Legible, VbMeta.BlobFits, VbMeta.Blob, PackBoot.RecipeHash, PackBoot.ImageOf, PackBoot.ImagesOf,
      Verifiable, HashFooter.BlobFor, HashFooter.BlobDescriptors, HashFooter.BlobFitsPartition, D.EncodeAll;
    PackBoot.PackedVerifies(lib, boot, dtbo, bootSize, dtboSize, salt, salt2, map[], false);
    ghost var b := PackBoot.Described(lib, PackBoot.BOOT, bootSize, salt, boot);
    ghost var d := PackBoot.Described(lib, PackBoot.DTBO, dtboSize, salt2, dtbo);
    x := AddToFile(lib, PackBoot.BOOT, boot, bootSize, salt);
    y := AddToFile(lib, PackBoot.DTBO, dtbo, dtboSize, salt2);
    var files := map[PackBoot.BOOT := x, PackBoot.DTBO := y];
    PackBoot.RecipeBlob(lib, PackBoot.BOOT, bootSize, salt, boot);
    PackBoot.RecipeBlob(lib, PackBoot.DTBO, dtboSize, salt2, dtbo);
    PackBoot.OneImage(lib, PackBoot.BOOT, bootSize, salt, boot);
    PackBoot.OneImage(lib, PackBoot.DTBO, dtboSize, salt2, dtbo);
    VbmetaIsVerifiable(lib, b, d, files);
    PackBoot.ImagesPair(lib, x, y, VbMeta.Image(0, [b]), VbMeta.Image(0, [d]));
    PairIsLegible(lib, VbMeta.Image(0, [b]), VbMeta.Image(0, [d]), b, d);
    PackBoot.VbmetaOfTwo(lib, x, y, b, d);
    var made := MakeVbmetaImage(lib, PackBoot.DEFAULTS, [x, y], [x, y], 0);
    v := made.value;
    accepted := VerifyImage(lib, v, v, files, files, false);
  }
}
