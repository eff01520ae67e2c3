/** add_hash_footer as a function on flat content, and its laws with erase_footer, resize_image and itself. */
module HashFooter {
  import opened Bytes
  import D = Descriptors
  import Merging
  import VbMeta
  import opened Footers

  datatype Args = Args(partitionSize: nat, name: bytes, algorithm: bytes, salt: bytes, persistentDigest: bool,
                       doNotUseAb: bool, blob: VbMeta.Args, images: seq<VbMeta.Image>)

  /** The libavb minor version the requested features need. */
  function RequiredMinor(a: Args): nat {
    if a.blob.rollbackIndexLocation > 0 then 2
    else if a.persistentDigest || a.doNotUseAb then 1
    else 0
  }

  function BlobArgs(a: Args): VbMeta.Args {
    a.blob.(minMinor := RequiredMinor(a))
  }

  function Minor(a: Args): nat {
    VbMeta.MaxMinor(RequiredMinor(a), a.images)
  }

  function HashDescriptor(lib: D.Hashes, a: Args, s: bytes): D.Descriptor {
    D.Hash(|s|, a.algorithm, a.name, a.salt,
           if a.persistentDigest then [] else lib.plain.digest(a.algorithm, a.salt + s),
           if a.doNotUseAb then 1 else 0)
  }

  /** The descriptors of the blob added to content s. */
  ghost function BlobDescriptors(lib: D.Hashes, a: Args, s: bytes): Result<seq<D.Descriptor>> {
    VbMeta.AllDescriptors(BlobArgs(a), [HashDescriptor(lib, a, s)], a.images)
  }

  /** The blob added to content s, unless something in it cannot be encoded. */
  ghost function BlobFor(lib: D.Hashes, a: Args, s: bytes): Result<bytes> {
    VbMeta.Generated(lib, BlobArgs(a), [HashDescriptor(lib, a, s)], a.images)
  }

  /** The whole command on the content of an image with the given block size. */
  ghost function Add(lib: D.Hashes, a: Args, c: bytes, bs: nat): Result<bytes>
    requires bs >= SIZE
  {
    if a.partitionSize < MAX_METADATA_SIZE then Err(AvbError)
    else
      var s := Stripped(c);
      if a.partitionSize % bs != 0 then Err(AvbError)
      else if |s| > a.partitionSize - MAX_METADATA_SIZE then Err(AvbError)
      else if lib.plain.size(a.algorithm).None? || BlobFor(lib, a, s).Err? then Err(AvbError)
      else
        var blob := BlobFor(lib, a, s).value;
        if !Footers.WF(FooterFor(|s|, |s|, blob, bs)) || a.partitionSize < bs then Err(AvbError)
        else Ok(WithFooter(|s|, s, blob, bs, a.partitionSize))
  }

  /** The added blob leaves the last block to the footer. */
  ghost predicate BlobFitsPartition(lib: D.Hashes, a: Args, c: bytes, bs: nat)
    requires bs > 0
  {
    BlobFor(lib, a, Stripped(c)).Ok? && Fits(Stripped(c), BlobFor(lib, a, Stripped(c)).value, bs, a.partitionSize)
  }

  // ------------------------------------------------------------- laws

  /** What a successful add produces. */
  lemma AddedIs(lib: D.Hashes, a: Args, c: bytes, bs: nat)
    requires bs >= SIZE && Add(lib, a, c, bs).Ok?
    ensures var s := Stripped(c);
            && BlobFor(lib, a, s).Ok?
            && a.partitionSize >= bs && a.partitionSize % bs == 0 && |s| + MAX_METADATA_SIZE <= a.partitionSize
            && Footers.WF(FooterFor(|s|, |s|, BlobFor(lib, a, s).value, bs))
            && Add(lib, a, c, bs).value == WithFooter(|s|, s, BlobFor(lib, a, s).value, bs, a.partitionSize)
  {
    hide Stripped, BlobFor, WithFooter;
  }

  /** The result fills the partition exactly. */
  lemma AddFillsPartition(lib: D.Hashes, a: Args, c: bytes, bs: nat)
    requires bs >= SIZE && Add(lib, a, c, bs).Ok?
    ensures |Add(lib, a, c, bs).value| == a.partitionSize
  {
    hide Add, BlobFor, Stripped, WithFooter;
    AddedIs(lib, a, c, bs);
  }

  /** Adding only looks at the content below any existing footer, so adding again changes nothing. */
  lemma AddIdempotent(lib: D.Hashes, a: Args, c: bytes, bs: nat)
    requires SIZE <= bs <= MAX_METADATA_SIZE && Add(lib, a, c, bs).Ok?
    ensures Stripped(Add(lib, a, c, bs).value) == Stripped(c)
    ensures Add(lib, a, Add(lib, a, c, bs).value, bs) == Add(lib, a, c, bs)
  {
    AddedIs(lib, a, c, bs);
    hide BlobFor, Stripped, WithFooter, FooterFor;
    var s := Stripped(c);
    StrippedWithFooter(s, BlobFor(lib, a, s).value, bs, a.partitionSize);
  }

  /** An image finished around a generated blob parses to its footer, the blob's header and its descriptors. */
  lemma FinishedParses(lib: D.Hashes, args: VbMeta.Args, minor: nat, ds: seq<D.Descriptor>, original: nat, s: bytes,
                       bs: nat, partitionSize: nat)
    requires VbMeta.BlobFits(lib, args, minor, ds) && bs >= SIZE
    requires var blob := VbMeta.Blob(lib, args, minor, ds);
             Fits(s, blob, bs, partitionSize) && WF(FooterFor(original, |s|, blob, bs))
    ensures var blob := VbMeta.Blob(lib, args, minor, ds);
            ParseImage(lib, WithFooter(original, s, blob, bs, partitionSize))
            == Ok((Some(FooterFor(original, |s|, blob, bs)),
                   VbMeta.BlobHeader(args, minor, |D.EncodeAll(lib, ds)|), ds))
  {
    hide VbMeta.BlobFits, VbMeta.Blob, WithFooter, FooterOf, VbMeta.ParseAt, D.EncodeAll, VbMeta.BlobHeader, WF;
    var blob := VbMeta.Blob(lib, args, minor, ds);
    var x := WithFooter(original, s, blob, bs, partitionSize);
    WithFooterHasFooter(original, s, blob, bs, partitionSize);
    BlobInPlace(original, s, blob, bs, partitionSize);
    VbMeta.BlobParses(lib, args, minor, ds, x, RoundToMultiple(|s|, bs));
  }

  /** What parsing makes of an image: its footer and header, and the descriptors that an area holds. */
  function Parsed(lib: D.Hashes, f: Footer, h: VbMeta.Header, area: bytes)
    : Result<(Option<Footer>, VbMeta.Header, seq<D.Descriptor>)>
  {
    var ds :- D.Parse(lib, area);
    Ok((Some(f), h, ds))
  }

  /** The descriptor area of an image finished around a blob that need not fit. */
  ghost function Area(lib: D.Hashes, ds: seq<D.Descriptor>, s: bytes, f: Footer, bs: nat, partitionSize: nat): bytes
    requires VbMeta.AllWF(lib, ds) && WF(f) && bs >= SIZE && partitionSize % bs == 0 && |s| + bs <= partitionSize
    requires InFront(s, bs, partitionSize) >= VbMeta.HEADER_SIZE
  {
    Overlaid(D.EncodeAll(lib, ds), InFront(s, bs, partitionSize) - VbMeta.HEADER_SIZE, FooterBlock(f, bs))
  }

  /** Whether or not the blob fits: once its header does, the descriptors found are those of the overlaid area. */
  lemma FinishedParsesAs(lib: D.Hashes, args: VbMeta.Args, minor: nat, ds: seq<D.Descriptor>, original: nat, s: bytes,
                         bs: nat, partitionSize: nat)
    requires VbMeta.BlobFits(lib, args, minor, ds) && bs >= SIZE && partitionSize % bs == 0
    requires |s| + bs <= partitionSize && InFront(s, bs, partitionSize) >= VbMeta.HEADER_SIZE
    requires WF(FooterFor(original, |s|, VbMeta.Blob(lib, args, minor, ds), bs))
    ensures var blob := VbMeta.Blob(lib, args, minor, ds);
            var f := FooterFor(original, |s|, blob, bs);
            ParseImage(lib, WithFooter(original, s, blob, bs, partitionSize))
            == Parsed(lib, f, VbMeta.BlobHeader(args, minor, |D.EncodeAll(lib, ds)|),
                      Area(lib, ds, s, f, bs, partitionSize))
  {
    hide VbMeta.BlobFits, VbMeta.Blob, WithFooter, FooterOf, VbMeta.ParseAt, D.EncodeAll, VbMeta.WF, WF, FooterBlock,
      RoundToMultiple, Slice, VbMeta.ParseHeader, D.Parse, InFront, VbMeta.EncodeHeader, D.WF, Overlaid, VbMeta.Release;
    BlobParts(lib, args, minor, ds);
    var blob, e := VbMeta.Blob(lib, args, minor, ds), D.EncodeAll(lib, ds);
    var x, h := WithFooter(original, s, blob, bs, partitionSize), VbMeta.BlobHeader(args, minor, |e|);
    var off, k := RoundToMultiple(|s|, bs), InFront(s, bs, partitionSize);
    WithFooterHasFooter(original, s, blob, bs, partitionSize);
    RegionOverlaid(original, s, blob, bs, partitionSize, 0, VbMeta.HEADER_SIZE);
    RegionOverlaid(original, s, blob, bs, partitionSize, VbMeta.HEADER_SIZE, |e|);
    NotOverlaid(VbMeta.EncodeHeader(h), k, FooterBlock(FooterFor(original, |s|, blob, bs), bs));
    VbMeta.ParseAtFrom(lib, x, off, h);
  }

  lemma NotOverlaid(data: bytes, k: nat, block: bytes)
    requires |data| <= k
    ensures Overlaid(data, k, block) == data
  {
  }

  /** A blob is its header, which parses, then its descriptors. */
  lemma BlobParts(lib: D.Hashes, args: VbMeta.Args, minor: nat, ds: seq<D.Descriptor>)
    requires VbMeta.BlobFits(lib, args, minor, ds)
    ensures VbMeta.AllWF(lib, ds)
    ensures var blob, e := VbMeta.Blob(lib, args, minor, ds), D.EncodeAll(lib, ds);
            var h := VbMeta.BlobHeader(args, minor, |e|);
            && VbMeta.WF(h) && VbMeta.HEADER_SIZE + |e| <= |blob|
            && blob[0..0 + VbMeta.HEADER_SIZE] == VbMeta.EncodeHeader(h)
            && blob[VbMeta.HEADER_SIZE..VbMeta.HEADER_SIZE + |e|] == e
            && VbMeta.ParseHeader(VbMeta.EncodeHeader(h)) == Ok(h)
  {
    hide D.EncodeAll, VbMeta.EncodeHeader, VbMeta.ParseHeader, VbMeta.WF, D.WF;
    VbMeta.HeaderRoundTrip(VbMeta.BlobHeader(args, minor, |D.EncodeAll(lib, ds)|));
    var blob := VbMeta.Blob(lib, args, minor, ds);
    assert blob[0..0 + |blob|] == blob;
    VbMeta.BlobWindows(lib, args, minor, ds, blob, 0);
  }

  lemma BlobIsNotEmpty(lib: D.Hashes, a: Args, s: bytes)
    ensures BlobFor(lib, a, s).Ok? ==> BlobFor(lib, a, s).value != []
  {
    hide VbMeta.Generated;
    VbMeta.GeneratedIsNotEmpty(lib, BlobArgs(a), [HashDescriptor(lib, a, s)], a.images);
  }

  lemma BlobForIs(lib: D.Hashes, a: Args, s: bytes)
    requires BlobFor(lib, a, s).Ok?
    ensures BlobDescriptors(lib, a, s).Ok?
    ensures VbMeta.BlobFits(lib, BlobArgs(a), Minor(a), BlobDescriptors(lib, a, s).value)
    ensures BlobFor(lib, a, s).value == VbMeta.Blob(lib, BlobArgs(a), Minor(a), BlobDescriptors(lib, a, s).value)
  {
    hide VbMeta.AllDescriptors, VbMeta.BlobFits, VbMeta.Blob;
  }

  /** When the command succeeds. */
  lemma AddIff(lib: D.Hashes, a: Args, c: bytes, bs: nat)
    requires bs >= SIZE
    ensures Add(lib, a, c, bs).Ok? <==>
              && a.partitionSize % bs == 0 && |Stripped(c)| + 69632 <= a.partitionSize
              && lib.plain.size(a.algorithm).Some? && BlobFor(lib, a, Stripped(c)).Ok?
              && RoundToMultiple(|Stripped(c)|, bs) < 0x1_0000_0000_0000_0000
              && |BlobFor(lib, a, Stripped(c)).value| < 0x1_0000_0000_0000_0000
  {
    hide BlobFor, Stripped, WithFooter, RoundToMultiple;
    if a.partitionSize % bs == 0 && 0 < a.partitionSize < bs {
      DivUnique(a.partitionSize, bs, 0, a.partitionSize);
    }
  }

  /** The image made of content s, octet by octet. */
  lemma AddedOctets(lib: D.Hashes, a: Args, c: bytes, bs: nat)
    requires bs >= SIZE && Add(lib, a, c, bs).Ok? && BlobFitsPartition(lib, a, c, bs)
    ensures var x, s, blob := Add(lib, a, c, bs).value, Stripped(c), BlobFor(lib, a, Stripped(c)).value;
            var off := RoundToMultiple(|s|, bs);
            && |x| == a.partitionSize && |s| <= off <= off + |blob| <= |x| - 64
            && x[..|s|] == s && x[|s|..off] == Zeros(off - |s|)
            && x[off..off + |blob|] == blob && x[off + |blob|..|x| - 64] == Zeros(|x| - 64 - off - |blob|)
            && IsFooter(x[|x| - 64..], |s|, off, |blob|)
  {
    hide Add, BlobFor, Stripped, WithFooter, FooterFor, WF, IsFooter, Fits, RoundToMultiple;
    AddedIs(lib, a, c, bs);
    var s := Stripped(c);
    FinishedOctets(|s|, s, BlobFor(lib, a, s).value, bs, a.partitionSize);
  }

  /**
    What is found in it: the hash descriptor asked for, properties and command lines behind it, and a header with the
    values asked for and the version they need.
   */
  lemma AddedContents(lib: D.Hashes, a: Args, c: bytes, bs: nat)
    requires bs >= SIZE && Add(lib, a, c, bs).Ok? && BlobFitsPartition(lib, a, c, bs)
    ensures ParseImage(lib, Add(lib, a, c, bs).value).Ok?
    ensures var s := Stripped(c);
            var (_, h, ds) := ParseImage(lib, Add(lib, a, c, bs).value).value;
            var m, k := |a.blob.props|, |a.blob.cmdlines|;
            && 1 + m + k <= |ds| && ds[0].Hash? && ds[0].imageSize == |s| && ds[0].algorithm == a.algorithm
            && ds[0].name == a.name && ds[0].salt == a.salt && ds[0].flags == (if a.doNotUseAb then 1 else 0)
            && ds[0].digest == (if a.persistentDigest then [] else lib.plain.digest(a.algorithm, a.salt + s))
            && (forall i :: 0 <= i < m ==> VbMeta.IsProp(ds[1 + i], a.blob.props[i]))
            && (forall i :: 0 <= i < k ==> ds[1 + m + i] == D.KernelCmdline(0, a.blob.cmdlines[i]))
            && ds[1 + m + k..] == Merging.Included(VbMeta.AllIncluded(a.images))
            && h.rollbackIndex == a.blob.rollbackIndex && h.flags == a.blob.flags
            && h.rollbackIndexLocation == a.blob.rollbackIndexLocation
            && Needs(h.minor, a.blob.rollbackIndexLocation > 0, a.persistentDigest || a.doNotUseAb, a.images)
  {
    hide Add, BlobFor, Stripped, WithFooter, FooterOf, VbMeta.ParseAt, VbMeta.IsProp, VbMeta.Generated, WF, FooterFor,
      Merging.Included, VbMeta.AllIncluded, RoundToMultiple, VbMeta.BlobHeader, BlobDescriptors, D.EncodeAll;
    AddedIs(lib, a, c, bs);
    AddedParses(lib, a, c, bs);
    FoundAt(lib, a, c, bs);
  }

  /** The least version for a rollback index location, a feature of version 1.1, and included images. */
  predicate Needs(minor: nat, location: bool, feature: bool, images: seq<VbMeta.Image>) {
    && (location ==> minor >= 2) && (feature ==> minor >= 1)
    && (forall i :: 0 <= i < |images| ==> minor >= images[i].minor)
    && (minor == 0 || (minor == 2 && location) || (minor == 1 && feature)
        || exists i :: 0 <= i < |images| && minor == images[i].minor)
  }

  /** The contents of the blob, through the parsed image. */
  lemma FoundAt(lib: D.Hashes, a: Args, c: bytes, bs: nat)
    requires bs >= SIZE && Add(lib, a, c, bs).Ok? && BlobFitsPartition(lib, a, c, bs)
    requires ParseImage(lib, Add(lib, a, c, bs).value).Ok?
    ensures var s := Stripped(c);
            var (_, h, ds) := ParseImage(lib, Add(lib, a, c, bs).value).value;
            var m, k := |a.blob.props|, |a.blob.cmdlines|;
            && 1 + m + k <= |ds| && ds[..1] == [HashDescriptor(lib, a, s)]
            && (forall i :: 0 <= i < m ==> VbMeta.IsProp(ds[1 + i], a.blob.props[i]))
            && (forall i :: 0 <= i < k ==> ds[1 + m + i] == D.KernelCmdline(0, a.blob.cmdlines[i]))
            && ds[1 + m + k..] == Merging.Included(VbMeta.AllIncluded(a.images))
            && h.rollbackIndex == a.blob.rollbackIndex && h.flags == a.blob.flags
            && h.rollbackIndexLocation == a.blob.rollbackIndexLocation
            && Needs(h.minor, a.blob.rollbackIndexLocation > 0, a.persistentDigest || a.doNotUseAb, a.images)
  {
    hide Add, Stripped, WithFooter, FooterOf, VbMeta.ParseAt, VbMeta.IsProp, VbMeta.Generated, WF, Merging.Included,
      VbMeta.AllIncluded, RoundToMultiple, HashDescriptor, Fits;
    AddedIs(lib, a, c, bs);
    var x, s := Add(lib, a, c, bs).value, Stripped(c);
    var blob, off := BlobFor(lib, a, s).value, RoundToMultiple(|s|, bs);
    WithFooterHasFooter(|s|, s, blob, bs, a.partitionSize);
    BlobInPlace(|s|, s, blob, bs, a.partitionSize);
    VbMeta.GeneratedContents(lib, BlobArgs(a), [HashDescriptor(lib, a, s)], a.images, x, off);
  }

  /** The finished image parses: its footer, the blob's header and exactly the blob's descriptors. */
  lemma AddedParses(lib: D.Hashes, a: Args, c: bytes, bs: nat)
    requires bs >= SIZE && Add(lib, a, c, bs).Ok? && BlobFitsPartition(lib, a, c, bs)
    ensures BlobFor(lib, a, Stripped(c)).Ok? && BlobDescriptors(lib, a, Stripped(c)).Ok?
    ensures var ds := BlobDescriptors(lib, a, Stripped(c)).value;
            VbMeta.BlobFits(lib, BlobArgs(a), Minor(a), ds)
    ensures var s := Stripped(c);
            var ds := BlobDescriptors(lib, a, s).value;
            ParseImage(lib, Add(lib, a, c, bs).value)
            == Ok((Some(FooterFor(|s|, |s|, BlobFor(lib, a, s).value, bs)),
                   VbMeta.BlobHeader(BlobArgs(a), Minor(a), |D.EncodeAll(lib, ds)|), ds))
  {
    AddedIs(lib, a, c, bs);
    hide Add, Stripped, WithFooter, BlobDescriptors, BlobFor, VbMeta.BlobFits, VbMeta.Blob, ParseImage, WF,
      VbMeta.BlobHeader, D.EncodeAll, Fits;
    var s := Stripped(c);
    BlobForIs(lib, a, s);
    FinishedParses(lib, BlobArgs(a), Minor(a), BlobDescriptors(lib, a, s).value, |s|, s, bs, a.partitionSize);
  }

  /** A block size for which every content that passes the size check leaves room for the blob's header. */
  predicate SmallBlocks(bs: nat) {
    SIZE <= bs && 2 * bs + VbMeta.HEADER_SIZE <= MAX_METADATA_SIZE
  }

  lemma HeaderInFront(s: bytes, bs: nat, partitionSize: nat)
    requires SmallBlocks(bs) && partitionSize % bs == 0 && |s| + MAX_METADATA_SIZE <= partitionSize
    ensures InFront(s, bs, partitionSize) >= VbMeta.HEADER_SIZE
  {
  }

  /** The descriptors an added footer's image is found to have: those of the blob with the last block over it. */
  ghost function FoundArea(lib: D.Hashes, a: Args, c: bytes, bs: nat): bytes
    requires SmallBlocks(bs) && Add(lib, a, c, bs).Ok?
  {
    AddedIs(lib, a, c, bs);
    var s := Stripped(c);
    BlobForIs(lib, a, s);
    HeaderInFront(s, bs, a.partitionSize);
    Area(lib, BlobDescriptors(lib, a, s).value, s, FooterFor(|s|, |s|, BlobFor(lib, a, s).value, bs), bs,
         a.partitionSize)
  }

  /**
    Whether or not the blob fits: _parse_image finds footer and header, and the descriptors of the overlaid area;
    erase_footer restores the content exactly when that area parses.
   */
  lemma AddedParsesAs(lib: D.Hashes, a: Args, c: bytes, bs: nat)
    requires SmallBlocks(bs) && Add(lib, a, c, bs).Ok?
    ensures BlobFor(lib, a, Stripped(c)).Ok? && BlobDescriptors(lib, a, Stripped(c)).Ok?
    ensures var x, s := Add(lib, a, c, bs).value, Stripped(c);
            var ds, area := BlobDescriptors(lib, a, s).value, FoundArea(lib, a, c, bs);
            && VbMeta.AllWF(lib, ds)
            && ParseImage(lib, x)
               == Parsed(lib, FooterFor(|s|, |s|, BlobFor(lib, a, s).value, bs),
                         VbMeta.BlobHeader(BlobArgs(a), Minor(a), |D.EncodeAll(lib, ds)|), area)
            && EraseFooter(lib, x) == if D.Parse(lib, area).Ok? then Ok(s) else Err(D.Parse(lib, area).error)
  {
    hide Add, BlobFor, BlobDescriptors, WithFooter, VbMeta.BlobHeader, VbMeta.BlobFits, VbMeta.Blob, D.EncodeAll, WF,
      Resize, Stripped, Area, D.Parse, D.WF, InFront, ParseImage, Parsed, EraseFooter, FooterFor;
    AddedIs(lib, a, c, bs);
    var s := Stripped(c);
    BlobForIs(lib, a, s);
    var blob, ds := BlobFor(lib, a, s).value, BlobDescriptors(lib, a, s).value;
    assert VbMeta.AllWF(lib, ds) by {
      BlobParts(lib, BlobArgs(a), Minor(a), ds);
    }
    HeaderInFront(s, bs, a.partitionSize);
    FinishedParsesAs(lib, BlobArgs(a), Minor(a), ds, |s|, s, bs, a.partitionSize);
    assert FooterFor(|s|, |s|, blob, bs).originalImageSize == |s| by { OriginalSize(|s|, |s|, blob, bs); }
    EraseParsed(lib, Add(lib, a, c, bs).value, FooterFor(|s|, |s|, blob, bs),
                VbMeta.BlobHeader(BlobArgs(a), Minor(a), |D.EncodeAll(lib, ds)|), FoundArea(lib, a, c, bs));
    WithFooterPrefix(|s|, s, blob, bs, a.partitionSize, |s|);
    assert s[..|s|] == s;
  }

  /** Where the blob is found, everything is as if it fitted. */
  lemma FoundParses(lib: D.Hashes, a: Args, c: bytes, bs: nat)
    requires SmallBlocks(bs) && Add(lib, a, c, bs).Ok? && BlobFor(lib, a, Stripped(c)).Ok?
    requires var x, s := Add(lib, a, c, bs).value, Stripped(c);
             var blob, off := BlobFor(lib, a, s).value, RoundToMultiple(|s|, bs);
             Slice(x, off, off + |blob|) == blob
    ensures BlobDescriptors(lib, a, Stripped(c)).Ok?
    ensures var x, s := Add(lib, a, c, bs).value, Stripped(c);
            var ds := BlobDescriptors(lib, a, s).value;
            && VbMeta.AllWF(lib, ds)
            && ParseImage(lib, x)
               == Ok((Some(FooterFor(|s|, |s|, BlobFor(lib, a, s).value, bs)),
                      VbMeta.BlobHeader(BlobArgs(a), Minor(a), |D.EncodeAll(lib, ds)|), ds))
            && EraseFooter(lib, x) == Ok(s)
  {
    hide Add, BlobFor, BlobDescriptors, WithFooter, VbMeta.BlobHeader, VbMeta.BlobFits, VbMeta.Blob, D.EncodeAll, WF,
      Stripped, D.Parse, D.WF, InFront, FooterOf, EraseFooter, FoundArea, VbMeta.ParseAt;
    AddedIs(lib, a, c, bs);
    var x, s := Add(lib, a, c, bs).value, Stripped(c);
    BlobForIs(lib, a, s);
    AddedParsesAs(lib, a, c, bs);
    var blob, off := BlobFor(lib, a, s).value, RoundToMultiple(|s|, bs);
    WithFooterHasFooter(|s|, s, blob, bs, a.partitionSize);
    WholeSlice(x, off, blob);
    VbMeta.BlobParses(lib, BlobArgs(a), Minor(a), BlobDescriptors(lib, a, s).value, x, off);
  }

  lemma WholeSlice(x: bytes, off: nat, blob: bytes)
    requires Slice(x, off, off + |blob|) == blob && blob != []
    ensures off + |blob| <= |x| && x[off..off + |blob|] == blob
  {
  }

  lemma OriginalSize(original: nat, size: nat, blob: bytes, bs: nat)
    requires bs > 0
    ensures FooterFor(original, size, blob, bs).originalImageSize == original
  {
  }

  lemma EraseParsed(lib: D.Hashes, x: bytes, f: Footer, h: VbMeta.Header, area: bytes)
    requires ParseImage(lib, x) == Parsed(lib, f, h, area)
    ensures EraseFooter(lib, x)
         == if D.Parse(lib, area).Ok? then Ok(Resize(x, f.originalImageSize)) else Err(D.Parse(lib, area).error)
  {
    hide ParseImage, D.Parse, Resize;
  }

  /** The blob itself is found at its offset exactly when it fits, or holds what the last block puts over it. */
  lemma AddedBlobFoundIff(lib: D.Hashes, a: Args, c: bytes, bs: nat)
    requires SmallBlocks(bs) && Add(lib, a, c, bs).Ok?
    ensures BlobFor(lib, a, Stripped(c)).Ok? && a.partitionSize % bs == 0 && |Stripped(c)| + bs <= a.partitionSize
    ensures var x, s := Add(lib, a, c, bs).value, Stripped(c);
            var blob := BlobFor(lib, a, s).value;
            var f, k := FooterFor(|s|, |s|, blob, bs), InFront(s, bs, a.partitionSize);
            && WF(f)
            && (Slice(x, f.vbmetaOffset, f.vbmetaOffset + |blob|) == blob
                <==> BlobFitsPartition(lib, a, c, bs)
                     || (k < |blob| <= k + bs && blob[k..] == FooterBlock(f, bs)[..|blob| - k]))
  {
    hide Add, BlobFor, WithFooter, FooterBlock, WF, Stripped, InFront, Slice, Fits;
    AddedIs(lib, a, c, bs);
    var s := Stripped(c);
    BlobFoundIff(|s|, s, BlobFor(lib, a, s).value, bs, a.partitionSize);
  }

  /** Erasing the added footer restores the content, down to the last byte of its original size. */
  lemma EraseAfterAdd(lib: D.Hashes, a: Args, c: bytes, bs: nat)
    requires SIZE <= bs <= MAX_METADATA_SIZE && Add(lib, a, c, bs).Ok? && BlobFitsPartition(lib, a, c, bs)
    ensures EraseFooter(lib, Add(lib, a, c, bs).value) == Ok(Stripped(c))
    ensures FooterOf(c) == None ==> EraseFooter(lib, Add(lib, a, c, bs).value) == Ok(c)
  {
    AddedParses(lib, a, c, bs);
    AddedIs(lib, a, c, bs);
    hide Add, BlobFor, BlobDescriptors, WithFooter, ParseImage, FooterOf, BlobFitsPartition, VbMeta.BlobHeader,
      VbMeta.BlobFits, D.EncodeAll, WF, Resize;
    var s := Stripped(c);
    WithFooterPrefix(|s|, s, BlobFor(lib, a, s).value, bs, a.partitionSize, |s|);
    assert s[..|s|] == s;
  }

  lemma ResizeFrom(lib: D.Hashes, x: bytes, f: Footer, h: VbMeta.Header, ds: seq<D.Descriptor>, bs: nat, p: nat)
    requires ParseImage(lib, x) == Ok((Some(f), h, ds)) && WF(f) && bs >= SIZE && p % bs == 0
    requires RoundToMultiple(f.vbmetaOffset + f.vbmetaSize, bs) + bs <= p
    ensures var end := RoundToMultiple(f.vbmetaOffset + f.vbmetaSize, bs);
            ResizeImage(lib, x, bs, p) == Ok(Resize(Resize(x, end), p - bs) + FooterBlock(f, bs))
  {
    hide ParseImage, FooterOf, WF, Resize, RoundToMultiple, FooterBlock;
  }

  lemma ResizeFinished(lib: D.Hashes, original: nat, s: bytes, blob: bytes, h: VbMeta.Header, ds: seq<D.Descriptor>,
                       bs: nat, p1: nat, p2: nat)
    requires bs >= SIZE && Fits(s, blob, bs, p1) && Fits(s, blob, bs, p2) && p2 % bs == 0
    requires WF(FooterFor(original, |s|, blob, bs))
    requires ParseImage(lib, WithFooter(original, s, blob, bs, p1))
          == Ok((Some(FooterFor(original, |s|, blob, bs)), h, ds))
    ensures ResizeImage(lib, WithFooter(original, s, blob, bs, p1), bs, p2) == Ok(WithFooter(original, s, blob, bs, p2))
  {
    hide WithFooter, ParseImage, FooterFor, Resize, RoundToMultiple, FooterBlock, ResizeImage, WF;
    Moved(original, s, blob, bs, p1, p2);
    ResizeFrom(lib, WithFooter(original, s, blob, bs, p1), FooterFor(original, |s|, blob, bs), h, ds, bs, p2);
  }

  /** Adding for one partition size and resizing to another is adding for the other. */
  lemma ResizeAfterAdd(lib: D.Hashes, a: Args, c: bytes, bs: nat, partitionSize: nat)
    requires SIZE <= bs && Add(lib, a, c, bs).Ok? && BlobFitsPartition(lib, a, c, bs)
    requires var a2 := a.(partitionSize := partitionSize);
             Add(lib, a2, c, bs).Ok? && BlobFitsPartition(lib, a2, c, bs)
    ensures ResizeImage(lib, Add(lib, a, c, bs).value, bs, partitionSize)
         == Add(lib, a.(partitionSize := partitionSize), c, bs)
  {
    var a2 := a.(partitionSize := partitionSize);
    var s := Stripped(c);
    SameBlob(lib, a, a2, s);
    AddedParses(lib, a, c, bs);
    AddedIs(lib, a, c, bs);
    AddedIs(lib, a2, c, bs);
    hide Add, BlobFor, BlobDescriptors, ParseImage, VbMeta.BlobHeader, Stripped, WithFooter, VbMeta.BlobFits,
      D.EncodeAll, WF, RoundToMultiple, FooterFor, ResizeImage, Fits, VbMeta.Blob;
    var blob, ds := BlobFor(lib, a, s).value, BlobDescriptors(lib, a, s).value;
    var h := VbMeta.BlobHeader(BlobArgs(a), Minor(a), |D.EncodeAll(lib, ds)|);
    ResizeFinished(lib, |s|, s, blob, h, ds, bs, a.partitionSize, partitionSize);
  }

  lemma SameBlob(lib: D.Hashes, a: Args, a2: Args, s: bytes)
    requires a2 == a.(partitionSize := a2.partitionSize)
    ensures BlobFor(lib, a2, s) == BlobFor(lib, a, s)
  {
    hide VbMeta.AllDescriptors, VbMeta.Blob, VbMeta.BlobFits;
  }

  /** The blob with its padding ends where the footer says, rounded up. */
  lemma EndOfBlob(original: nat, s: bytes, blob: bytes, bs: nat)
    requires bs > 0
    ensures var f := FooterFor(original, |s|, blob, bs);
            RoundToMultiple(f.vbmetaOffset + f.vbmetaSize, bs) == |WithBlob(s, blob, bs)|
  {
    RoundOfSum(RoundToMultiple(|s|, bs), |blob|, bs);
  }

  /** Cutting at the block behind the blob and filling up to another size is building for that size. */
  lemma Moved(original: nat, s: bytes, blob: bytes, bs: nat, p1: nat, p2: nat)
    requires bs >= SIZE && Fits(s, blob, bs, p1) && Fits(s, blob, bs, p2) && WF(FooterFor(original, |s|, blob, bs))
    ensures var f := FooterFor(original, |s|, blob, bs);
            var end := RoundToMultiple(f.vbmetaOffset + f.vbmetaSize, bs);
            && end + bs <= p2
            && Resize(Resize(WithFooter(original, s, blob, bs, p1), end), p2 - bs) + FooterBlock(f, bs)
               == WithFooter(original, s, blob, bs, p2)
  {
    EndOfBlob(original, s, blob, bs);
    var w, f := WithBlob(s, blob, bs), FooterFor(original, |s|, blob, bs);
    hide FooterBlock, WithBlob, RoundToMultiple, FooterFor, Resize, WF;
    PrefixKept(w, p1 - bs, FooterBlock(f, bs));
  }

  lemma RoundOfSum(a: nat, n: nat, bs: nat)
    requires bs > 0 && a % bs == 0
    ensures RoundToMultiple(a + n, bs) == a + RoundToMultiple(n, bs)
  {
    MultiplesClosed(a, RoundToMultiple(n, bs), bs);
    var r := a + RoundToMultiple(n, bs);
    MultiplesGap(RoundToMultiple(a + n, bs), r, bs);
    MultiplesGap(r, RoundToMultiple(a + n, bs), bs);
  }

  lemma PrefixKept(w: bytes, n: nat, z: bytes)
    requires |w| <= n
    ensures Resize(Resize(w, n) + z, |w|) == w
  {
  }

  /** The states add_hash_footer passes through once the content is stripped. */
  function Stages(s: bytes, blob: bytes, bs: nat, partitionSize: nat): seq<bytes>
    requires bs >= SIZE && partitionSize >= bs && WF(FooterFor(|s|, |s|, blob, bs))
  {
    [s, Resize(s, RoundToMultiple(|s|, bs)), WithBlob(s, blob, bs), Resize(WithBlob(s, blob, bs), partitionSize - bs),
     WithFooter(|s|, s, blob, bs, partitionSize)]
  }

  /** Whatever step fails, truncating to the original size restores the content held after stripping. */
  lemma RollbackRestores(s: bytes, blob: bytes, bs: nat, partitionSize: nat, k: nat)
    requires bs >= SIZE && partitionSize >= |s| + bs && WF(FooterFor(|s|, |s|, blob, bs))
    requires k < |Stages(s, blob, bs, partitionSize)|
    ensures Resize(Stages(s, blob, bs, partitionSize)[k], |s|) == s
  {
    hide FooterBlock;
    RoundsUp(|s|, bs);
    var x := Stages(s, blob, bs, partitionSize)[k];
    assert |x| >= |s| && forall i :: 0 <= i < |s| ==> x[i] == s[i];
  }
}
