/** What the boot recipe builds - two images with hash footers and a vbmeta image over them - verifies. */
module PackBoot {
  import opened Bytes
  import opened Struct
  import D = Descriptors
  import Merging
  import VbMeta
  import opened Footers
  import HashFooter
  import opened Verification
  import SparseFormat
  import SparseLayout
  import ImageHandling
  import AvbCommands

  const BS := 4096

  /** What including an image's descriptors takes from it. */
  function ImageOf(lib: D.Hashes, c: bytes): Result<VbMeta.Image> {
    var (_, h, ds) :- ParseImage(lib, c);
    Ok(VbMeta.Image(h.minor, ds))
  }

  function ImagesOf(lib: D.Hashes, cs: seq<bytes>): Result<seq<VbMeta.Image>> {
    if cs == [] then Ok([])
    else
      var i :- ImageOf(lib, cs[0]);
      var images :- ImagesOf(lib, cs[1..]);
      Ok([i] + images)
  }

  /** make_vbmeta_image without descriptors of its own. */
  ghost function MakeVbmetaImage(lib: D.Hashes, args: VbMeta.Args, included: seq<bytes>, padding: nat): Result<bytes> {
    var images :- ImagesOf(lib, included);
    var minor := VbMeta.MaxMinor(if args.rollbackIndexLocation > 0 then 2 else 0, images);
    var blob :- VbMeta.Generated(lib, args.(minMinor := minor), [], images);
    Ok(if padding > 0 then Resize(blob, RoundToMultiple(|blob|, padding)) else blob)
  }

  // ------------------------------------------------------------- vbmeta images

  /** A blob on its own is taken for an image with footer exactly when its last 64 bytes start with the magic. */
  lemma BlobHasFooterIff(lib: D.Hashes, args: VbMeta.Args, minor: nat, ds: seq<D.Descriptor>)
    requires VbMeta.BlobFits(lib, args, minor, ds)
    ensures var b := VbMeta.Blob(lib, args, minor, ds);
            |b| >= SIZE && (FooterOf(b).Some? <==> b[|b| - SIZE..][..4] == MAGIC)
  {
    hide VbMeta.Blob, VbMeta.BlobFits, Parse, D.EncodeAll, RoundToMultiple;
    var b := VbMeta.Blob(lib, args, minor, ds);
    ParseIff(b[|b| - SIZE..]);
  }

  /** It parses to its own header and descriptors unless it is taken for one whose blob lies elsewhere. */
  lemma BlobImageParses(lib: D.Hashes, args: VbMeta.Args, minor: nat, ds: seq<D.Descriptor>)
    requires VbMeta.BlobFits(lib, args, minor, ds)
    requires var f := FooterOf(VbMeta.Blob(lib, args, minor, ds)); f.Some? ==> f.value.vbmetaOffset == 0
    ensures var b := VbMeta.Blob(lib, args, minor, ds);
            ParseImage(lib, b) == Ok((FooterOf(b), VbMeta.BlobHeader(args, minor, |D.EncodeAll(lib, ds)|), ds))
  {
    hide VbMeta.Blob, VbMeta.BlobFits, FooterOf, VbMeta.BlobHeader, D.EncodeAll, VbMeta.ParseAt;
    var b := VbMeta.Blob(lib, args, minor, ds);
    assert b[0..0 + |b|] == b;
    VbMeta.BlobParses(lib, args, minor, ds, b, 0);
  }

  /** A footer read from 64 bytes whose offset field is NUL points to the start. */
  lemma NulOffset(data: bytes)
    requires |data| == SIZE && Parse(data).Ok? && data[20..28] == Zeros(8)
    ensures Parse(data).value.vbmetaOffset == 0
  {
    var t := data[4..][4..][4..][8..][..8];
    assert forall i :: 0 <= i < 8 ==> t[i] == data[20 + i] == data[20..28][i];
    assert t == Zeros(8);
    ZerosAreZero(8);
  }

  /** Making a vbmeta image again from just the one that was made gives it again. */
  lemma VbmetaAgain(lib: D.Hashes, args: VbMeta.Args, included: seq<bytes>)
    requires VbMeta.JustIncluded(args) && MakeVbmetaImage(lib, args, included, 0).Ok?
    requires var v := MakeVbmetaImage(lib, args, included, 0).value;
             FooterOf(v).Some? ==> FooterOf(v).value.vbmetaOffset == 0
    ensures MakeVbmetaImage(lib, args, [MakeVbmetaImage(lib, args, included, 0).value], 0)
         == MakeVbmetaImage(lib, args, included, 0)
  {
    hide VbMeta.Generated, ImagesOf, FooterOf, VbMeta.ParseAt, VbMeta.MaxMinor;
    var base := if args.rollbackIndexLocation > 0 then 2 else 0;
    var images := ImagesOf(lib, included).value;
    var minor := VbMeta.MaxMinor(base, images);
    var args2 := args.(minMinor := minor);
    var v := VbMeta.Generated(lib, args2, [], images).value;
    assert v[0..0 + |v|] == v;
    VbMeta.GeneratedAgain(lib, args2, images, v, 0);
    VbMeta.GeneratedIsNotEmpty(lib, args2, [], images);
    var (h, ds) := VbMeta.ParseAt(lib, v, 0).value;
    MinorTwice(base, images);
    VbMeta.OneImage(VbMeta.Image(h.minor, ds), base);
    ImageAlone(lib, v, VbMeta.Image(h.minor, ds));
  }

  lemma MinorTwice(n: nat, images: seq<VbMeta.Image>)
    ensures VbMeta.MaxMinor(VbMeta.MaxMinor(n, images), images) == VbMeta.MaxMinor(n, images) >= n
  {
    VbMeta.MaxMinorIsLargest(n, images);
    VbMeta.MaxMinorIsLargest(VbMeta.MaxMinor(n, images), images);
  }

  lemma ImageAlone(lib: D.Hashes, v: bytes, image: VbMeta.Image)
    requires ImageOf(lib, v) == Ok(image)
    ensures ImagesOf(lib, [v]) == Ok([image])
  {
    hide ImageOf;
    assert [v][1..] == [] && [image] + [] == [image];
    assert ImagesOf(lib, [v][1..]) == Ok([]);
  }

  /** Images are read one after the other, and all must parse. */
  lemma {:induction false} ImagesAt(lib: D.Hashes, cs: seq<bytes>)
    ensures var r := ImagesOf(lib, cs);
            && (r.Ok? <==> forall i :: 0 <= i < |cs| ==> ParseImage(lib, cs[i]).Ok?)
            && (r.Ok? ==> |r.value| == |cs| && forall i :: 0 <= i < |cs| ==> IsImage(lib, cs[i], r.value[i]))
  {
    hide ParseImage;
    if cs != [] {
      var t := cs[1..];
      ImagesAt(lib, t);
      assert forall i :: 0 < i < |cs| ==> cs[i] == t[i - 1];
      assert forall i :: 0 <= i < |t| ==> t[i] == cs[i + 1];
    }
  }

  predicate IsImage(lib: D.Hashes, c: bytes, image: VbMeta.Image) {
    var r := ParseImage(lib, c);
    r.Ok? && image == VbMeta.Image(r.value.1.minor, r.value.2)
  }

  /**
    A vbmeta image holds the properties and command lines asked for, then what is included, behind a header with the
    values asked for and the version they need. Padding is NULs up to the next multiple.
   */
  lemma MadeContents(lib: D.Hashes, args: VbMeta.Args, included: seq<bytes>, padding: nat)
    requires MakeVbmetaImage(lib, args, included, padding).Ok?
    ensures MakeVbmetaImage(lib, args, included, 0).Ok?
    ensures var b := MakeVbmetaImage(lib, args, included, 0).value;
            var v := MakeVbmetaImage(lib, args, included, padding).value;
            && |b| <= |v| && v == b + Zeros(|v| - |b|)
            && (padding == 0 ==> v == b) && (padding > 0 ==> |v| < |b| + padding && |v| % padding == 0)
            && ImagesOf(lib, included).Ok? && VbMeta.ParseAt(lib, v, 0).Ok?
            && MadeFrom(args, ImagesOf(lib, included).value, VbMeta.ParseAt(lib, v, 0).value)
  {
    hide VbMeta.Generated, ImagesOf, VbMeta.MaxMinor, VbMeta.ParseAt, Merging.Included, VbMeta.AllIncluded,
      VbMeta.IsProp;
    var images := ImagesOf(lib, included).value;
    var minor := VbMeta.MaxMinor(if args.rollbackIndexLocation > 0 then 2 else 0, images);
    var b, v := VbMeta.Generated(lib, args.(minMinor := minor), [], images).value,
                MakeVbmetaImage(lib, args, included, padding).value;
    assert v[0..0 + |b|] == b;
    VbMeta.GeneratedContents(lib, args.(minMinor := minor), [], images, v, 0);
    VbMeta.MaxMinorIsLargest(if args.rollbackIndexLocation > 0 then 2 else 0, images);
  }

  ghost predicate MadeFrom(args: VbMeta.Args, images: seq<VbMeta.Image>, found: (VbMeta.Header, seq<D.Descriptor>)) {
    var (h, ds) := found;
    var m, k := |args.props|, |args.cmdlines|;
    && m + k <= |ds| && (forall i :: 0 <= i < m ==> VbMeta.IsProp(ds[i], args.props[i]))
    && (forall i :: 0 <= i < k ==> ds[m + i] == D.KernelCmdline(0, args.cmdlines[i]))
    && ds[m + k..] == Merging.Included(VbMeta.AllIncluded(images))
    && h.rollbackIndex == args.rollbackIndex && h.flags == args.flags
    && h.rollbackIndexLocation == args.rollbackIndexLocation
    && HashFooter.Needs(h.minor, args.rollbackIndexLocation > 0, false, images)
  }

  // ------------------------------------------------------------- the recipe

  /** 'boot', 'dtbo' and 'sha256' */
  const BOOT: bytes := [98, 111, 111, 116]
  const DTBO: bytes := [100, 116, 98, 111]
  const SHA256: bytes := [115, 104, 97, 50, 53, 54]

  const DEFAULTS := VbMeta.Args(0, 0, 0, [], [], None, None, 0)

  /** A partition name of the recipe, a digest size and a salt as the tool chooses them. */
  predicate RecipeName(name: bytes) {
    name == BOOT || name == DTBO
  }

  ghost predicate Sha(lib: D.Hashes) {
    lib.Valid() && lib.plain.size(SHA256) == Some(32)
  }

  function FooterArgs(name: bytes, partitionSize: nat, salt: bytes): HashFooter.Args {
    HashFooter.Args(partitionSize, name, SHA256, salt, false, false, DEFAULTS, [])
  }

  /** The content without an old footer fits the partition. */
  predicate ContentFits(c: bytes, partitionSize: nat) {
    |Stripped(c)| + MAX_METADATA_SIZE <= partitionSize < U64 && partitionSize % BS == 0
  }

  /** The hash descriptor the recipe makes for an image. */
  function Described(lib: D.Hashes, name: bytes, partitionSize: nat, salt: bytes, c: bytes): (d: D.Descriptor)
    ensures d.Hash?
  {
    HashFooter.HashDescriptor(lib, FooterArgs(name, partitionSize, salt), Stripped(c))
  }

  /** A plain file shorter than the sparse header cannot be opened, neither before nor after stripping. */
  predicate Openable(c: bytes) {
    |c| >= 28 && |Stripped(c)| >= 28
  }

  /** Both footers, then the vbmeta image over the two images, all of them plain files. */
  ghost function Pack(lib: D.Hashes, boot: bytes, dtbo: bytes, bootSize: nat, dtboSize: nat, salt: bytes, salt2: bytes)
    : Result<(bytes, bytes, bytes)>
  {
    var _ :- if Openable(boot) && Openable(dtbo) then Ok(()) else Err(StructError);
    var b :- HashFooter.Add(lib, FooterArgs(BOOT, bootSize, salt), boot, BS);
    var d :- HashFooter.Add(lib, FooterArgs(DTBO, dtboSize, salt2), dtbo, BS);
    var v :- MakeVbmetaImage(lib, DEFAULTS, [b, d], 0);
    Ok((b, d, v))
  }

  lemma {:induction false} AsciiUtf8(s: bytes)
    requires Ascii(s)
    ensures D.Utf8(s)
  {
    if s != [] {
      AsciiUtf8(s[1..]);
    }
  }

  predicate RecipeHash(d: D.Descriptor) {
    && d.Hash? && RecipeName(d.name) && |d.salt| == 32 && d.algorithm == SHA256 && d.flags == 0
    && |d.digest| == 32 && d.imageSize < U64
  }

  lemma DescribedFields(lib: D.Hashes, name: bytes, partitionSize: nat, salt: bytes, c: bytes)
    requires Sha(lib) && RecipeName(name) && |salt| == 32 && ContentFits(c, partitionSize)
    ensures var d := Described(lib, name, partitionSize, salt, c);
            && d.Hash? && d.name == name && d.salt == salt && d.algorithm == SHA256 && d.flags == 0
            && |d.digest| == 32 && d.imageSize == |Stripped(c)| < U64
  {
    hide Stripped;
    assert |lib.plain.digest(SHA256, salt + Stripped(c))| == 32;
  }

  lemma HashIsWF(lib: D.Hashes, d: D.Descriptor)
    requires Sha(lib) && RecipeHash(d)
    ensures D.WF(lib, d) && |D.Encode(lib, d)| == 200 && |D.Body(d)| == 68 && D.HeaderSize(d) == 132
  {
    hide D.Utf8, D.Encode, D.EncodeHeader;
    AsciiUtf8(d.name);
    assert Ascii(SHA256) && D.NoTrailingNul(SHA256);
  }

  /** A default header over few descriptor bytes can be encoded. */
  lemma SmallHeaderWF(size: nat)
    requires size <= 400
    ensures VbMeta.WF(VbMeta.BlobHeader(DEFAULTS, 0, size))
  {
    hide D.Utf8;
    AsciiUtf8(VbMeta.DEFAULT_RELEASE);
    assert VbMeta.Release(DEFAULTS) == VbMeta.DEFAULT_RELEASE;
    assert VbMeta.DEFAULT_RELEASE[|VbMeta.DEFAULT_RELEASE| - 1] == 48;
  }

  lemma SmallBlobFits(lib: D.Hashes, ds: seq<D.Descriptor>)
    requires forall i :: 0 <= i < |ds| ==> D.WF(lib, ds[i])
    requires |D.EncodeAll(lib, ds)| <= 400
    ensures VbMeta.BlobFits(lib, DEFAULTS, 0, ds)
    ensures |VbMeta.Blob(lib, DEFAULTS, 0, ds)| == 256 + RoundToMultiple(|D.EncodeAll(lib, ds)|, 64)
  {
    hide D.WF, D.EncodeAll, VbMeta.WF, VbMeta.BlobHeader, VbMeta.Blob, RoundToMultiple;
    SmallHeaderWF(|D.EncodeAll(lib, ds)|);
  }

  lemma EncodeOne(lib: D.Hashes, d: D.Descriptor)
    requires D.WF(lib, d)
    ensures D.EncodeAll(lib, [d]) == D.Encode(lib, d)
  {
    hide D.WF, D.Encode;
    assert D.EncodeAll(lib, [d][1..]) == [];
  }

  lemma EncodeTwo(lib: D.Hashes, d: D.Descriptor, e: D.Descriptor)
    requires D.WF(lib, d) && D.WF(lib, e)
    ensures D.EncodeAll(lib, [d, e]) == D.Encode(lib, d) + D.Encode(lib, e)
  {
    EncodeOne(lib, e);
    hide D.WF, D.Encode;
    assert [d, e][1..] == [e];
  }

  lemma OneEncoded(lib: D.Hashes, d: D.Descriptor)
    requires Sha(lib) && RecipeHash(d)
    ensures D.WF(lib, d) && D.EncodeAll(lib, [d]) == D.Encode(lib, d) && |D.Encode(lib, d)| == 200
    ensures VbMeta.BlobFits(lib, DEFAULTS, 0, [d]) && |VbMeta.Blob(lib, DEFAULTS, 0, [d])| == 512
  {
    HashIsWF(lib, d);
    EncodeOne(lib, d);
    hide D.WF, D.Encode, VbMeta.Blob, VbMeta.BlobFits, Sha, RecipeHash, D.EncodeAll;
    SmallBlobFits(lib, [d]);
  }

  lemma TwoEncoded(lib: D.Hashes, d: D.Descriptor, e: D.Descriptor)
    requires Sha(lib) && RecipeHash(d) && RecipeHash(e)
    ensures D.WF(lib, d) && D.WF(lib, e) && D.EncodeAll(lib, [d, e]) == D.Encode(lib, d) + D.Encode(lib, e)
    ensures |D.Encode(lib, d)| == |D.Encode(lib, e)| == 200
    ensures VbMeta.BlobFits(lib, DEFAULTS, 0, [d, e]) && |VbMeta.Blob(lib, DEFAULTS, 0, [d, e])| == 704
  {
    HashIsWF(lib, d);
    HashIsWF(lib, e);
    EncodeTwo(lib, d, e);
    hide D.WF, D.Encode, VbMeta.Blob, VbMeta.BlobFits, Sha, RecipeHash, D.EncodeAll;
    SmallBlobFits(lib, [d, e]);
  }

  // ------------------------------------------------------------- which descriptors are included

  lemma NothingIncluded()
    ensures Merging.Included([]) == []
  {
    assert Merging.MergeMap([]) == map[];
    assert Merging.SortedKeys({}) == [];
  }

  lemma OwnDescriptorOnly(args: VbMeta.Args, d: D.Descriptor)
    requires args.props == [] && args.cmdlines == []
    ensures VbMeta.AllDescriptors(args, [d], []) == Ok([d])
  {
    NothingIncluded();
    assert VbMeta.AllIncluded([]) == [];
    assert VbMeta.CmdlineDescriptors([]) == [];
    hide Merging.Included, VbMeta.AllIncluded, VbMeta.CmdlineDescriptors;
    assert [d] + [] + [] + [] == [d];
  }

  lemma BootBeforeDtbo(b: D.Descriptor, d: D.Descriptor)
    requires b.Hash? && d.Hash? && b.name == BOOT && d.name == DTBO
    ensures Merging.LexLess(Merging.Key(b), Merging.Key(d)) && Merging.Key(b) != Merging.Key(d)
  {
    var p := Merging.ClassPrefix(b);
    Merging.PrefixCancels(p, BOOT, DTBO);
    Merging.LexTotal(p + BOOT, p + DTBO);
  }

  /** Both descriptors are included, boot's first. */
  lemma BothIncluded(b: D.Descriptor, d: D.Descriptor)
    requires b.Hash? && d.Hash? && b.name == BOOT && d.name == DTBO
    ensures Merging.Included([b, d]) == [b, d]
  {
    hide Merging.LexLess, Merging.Key, Merging.Included;
    BootBeforeDtbo(b, d);
    Merging.IncludedPair(b, d);
  }

  // ------------------------------------------------------------- the result

  /** The blob put behind an image of the recipe. */
  lemma RecipeBlob(lib: D.Hashes, name: bytes, partitionSize: nat, salt: bytes, c: bytes)
    requires Sha(lib) && RecipeName(name) && |salt| == 32 && ContentFits(c, partitionSize)
    ensures var a, s := FooterArgs(name, partitionSize, salt), Stripped(c);
            var d := Described(lib, name, partitionSize, salt, c);
            && RecipeHash(d) && d.name == name && VbMeta.BlobFits(lib, DEFAULTS, 0, [d])
            && HashFooter.BlobDescriptors(lib, a, s) == Ok([d]) && HashFooter.Minor(a) == 0
            && HashFooter.BlobArgs(a) == DEFAULTS
            && HashFooter.BlobFor(lib, a, s) == Ok(VbMeta.Blob(lib, DEFAULTS, 0, [d]))
            && |VbMeta.Blob(lib, DEFAULTS, 0, [d])| == 512
  {
    hide VbMeta.BlobFits, VbMeta.Blob, VbMeta.AllDescriptors, D.Encode, Stripped, HashFooter.HashDescriptor, D.WF, Sha,
      VbMeta.Generated, VbMeta.AllIncluded, D.EncodeAll;
    var a, d := FooterArgs(name, partitionSize, salt), Described(lib, name, partitionSize, salt, c);
    DescribedFields(lib, name, partitionSize, salt, c);
    OneEncoded(lib, d);
    OwnDescriptorOnly(DEFAULTS, d);
    NothingMet();
    VbMeta.GeneratedFrom(lib, DEFAULTS, [d], [], [d], 0);
  }

  lemma NothingMet()
    ensures VbMeta.AllIncluded([]) == [] && Merging.AllPackable([]) && VbMeta.MaxMinor(0, []) == 0
  {
  }

  /** An image of the recipe: the footer can always be added, and the result parses to its one descriptor. */
  lemma OneImage(lib: D.Hashes, name: bytes, partitionSize: nat, salt: bytes, c: bytes)
    requires Sha(lib) && RecipeName(name) && |salt| == 32 && ContentFits(c, partitionSize)
    ensures var a, d := FooterArgs(name, partitionSize, salt), Described(lib, name, partitionSize, salt, c);
            && HashFooter.Add(lib, a, c, BS).Ok? && HashFooter.BlobFitsPartition(lib, a, c, BS)
            && ImageOf(lib, HashFooter.Add(lib, a, c, BS).value) == Ok(VbMeta.Image(0, [d]))
  {
    RecipeBlob(lib, name, partitionSize, salt, c);
    RecipeAdds(lib, name, partitionSize, salt, c);
    hide VbMeta.BlobFits, VbMeta.Blob, D.EncodeAll, Stripped, HashFooter.HashDescriptor, HashFooter.Add, Sha,
      HashFooter.BlobFor, HashFooter.BlobDescriptors, ParseImage, HashFooter.BlobFitsPartition;
    HashFooter.AddedParses(lib, FooterArgs(name, partitionSize, salt), c, BS);
  }

  lemma RecipeAdds(lib: D.Hashes, name: bytes, partitionSize: nat, salt: bytes, c: bytes)
    requires Sha(lib) && RecipeName(name) && |salt| == 32 && ContentFits(c, partitionSize)
    ensures var a := FooterArgs(name, partitionSize, salt);
            HashFooter.Add(lib, a, c, BS).Ok? && HashFooter.BlobFitsPartition(lib, a, c, BS)
  {
    RecipeBlob(lib, name, partitionSize, salt, c);
    var a, s := FooterArgs(name, partitionSize, salt), Stripped(c);
    hide VbMeta.BlobFits, VbMeta.Blob, Stripped, HashFooter.HashDescriptor, HashFooter.BlobFor, WithFooter;
    PlainReservation(s, HashFooter.BlobFor(lib, a, s).value, partitionSize);
  }

  lemma ImagesStep(lib: D.Hashes, cs: seq<bytes>, i: VbMeta.Image, images: seq<VbMeta.Image>)
    requires cs != [] && ImageOf(lib, cs[0]) == Ok(i) && ImagesOf(lib, cs[1..]) == Ok(images)
    ensures ImagesOf(lib, cs) == Ok([i] + images)
  {
    hide ImageOf;
  }

  lemma ImagesPair(lib: D.Hashes, x: bytes, y: bytes, i: VbMeta.Image, j: VbMeta.Image)
    requires ImageOf(lib, x) == Ok(i) && ImageOf(lib, y) == Ok(j)
    ensures ImagesOf(lib, [x, y]) == Ok([i, j])
  {
    hide ImageOf;
    assert [x, y][1..] == [y] && [y][1..] == [];
    assert [j] + [] == [j] && [i] + [j] == [i, j];
    ImagesStep(lib, [y], j, []);
    ImagesStep(lib, [x, y], i, [j]);
  }

  /** The vbmeta image is the blob over exactly the two images' descriptors. */
  lemma VbmetaOfTwo(lib: D.Hashes, x: bytes, y: bytes, b: D.Descriptor, d: D.Descriptor)
    requires ImageOf(lib, x) == Ok(VbMeta.Image(0, [b])) && ImageOf(lib, y) == Ok(VbMeta.Image(0, [d]))
    requires b.Hash? && d.Hash? && b.name == BOOT && d.name == DTBO && VbMeta.BlobFits(lib, DEFAULTS, 0, [b, d])
    ensures MakeVbmetaImage(lib, DEFAULTS, [x, y], 0) == Ok(VbMeta.Blob(lib, DEFAULTS, 0, [b, d]))
  {
    hide ImageOf, ImagesOf, VbMeta.BlobFits, VbMeta.Blob, VbMeta.Generated, VbMeta.MaxMinor;
    var i, j := VbMeta.Image(0, [b]), VbMeta.Image(0, [d]);
    ImagesPair(lib, x, y, i, j);
    NoMinor(i, j);
    GeneratedOfTwo(lib, i, j, b, d);
    assert DEFAULTS.(minMinor := 0) == DEFAULTS;
  }

  lemma NoMinor(i: VbMeta.Image, j: VbMeta.Image)
    requires i.minor == 0 && j.minor == 0
    ensures VbMeta.MaxMinor(0, [i, j]) == 0
  {
    assert [i, j][..1] == [i] && [i][..0] == [];
    assert VbMeta.MaxMinor(0, [i]) == 0;
  }

  lemma AllOfTwo(i: VbMeta.Image, j: VbMeta.Image, b: D.Descriptor, d: D.Descriptor)
    requires i.descriptors == [b] && j.descriptors == [d]
    ensures VbMeta.AllIncluded([i, j]) == [b, d]
  {
    var parts := VbMeta.DescriptorsOf([i, j]);
    hide VbMeta.DescriptorsOf;
    assert parts[..1] == [[b]] && [[b]][..0] == [];
    assert Merging.Flatten([[b]]) == [] + [b] == [b];
    assert Merging.Flatten(parts) == [b] + [d] == [b, d];
  }

  lemma GeneratedOfTwo(lib: D.Hashes, i: VbMeta.Image, j: VbMeta.Image, b: D.Descriptor, d: D.Descriptor)
    requires i == VbMeta.Image(0, [b]) && j == VbMeta.Image(0, [d])
    requires b.Hash? && d.Hash? && b.name == BOOT && d.name == DTBO && VbMeta.BlobFits(lib, DEFAULTS, 0, [b, d])
    ensures VbMeta.Generated(lib, DEFAULTS, [], [i, j]) == Ok(VbMeta.Blob(lib, DEFAULTS, 0, [b, d]))
  {
    hide VbMeta.CmdlineDescriptors, VbMeta.AllIncluded, VbMeta.MaxMinor, Merging.Included, VbMeta.BlobFits, VbMeta.Blob,
      Merging.AllPackable, VbMeta.Generated;
    NoMinor(i, j);
    AllOfTwo(i, j, b, d);
    BothIncluded(b, d);
    TwoPackable(lib, b, d);
    NoCmdlines();
    assert [] + [] + [] + [b, d] == [b, d];
    VbMeta.GeneratedFrom(lib, DEFAULTS, [], [i, j], [b, d], 0);
  }

  lemma NoCmdlines()
    ensures VbMeta.CmdlineDescriptors([]) == []
  {
  }

  lemma TwoPackable(lib: D.Hashes, b: D.Descriptor, d: D.Descriptor)
    requires VbMeta.BlobFits(lib, DEFAULTS, 0, [b, d])
    ensures Merging.AllPackable([b, d]) && Merging.AllPackable([])
  {
    hide D.Legible, D.Packable, VbMeta.WF, D.EncodeAll;
    var ds := [b, d];
    forall k | 0 <= k < |ds| ensures D.Packable(ds[k]) {
      assert D.WF(lib, ds[k]);
    }
  }

  /** Should the image be taken for one with a footer, that footer names the same blob. */
  lemma FooterOffsetIsZero(lib: D.Hashes, b: D.Descriptor, d: D.Descriptor)
    requires Sha(lib) && RecipeHash(b) && RecipeHash(d)
    ensures VbMeta.BlobFits(lib, DEFAULTS, 0, [b, d])
    ensures var f := FooterOf(VbMeta.Blob(lib, DEFAULTS, 0, [b, d])); f.Some? ==> f.value.vbmetaOffset == 0
  {
    TwoEncoded(lib, b, d);
    var v := VbMeta.Blob(lib, DEFAULTS, 0, [b, d]);
    var e, h := D.EncodeAll(lib, [b, d]), VbMeta.EncodeHeader(VbMeta.BlobHeader(DEFAULTS, 0, 400));
    assert v == h + (e + Zeros(48));
    hide VbMeta.Blob, VbMeta.EncodeHeader, D.EncodeAll, VbMeta.BlobFits, Parse, D.Encode;
    TailIsZero(v, h, e);
    if FooterOf(v).Some? {
      NulOffset(v[|v| - SIZE..]);
    }
  }

  lemma TailIsZero(v: bytes, h: bytes, e: bytes)
    requires |h| == 256 && |e| == 400 && v == h + (e + Zeros(48))
    ensures v[|v| - SIZE..][20..28] == Zeros(8)
  {
    var t := v[|v| - SIZE..];
    forall i | 20 <= i < 28 ensures t[i] == 0 {
      assert t[i] == v[640 + i] == (e + Zeros(48))[384 + i];
    }
  }

  lemma VbmetaParses(lib: D.Hashes, x: bytes, y: bytes, b: D.Descriptor, d: D.Descriptor)
    requires ImageOf(lib, x) == Ok(VbMeta.Image(0, [b])) && ImageOf(lib, y) == Ok(VbMeta.Image(0, [d]))
    requires Sha(lib) && RecipeHash(b) && RecipeHash(d) && b.name == BOOT && d.name == DTBO
    ensures var v := MakeVbmetaImage(lib, DEFAULTS, [x, y], 0);
            && v.Ok?
            && ParseImage(lib, v.value) == Ok((FooterOf(v.value), VbMeta.BlobHeader(DEFAULTS, 0, 400), [b, d]))
            && (FooterOf(v.value).Some? ==> FooterOf(v.value).value.vbmetaOffset == 0)
  {
    hide Sha, ImageOf, VbMeta.BlobFits, VbMeta.Blob, ParseImage, FooterOf, VbMeta.BlobHeader, MakeVbmetaImage,
      D.EncodeAll, D.Encode;
    FooterOffsetIsZero(lib, b, d);
    VbmetaOfTwo(lib, x, y, b, d);
    TwoEncoded(lib, b, d);
    BlobImageParses(lib, DEFAULTS, 0, [b, d]);
  }

  /** Verifying a vbmeta image only needs the files its hash descriptors name. */
  lemma TwoHashesAccepted(lib: D.Hashes, v: bytes, b: D.Descriptor, d: D.Descriptor, files: Files, acceptZeroed: bool)
    requires b.Hash? && d.Hash? && b.name != [] && d.name != []
    requires ParseImage(lib, v) == Ok((FooterOf(v), VbMeta.BlobHeader(DEFAULTS, 0, 400), [b, d]))
    ensures ImageAccepted(lib, v, files, acceptZeroed)
            <==> HashAccepted(lib, b, files, v, 0) && HashAccepted(lib, d, files, v, 0)
  {
    hide HashAccepted, ParseImage, FooterOf, Slice;
    assert [b, d][1..] == [d] && [d][1..] == [];
    var h := VbMeta.BlobHeader(DEFAULTS, 0, 400);
    var pos := BlobEnd(v, FooterOf(v), h);
    NamedHash(lib, b, files, v, pos);
    NamedHash(lib, d, files, v, pos);
    assert AllAccepted(lib, [], files, v, pos, acceptZeroed);
    assert AllAccepted(lib, [d], files, v, pos, acceptZeroed) == Accepted(lib, d, files, v, pos, acceptZeroed);
    assert AllAccepted(lib, [b, d], files, v, pos, acceptZeroed)
        == (Accepted(lib, b, files, v, pos, acceptZeroed) && Accepted(lib, d, files, v, pos, acceptZeroed));
  }

  lemma NamedHash(lib: D.Hashes, d: D.Descriptor, files: Files, v: bytes, pos: nat)
    requires d.Hash? && d.name != []
    ensures HashAccepted(lib, d, files, v, pos) <==> HashAccepted(lib, d, files, v, 0)
  {
  }

  /** The file of a partition starts with content s, or with something else that has the same digest. */
  predicate Bound(lib: D.Hashes, files: Files, name: bytes, salt: bytes, s: bytes) {
    && name in files
    && var t := Slice(files[name], 0, |s|);
       t == s || (salt + t != salt + s && lib.plain.digest(SHA256, salt + t) == lib.plain.digest(SHA256, salt + s))
  }

  /** The recipe's hash descriptor is accepted exactly where its name stands for such a file. */
  lemma DescribedIsBound(lib: D.Hashes, name: bytes, partitionSize: nat, salt: bytes, c: bytes, files: Files, v: bytes)
    requires Sha(lib) && RecipeName(name) && |salt| == 32 && ContentFits(c, partitionSize)
    ensures HashAccepted(lib, Described(lib, name, partitionSize, salt, c), files, v, 0)
            <==> Bound(lib, files, name, salt, Stripped(c))
  {
    hide Stripped, Slice;
    ShaKnown(lib);
    DescribedFields(lib, name, partitionSize, salt, c);
    if name in files {
      SameBehind(salt, Slice(files[name], 0, |Stripped(c)|), Stripped(c));
    }
  }

  lemma SameBehind(p: bytes, x: bytes, y: bytes)
    ensures p + x == p + y <==> x == y
  {
    assert (p + x)[|p|..] == x && (p + y)[|p|..] == y;
  }

  lemma ShaKnown(lib: D.Hashes)
    requires Sha(lib)
    ensures lib.plain.size(SHA256) == Some(32)
  {
  }

  /** So it is where its name stands for the finished image. */
  lemma RecipeAccepted(lib: D.Hashes, name: bytes, partitionSize: nat, salt: bytes, c: bytes, files: Files, v: bytes)
    requires Sha(lib) && RecipeName(name) && |salt| == 32 && ContentFits(c, partitionSize)
    requires HashFooter.Add(lib, FooterArgs(name, partitionSize, salt), c, BS).Ok? && name in files
    requires files[name] == HashFooter.Add(lib, FooterArgs(name, partitionSize, salt), c, BS).value
    ensures Bound(lib, files, name, salt, Stripped(c))
  {
    hide HashFooter.Add, Sha, ContentFits, HashAccepted, HashFooter.HashDescriptor, Stripped, Bound;
    AddedHashAccepted(lib, FooterArgs(name, partitionSize, salt), c, BS, files, v, 0);
    DescribedIsBound(lib, name, partitionSize, salt, c, files, v);
  }

  /** The two finished images of the recipe. */
  lemma BothImages(lib: D.Hashes, boot: bytes, dtbo: bytes, bootSize: nat, dtboSize: nat, salt: bytes, salt2: bytes)
    returns (x: bytes, y: bytes)
    requires Sha(lib) && |salt| == 32 && |salt2| == 32 && ContentFits(boot, bootSize) && ContentFits(dtbo, dtboSize)
    ensures HashFooter.Add(lib, FooterArgs(BOOT, bootSize, salt), boot, BS) == Ok(x) && |x| == bootSize
    ensures HashFooter.Add(lib, FooterArgs(DTBO, dtboSize, salt2), dtbo, BS) == Ok(y) && |y| == dtboSize
    ensures ImageOf(lib, x) == Ok(VbMeta.Image(0, [Described(lib, BOOT, bootSize, salt, boot)]))
    ensures ImageOf(lib, y) == Ok(VbMeta.Image(0, [Described(lib, DTBO, dtboSize, salt2, dtbo)]))
  {
    hide HashFooter.Add, Described, Sha, ContentFits, ImageOf, HashFooter.BlobFitsPartition;
    OneImage(lib, BOOT, bootSize, salt, boot);
    OneImage(lib, DTBO, dtboSize, salt2, dtbo);
    HashFooter.AddFillsPartition(lib, FooterArgs(BOOT, bootSize, salt), boot, BS);
    HashFooter.AddFillsPartition(lib, FooterArgs(DTBO, dtboSize, salt2), dtbo, BS);
    x := HashFooter.Add(lib, FooterArgs(BOOT, bootSize, salt), boot, BS).value;
    y := HashFooter.Add(lib, FooterArgs(DTBO, dtboSize, salt2), dtbo, BS).value;
  }

  /** The vbmeta image the recipe makes: what it parses to, and the files it is accepted over. */
  lemma VbmetaBinds(lib: D.Hashes, boot: bytes, dtbo: bytes, bootSize: nat, dtboSize: nat, salt: bytes, salt2: bytes,
                    v: bytes, files: Files, acceptZeroed: bool)
    requires Sha(lib) && |salt| == 32 && |salt2| == 32 && ContentFits(boot, bootSize) && ContentFits(dtbo, dtboSize)
    requires ParseImage(lib, v) == Ok((FooterOf(v), VbMeta.BlobHeader(DEFAULTS, 0, 400),
                                       [Described(lib, BOOT, bootSize, salt, boot),
                                        Described(lib, DTBO, dtboSize, salt2, dtbo)]))
    ensures ImageAccepted(lib, v, files, acceptZeroed)
            <==> Bound(lib, files, BOOT, salt, Stripped(boot)) && Bound(lib, files, DTBO, salt2, Stripped(dtbo))
  {
    hide Described, Sha, ContentFits, ParseImage, FooterOf, ImageAccepted, VbMeta.BlobHeader, HashAccepted, Bound;
    DescribedFields(lib, BOOT, bootSize, salt, boot);
    DescribedFields(lib, DTBO, dtboSize, salt2, dtbo);
    TwoHashesAccepted(lib, v, Described(lib, BOOT, bootSize, salt, boot), Described(lib, DTBO, dtboSize, salt2, dtbo),
                      files, acceptZeroed);
    DescribedIsBound(lib, BOOT, bootSize, salt, boot, files, v);
    DescribedIsBound(lib, DTBO, dtboSize, salt2, dtbo, files, v);
  }

  /**
    Whatever boot and dtbo images fit their partitions, and whatever the salts: the recipe succeeds if they can be
    opened at all; its vbmeta image parses to exactly the two hash descriptors, boot's first; verify_image accepts it
    over the two final images, and over any files exactly when each starts with the described content, or with other
    bytes of the same digest.
   */
  lemma PackedVerifies(lib: D.Hashes, boot: bytes, dtbo: bytes, bootSize: nat, dtboSize: nat, salt: bytes, salt2: bytes,
                       files: Files, acceptZeroed: bool)
    requires Sha(lib) && |salt| == 32 && |salt2| == 32 && ContentFits(boot, bootSize) && ContentFits(dtbo, dtboSize)
    ensures var p := Pack(lib, boot, dtbo, bootSize, dtboSize, salt, salt2);
            && (p.Ok? <==> Openable(boot) && Openable(dtbo))
            && (p.Ok? ==>
                  var (x, y, v) := p.value;
                  && |x| == bootSize && |y| == dtboSize
                  && ParseImage(lib, v) == Ok((FooterOf(v), VbMeta.BlobHeader(DEFAULTS, 0, 400),
                                               [Described(lib, BOOT, bootSize, salt, boot),
                                                Described(lib, DTBO, dtboSize, salt2, dtbo)]))
                  && ImageAccepted(lib, v, map[BOOT := x, DTBO := y], acceptZeroed)
                  && (ImageAccepted(lib, v, files, acceptZeroed)
                      <==> Bound(lib, files, BOOT, salt, Stripped(boot))
                           && Bound(lib, files, DTBO, salt2, Stripped(dtbo))))
  {
    hide HashFooter.Add, Described, Sha, ContentFits, ImageOf, ParseImage, FooterOf, ImageAccepted, VbMeta.BlobHeader,
      MakeVbmetaImage, HashAccepted, Bound, Openable, Stripped;
    var x, y := BothImages(lib, boot, dtbo, bootSize, dtboSize, salt, salt2);
    var own: Files := map[BOOT := x, DTBO := y];
    DescribedFields(lib, BOOT, bootSize, salt, boot);
    DescribedFields(lib, DTBO, dtboSize, salt2, dtbo);
    VbmetaParses(lib, x, y, Described(lib, BOOT, bootSize, salt, boot), Described(lib, DTBO, dtboSize, salt2, dtbo));
    var v := MakeVbmetaImage(lib, DEFAULTS, [x, y], 0).value;
    RecipeAccepted(lib, BOOT, bootSize, salt, boot, own, v);
    RecipeAccepted(lib, DTBO, dtboSize, salt2, dtbo, own, v);
    VbmetaBinds(lib, boot, dtbo, bootSize, dtboSize, salt, salt2, v, own, acceptZeroed);
    VbmetaBinds(lib, boot, dtbo, bootSize, dtboSize, salt, salt2, v, files, acceptZeroed);
  }

  /**
    An empty sparse image whose blocks are so large that none of them fits a chunk: add_hash_footer gets through its
    checks, and the blob overflows its chunk.
   */
  lemma HugeBlocksOverflow(lib: D.Hashes, name: bytes, bs: nat, salt: bytes)
    requires Sha(lib) && RecipeName(name) && |salt| == 32 && U32 - 12 <= bs < U32
    ensures var a, sp := FooterArgs(name, BS * bs, salt), SparseFormat.Sparse(bs, 0, []);
            && SparseLayout.PlainImage(sp) && SparseLayout.Expand(sp.chunks, bs) == [] == Stripped([])
            && AvbCommands.Addable(lib, a, [], bs)
            && ImageHandling.Overflows(sp, AvbCommands.FirstChunk(lib, a, [], bs))
  {
    hide Sha, Described, VbMeta.Blob, VbMeta.BlobFits, HashFooter.BlobFor, HashFooter.BlobDescriptors;
    MulMod(BS, bs);
    MulMod(bs, BS);
    assert Stripped([]) == [];
    RecipeBlob(lib, name, BS * bs, salt, []);
    var a := FooterArgs(name, BS * bs, salt);
    assert HashFooter.BlobFor(lib, a, []).Ok?;
    assert lib.plain.size(SHA256).Some? by {
      ShaKnown(lib);
    }
    RoundedOnce(|HashFooter.BlobFor(lib, a, []).value|, bs);
  }

  lemma RoundedOnce(n: nat, bs: nat)
    requires 0 < n <= bs
    ensures RoundToMultiple(n, bs) == bs
  {
  }
}
