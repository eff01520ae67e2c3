/** The vbmeta header and the blob of header and descriptors, for the unsigned algorithm NONE. */
module VbMeta {
  import opened Bytes
  import opened Struct
  import D = Descriptors
  import Merging

  const MAGIC: bytes := [65, 86, 66, 48]
  const HEADER_SIZE := 256
  const RELEASE_SIZE := 47

  datatype Header = Header(major: nat, minor: nat, authSize: nat, auxSize: nat, algorithm: nat,
                           hashOffset: nat, hashSize: nat, signatureOffset: nat, signatureSize: nat,
                           publicKeyOffset: nat, publicKeySize: nat, metadataOffset: nat, metadataSize: nat,
                           descriptorsOffset: nat, descriptorsSize: nat, rollbackIndex: nat, flags: nat,
                           rollbackIndexLocation: nat, release: bytes)

  const LAST_FORMAT: Format := U(8, U(4, U(4, S(47, X(1, X(80, End))))))
  const OFFSETS_FORMAT: Format := U(8, U(8, U(8, U(8, U(8, U(8, U(8, U(8, U(8, U(8, LAST_FORMAT))))))))))
  const HEADER_FORMAT: Format := S(4, U(4, U(4, U(8, U(8, U(4, OFFSETS_FORMAT))))))

  /** 'avbtool 1.3.0' */
  const DEFAULT_RELEASE: bytes := [97, 118, 98, 116, 111, 111, 108, 32, 49, 46, 51, 46, 48]

  /** What the header constructor makes without data, and also with an empty read. */
  const DEFAULT_HEADER := Header(1, 0, 0, 0, 0, 0, 0, 0, 0, 0, 0, 0, 0, 0, 0, 0, 0, 0, DEFAULT_RELEASE)

  predicate WFRelease(release: bytes) {
    |release| <= RELEASE_SIZE && D.NoTrailingNul(release) && D.Utf8(release)
  }

  predicate WFOffsets(h: Header) {
    && h.hashOffset < U64 && h.hashSize < U64 && h.signatureOffset < U64 && h.signatureSize < U64
    && h.publicKeyOffset < U64 && h.publicKeySize < U64 && h.metadataOffset < U64 && h.metadataSize < U64
    && h.descriptorsOffset < U64 && h.descriptorsSize < U64
  }

  predicate WF(h: Header) {
    && h.major < U32 && h.minor < U32 && h.authSize < U64 && h.auxSize < U64 && h.algorithm < U32
    && WFOffsets(h)
    && h.rollbackIndex < U64 && h.flags < U32 && h.rollbackIndexLocation < U32
    && WFRelease(h.release)
  }

  function LastValues(h: Header): Values {
    Int(h.rollbackIndex, Int(h.flags, Int(h.rollbackIndexLocation, Str(Resize(h.release, RELEASE_SIZE), Done))))
  }

  function OffsetValues(h: Header): Values {
    var keys := Int(h.publicKeyOffset, Int(h.publicKeySize, Int(h.metadataOffset, Int(h.metadataSize,
                  Int(h.descriptorsOffset, Int(h.descriptorsSize, LastValues(h)))))));
    Int(h.hashOffset, Int(h.hashSize, Int(h.signatureOffset, Int(h.signatureSize, keys))))
  }

  function HeaderValues(h: Header): Values {
    Str(MAGIC, Int(h.major, Int(h.minor, Int(h.authSize, Int(h.auxSize, Int(h.algorithm, OffsetValues(h)))))))
  }

  lemma LastExact(h: Header)
    requires WF(h)
    ensures Exact(LAST_FORMAT, LastValues(h))
  {
    hide D.Utf8;
  }

  lemma OffsetsExact(h: Header)
    requires WF(h)
    ensures Exact(OFFSETS_FORMAT, OffsetValues(h))
  {
    LastExact(h);
    hide WFRelease, LastValues;
  }

  lemma HeaderExact(h: Header)
    requires WF(h)
    ensures Exact(HEADER_FORMAT, HeaderValues(h))
  {
    OffsetsExact(h);
    hide WFRelease, OffsetValues, WFOffsets;
    var sizes := Int(h.algorithm, OffsetValues(h));
    ExactInt(4, OFFSETS_FORMAT, h.algorithm, OffsetValues(h));
    ExactInt(8, U(4, OFFSETS_FORMAT), h.auxSize, sizes);
    ExactInt(8, U(8, U(4, OFFSETS_FORMAT)), h.authSize, Int(h.auxSize, sizes));
    assert Exact(HEADER_FORMAT, HeaderValues(h));
  }

  lemma LastSize(n: int)
    ensures HasSize(LAST_FORMAT, n) <==> n == 144
  {
  }

  lemma OffsetsSize(n: int)
    ensures HasSize(OFFSETS_FORMAT, n) <==> n == 224
  {
    LastSize(n - 80);
  }

  lemma HeaderHasSize(n: int)
    ensures HasSize(HEADER_FORMAT, n) <==> n == HEADER_SIZE
  {
    OffsetsSize(n - 32);
  }

  function EncodeHeader(h: Header): (r: bytes)
    requires WF(h)
    ensures |r| == HEADER_SIZE
  {
    HeaderExact(h);
    ExactFits(HEADER_FORMAT, HeaderValues(h));
    var r := Pack(Big, HEADER_FORMAT, HeaderValues(h));
    HeaderHasSize(|r|);
    r
  }

  lemma LastOctets(s: bytes, h: Header)
    requires WF(h) && |s| == HEADER_SIZE && Fits(LAST_FORMAT, LastValues(h))
    requires s[112..] == Pack(Big, LAST_FORMAT, LastValues(h))
    ensures s[112..120] == BE(h.rollbackIndex, 8) && s[120..124] == BE(h.flags, 4)
    ensures s[124..128] == BE(h.rollbackIndexLocation, 4)
    ensures s[128..175] == Resize(h.release, 47) && s[175..176] == Zeros(1) && s[176..256] == Zeros(80)
  {
    hide Pack, Fits, WF, BE, Resize;
    var f, v := LAST_FORMAT, LastValues(h);
    Field(s, 112, Big, f, v);
    Field(s, 120, Big, f.after, v.more);
    Field(s, 124, Big, f.after.after, v.more.more);
    Field(s, 128, Big, f.after.after.after, v.more.more.more);
    ResizeSame(Resize(h.release, RELEASE_SIZE));
    Field(s, 175, Big, f.after.after.after.after, v.more.more.more.more);
    Field(s, 176, Big, f.after.after.after.after.after, v.more.more.more.more);
  }

  lemma OffsetOctets(s: bytes, h: Header)
    requires WF(h) && |s| == HEADER_SIZE && Fits(OFFSETS_FORMAT, OffsetValues(h))
    requires s[32..] == Pack(Big, OFFSETS_FORMAT, OffsetValues(h))
    ensures s[32..40] == BE(h.hashOffset, 8) && s[40..48] == BE(h.hashSize, 8)
    ensures s[48..56] == BE(h.signatureOffset, 8) && s[56..64] == BE(h.signatureSize, 8)
    ensures s[64..72] == BE(h.publicKeyOffset, 8) && s[72..80] == BE(h.publicKeySize, 8)
    ensures s[80..88] == BE(h.metadataOffset, 8) && s[88..96] == BE(h.metadataSize, 8)
    ensures s[96..104] == BE(h.descriptorsOffset, 8) && s[104..112] == BE(h.descriptorsSize, 8)
    ensures Fits(LAST_FORMAT, LastValues(h)) && s[112..] == Pack(Big, LAST_FORMAT, LastValues(h))
  {
    hide Pack, Fits, WF, BE, LastValues;
    var f, v := OFFSETS_FORMAT, OffsetValues(h);
    Field(s, 32, Big, f, v);
    f, v := f.after, v.more;
    Field(s, 40, Big, f, v);
    f, v := f.after, v.more;
    Field(s, 48, Big, f, v);
    f, v := f.after, v.more;
    Field(s, 56, Big, f, v);
    f, v := f.after, v.more;
    Field(s, 64, Big, f, v);
    f, v := f.after, v.more;
    Field(s, 72, Big, f, v);
    f, v := f.after, v.more;
    Field(s, 80, Big, f, v);
    f, v := f.after, v.more;
    Field(s, 88, Big, f, v);
    f, v := f.after, v.more;
    Field(s, 96, Big, f, v);
    f, v := f.after, v.more;
    Field(s, 104, Big, f, v);
  }

  /** Where each field of a header lies. */
  lemma HeaderOctets(h: Header)
    requires WF(h)
    ensures var s := EncodeHeader(h);
            && s[..4] == [0x41, 0x56, 0x42, 0x30] && s[4..8] == BE(h.major, 4) && s[8..12] == BE(h.minor, 4)
            && s[12..20] == BE(h.authSize, 8) && s[20..28] == BE(h.auxSize, 8) && s[28..32] == BE(h.algorithm, 4)
            && s[32..40] == BE(h.hashOffset, 8) && s[40..48] == BE(h.hashSize, 8)
            && s[48..56] == BE(h.signatureOffset, 8) && s[56..64] == BE(h.signatureSize, 8)
            && s[64..72] == BE(h.publicKeyOffset, 8) && s[72..80] == BE(h.publicKeySize, 8)
            && s[80..88] == BE(h.metadataOffset, 8) && s[88..96] == BE(h.metadataSize, 8)
            && s[96..104] == BE(h.descriptorsOffset, 8) && s[104..112] == BE(h.descriptorsSize, 8)
            && s[112..120] == BE(h.rollbackIndex, 8) && s[120..124] == BE(h.flags, 4)
            && s[124..128] == BE(h.rollbackIndexLocation, 4)
            && s[128..175] == Resize(h.release, 47) && s[175..176] == Zeros(1) && s[176..256] == Zeros(80)
  {
    HeaderExact(h);
    ExactFits(HEADER_FORMAT, HeaderValues(h));
    var s, f, v := EncodeHeader(h), HEADER_FORMAT, HeaderValues(h);
    assert s[0..] == s == Pack(Big, f, v);
    hide Pack, Fits, Exact, WF, BE, OffsetValues, EncodeHeader, Resize;
    Field(s, 0, Big, f, v);
    ResizeSame(MAGIC);
    f, v := f.after, v.more;
    Field(s, 4, Big, f, v);
    f, v := f.after, v.more;
    Field(s, 8, Big, f, v);
    f, v := f.after, v.more;
    Field(s, 12, Big, f, v);
    f, v := f.after, v.more;
    Field(s, 20, Big, f, v);
    f, v := f.after, v.more;
    Field(s, 28, Big, f, v);
    OffsetOctets(s, h);
    LastOctets(s, h);
  }

  lemma LastShape(v: Values)
    requires Exact(LAST_FORMAT, v)
    ensures v.Int? && v.more.Int? && v.more.more.Int? && v.more.more.more.Str?
    ensures v.n >= 0 && v.more.n >= 0 && v.more.more.n >= 0
  {
  }

  lemma OffsetsShape(v: Values)
    requires Exact(OFFSETS_FORMAT, v)
    ensures v.Int? && v.more.Int? && v.more.more.Int? && v.more.more.more.Int? && v.more.more.more.more.Int?
    ensures v.n >= 0 && v.more.n >= 0 && v.more.more.n >= 0 && v.more.more.more.n >= 0 && v.more.more.more.more.n >= 0
    ensures var w := v.more.more.more.more.more;
            && w.Int? && w.more.Int? && w.more.more.Int? && w.more.more.more.Int? && w.more.more.more.more.Int?
            && w.n >= 0 && w.more.n >= 0 && w.more.more.n >= 0 && w.more.more.more.n >= 0
            && w.more.more.more.more.n >= 0
            && Exact(LAST_FORMAT, w.more.more.more.more.more)
  {
  }

  lemma HeaderShape(v: Values)
    requires Exact(HEADER_FORMAT, v)
    ensures v.Str? && v.more.Int? && v.more.more.Int? && v.more.more.more.Int? && v.more.more.more.more.Int?
    ensures v.more.n >= 0 && v.more.more.n >= 0 && v.more.more.more.n >= 0 && v.more.more.more.more.n >= 0
    ensures v.more.more.more.more.more.Int? && v.more.more.more.more.more.n >= 0
    ensures Exact(OFFSETS_FORMAT, v.more.more.more.more.more.more)
  {
  }

  /** AvbVBMetaHeader(data): no data at all gives the default header rather than an error. */
  function ParseHeader(data: bytes): Result<Header> {
    if data == [] then Ok(DEFAULT_HEADER)
    else
      var fields :- Unpack(Big, HEADER_FORMAT, data);
      HeaderShape(fields);
      var Str(magic, Int(major, Int(minor, Int(auth, Int(aux, Int(alg, offsets)))))) := fields;
      OffsetsShape(offsets);
      var Int(ho, Int(hs, Int(so, Int(ss, Int(ko, rest))))) := offsets;
      var Int(ks, Int(mo, Int(ms, Int(do, Int(ds, last))))) := rest;
      LastShape(last);
      var Int(rb, Int(flags, Int(loc, Str(release0, _)))) := last;
      if magic != MAGIC then Err(AvbError)
      else
        var release := D.RStrip(release0);
        if !D.Utf8(release) then Err(UnicodeError)
        else Ok(Header(major, minor, auth, aux, alg, ho, hs, so, ss, ko, ks, mo, ms, do, ds, rb, flags, loc, release))
  }

  lemma HeaderRoundTrip(h: Header)
    requires WF(h)
    ensures ParseHeader(EncodeHeader(h)) == Ok(h)
  {
    HeaderExact(h);
    UnpackPack(Big, HEADER_FORMAT, HeaderValues(h));
    D.RStripResize(h.release, RELEASE_SIZE);
    hide Unpack, Exact, HasSize, D.Utf8, Resize, WFOffsets;
  }

  /** A header is accepted when there is none, or its 256 octets begin with the magic and name a release in text. */
  lemma ParseHeaderIff(data: bytes)
    ensures var r := ParseHeader(data);
            && (r.Ok? <==>
                  data == [] || (|data| == 256 && data[..4] == Chars("AVB0") && D.Utf8(D.RStrip(data[128..175]))))
            && (r.Ok? && data != [] ==>
                  r.value == Header(D.At(data, 4, 8), D.At(data, 8, 12), D.At(data, 12, 20), D.At(data, 20, 28),
                                    D.At(data, 28, 32), D.At(data, 32, 40), D.At(data, 40, 48), D.At(data, 48, 56),
                                    D.At(data, 56, 64), D.At(data, 64, 72), D.At(data, 72, 80), D.At(data, 80, 88),
                                    D.At(data, 88, 96), D.At(data, 96, 104), D.At(data, 104, 112),
                                    D.At(data, 112, 120), D.At(data, 120, 124), D.At(data, 124, 128),
                                    D.RStrip(data[128..175])))
  {
    hide Unpack, D.Utf8, D.RStrip, Exact, HasSize, D.At;
    HeaderHasSize(|data|);
    assert MAGIC == Chars("AVB0");
    if |data| == 256 {
      assert data == data[..256] == data[..256][0..];
      var v := Unpack(Big, HEADER_FORMAT, data).value;
      FrontAt(data, v);
      OffsetsAt(data, v.more.more.more.more.more.more);
      LastAt(data, v.more.more.more.more.more.more.more.more.more.more.more.more.more.more.more.more);
    }
  }

  lemma FrontAt(data: bytes, vs: Values)
    requires |data| == 256 && Unpack(Big, HEADER_FORMAT, data[..256][0..]) == Ok(vs)
    ensures vs.Str? && vs.s == data[0..4] && vs.more.Int? && vs.more.n == D.At(data, 4, 8)
    ensures var w := vs.more.more;
            && w.Int? && w.n == D.At(data, 8, 12) && w.more.Int? && w.more.n == D.At(data, 12, 20)
            && w.more.more.Int? && w.more.more.n == D.At(data, 20, 28)
            && w.more.more.more.Int? && w.more.more.more.n == D.At(data, 28, 32)
            && Unpack(Big, OFFSETS_FORMAT, data[..256][32..]) == Ok(w.more.more.more.more)
  {
    hide Unpack, D.At;
    var f, v := HEADER_FORMAT, vs;
    D.UnpackAt(data, 256, 0, f, v);
    f, v := f.after, v.more;
    D.UnpackAt(data, 256, 4, f, v);
    f, v := f.after, v.more;
    D.UnpackAt(data, 256, 8, f, v);
    f, v := f.after, v.more;
    D.UnpackAt(data, 256, 12, f, v);
    f, v := f.after, v.more;
    D.UnpackAt(data, 256, 20, f, v);
    f, v := f.after, v.more;
    D.UnpackAt(data, 256, 28, f, v);
  }

  lemma OffsetsAt(data: bytes, vs: Values)
    requires |data| == 256 && Unpack(Big, OFFSETS_FORMAT, data[..256][32..]) == Ok(vs)
    ensures vs.Int? && vs.n == D.At(data, 32, 40) && vs.more.Int? && vs.more.n == D.At(data, 40, 48)
    ensures var w := vs.more.more;
            && w.Int? && w.n == D.At(data, 48, 56) && w.more.Int? && w.more.n == D.At(data, 56, 64)
            && w.more.more.Int? && w.more.more.n == D.At(data, 64, 72)
            && w.more.more.more.Int? && w.more.more.more.n == D.At(data, 72, 80)
    ensures var w := vs.more.more.more.more.more.more;
            && w.Int? && w.n == D.At(data, 80, 88) && w.more.Int? && w.more.n == D.At(data, 88, 96)
            && w.more.more.Int? && w.more.more.n == D.At(data, 96, 104)
            && w.more.more.more.Int? && w.more.more.more.n == D.At(data, 104, 112)
            && Unpack(Big, LAST_FORMAT, data[..256][112..]) == Ok(w.more.more.more.more)
  {
    hide Unpack, D.At;
    var f, v := OFFSETS_FORMAT, vs;
    D.UnpackAt(data, 256, 32, f, v);
    f, v := f.after, v.more;
    D.UnpackAt(data, 256, 40, f, v);
    f, v := f.after, v.more;
    D.UnpackAt(data, 256, 48, f, v);
    f, v := f.after, v.more;
    D.UnpackAt(data, 256, 56, f, v);
    f, v := f.after, v.more;
    D.UnpackAt(data, 256, 64, f, v);
    f, v := f.after, v.more;
    D.UnpackAt(data, 256, 72, f, v);
    f, v := f.after, v.more;
    D.UnpackAt(data, 256, 80, f, v);
    f, v := f.after, v.more;
    D.UnpackAt(data, 256, 88, f, v);
    f, v := f.after, v.more;
    D.UnpackAt(data, 256, 96, f, v);
    f, v := f.after, v.more;
    D.UnpackAt(data, 256, 104, f, v);
  }

  lemma LastAt(data: bytes, vs: Values)
    requires |data| == 256 && Unpack(Big, LAST_FORMAT, data[..256][112..]) == Ok(vs)
    ensures vs.Int? && vs.n == D.At(data, 112, 120) && vs.more.Int? && vs.more.n == D.At(data, 120, 124)
    ensures vs.more.more.Int? && vs.more.more.n == D.At(data, 124, 128)
    ensures vs.more.more.more.Str? && vs.more.more.more.s == data[128..175]
  {
    hide Unpack, D.At;
    var f, v := LAST_FORMAT, vs;
    D.UnpackAt(data, 256, 112, f, v);
    f, v := f.after, v.more;
    D.UnpackAt(data, 256, 120, f, v);
    f, v := f.after, v.more;
    D.UnpackAt(data, 256, 124, f, v);
    f, v := f.after, v.more;
    D.UnpackAt(data, 256, 128, f, v);
  }

  // ------------------------------------------------------------- the blob

  /** What is asked of the blob besides its descriptors. */
  datatype Args = Args(rollbackIndex: nat, flags: nat, rollbackIndexLocation: nat, props: seq<bytes>,
                       cmdlines: seq<bytes>, release: Option<bytes>, appendRelease: Option<bytes>, minMinor: nat)

  /** An image whose descriptors are included: its header's required minor version and its descriptors. */
  datatype Image = Image(minor: nat, descriptors: seq<D.Descriptor>)

  const COLON := 58

  /** The descriptor of a property string; it is encoded as soon as it is made. */
  function PropDescriptor(prop: bytes): Result<D.Descriptor> {
    var idx := Find(prop, COLON);
    if idx.None? then Err(AvbError)
    else
      var d := D.Property(prop[..idx.value], prop[idx.value + 1..]);
      if D.Packable(d) then Ok(d) else Err(StructError)
  }

  function PropDescriptors(props: seq<bytes>): Result<seq<D.Descriptor>> {
    if props == [] then Ok([])
    else
      var d :- PropDescriptor(props[0]);
      var ds :- PropDescriptors(props[1..]);
      Ok([d] + ds)
  }

  function CmdlineDescriptors(cmdlines: seq<bytes>): seq<D.Descriptor> {
    seq(|cmdlines|, i requires 0 <= i < |cmdlines| => D.KernelCmdline(0, cmdlines[i]))
  }

  function DescriptorsOf(images: seq<Image>): (r: seq<seq<D.Descriptor>>)
    ensures |r| == |images| && forall i :: 0 <= i < |images| ==> r[i] == images[i].descriptors
  {
    seq(|images|, i requires 0 <= i < |images| => images[i].descriptors)
  }

  function AllIncluded(images: seq<Image>): seq<D.Descriptor> {
    Merging.Flatten(DescriptorsOf(images))
  }

  /** The descriptors of the blob, in order. */
  ghost function AllDescriptors(args: Args, ds: seq<D.Descriptor>, images: seq<Image>): Result<seq<D.Descriptor>> {
    var props :- PropDescriptors(args.props);
    Ok(ds + props + CmdlineDescriptors(args.cmdlines) + Merging.Included(AllIncluded(images)))
  }

  function Release(args: Args): bytes {
    (if args.release.Some? then args.release.value else DEFAULT_RELEASE)
    + (if args.appendRelease.Some? then [32] + args.appendRelease.value else [])
  }

  /** The largest minor version any included image asks for, at least n. */
  function MaxMinor(n: nat, images: seq<Image>): nat {
    if images == [] then n else Max(MaxMinor(n, images[..|images| - 1]), images[|images| - 1].minor)
  }

  /** No included image asks for more, and somebody asks for as much. */
  lemma {:induction false} MaxMinorIsLargest(n: nat, images: seq<Image>)
    ensures MaxMinor(n, images) >= n && forall i :: 0 <= i < |images| ==> MaxMinor(n, images) >= images[i].minor
    ensures MaxMinor(n, images) == n || exists i :: 0 <= i < |images| && MaxMinor(n, images) == images[i].minor
  {
    if images != [] {
      var k := |images| - 1;
      var init := images[..k];
      MaxMinorIsLargest(n, init);
      assert forall i :: 0 <= i < k ==> init[i] == images[i];
      if MaxMinor(n, images) != images[k].minor && MaxMinor(n, init) != n {
        var i :| 0 <= i < k && MaxMinor(n, init) == init[i].minor;
        assert images[i].minor == MaxMinor(n, images);
      }
    }
  }

  function AuxSize(descriptorsSize: nat): nat {
    RoundToMultiple(descriptorsSize, 64)
  }

  lemma AuxAligned(size: nat)
    ensures size <= AuxSize(size) && (HEADER_SIZE + AuxSize(size)) % 64 == 0
  {
  }

  function BlobHeader(args: Args, minor: nat, size: nat): Header {
    Header(1, minor, 0, AuxSize(size), 0, 0, 0, 0, 0, size, 0, size, 0, 0, size,
           args.rollbackIndex, args.flags, args.rollbackIndexLocation, Release(args))
  }

  predicate AllWF(lib: D.Hashes, ds: seq<D.Descriptor>) {
    forall i :: 0 <= i < |ds| ==> D.WF(lib, ds[i])
  }

  predicate BlobFits(lib: D.Hashes, args: Args, minor: nat, ds: seq<D.Descriptor>) {
    AllWF(lib, ds) && WF(BlobHeader(args, minor, |D.EncodeAll(lib, ds)|))
  }

  /** The descriptors padded to 64 bytes. */
  function AuxBlock(e: bytes): (r: bytes)
    ensures |r| == AuxSize(|e|)
  {
    AuxAligned(|e|);
    e + Zeros(AuxSize(|e|) - |e|)
  }

  /** Header, empty authentication block, auxiliary block. */
  function Blob(lib: D.Hashes, args: Args, minor: nat, ds: seq<D.Descriptor>): (r: bytes)
    requires BlobFits(lib, args, minor, ds)
    ensures |r| == HEADER_SIZE + AuxSize(|D.EncodeAll(lib, ds)|)
  {
    hide D.EncodeAll, WF, BlobHeader, EncodeHeader, RoundToMultiple, AuxSize, AuxBlock, D.WF;
    var e := D.EncodeAll(lib, ds);
    EncodeHeader(BlobHeader(args, minor, |e|)) + AuxBlock(e)
  }

  lemma BlobAligned(lib: D.Hashes, args: Args, minor: nat, ds: seq<D.Descriptor>)
    requires BlobFits(lib, args, minor, ds)
    ensures |Blob(lib, args, minor, ds)| % 64 == 0
  {
    hide D.EncodeAll, D.WF, WF, Blob, AuxSize;
    AuxAligned(|D.EncodeAll(lib, ds)|);
  }

  /** Both blocks are 64-aligned, and every offset and size pair lies inside the auxiliary block, none overlapping. */
  lemma BlobLayout(args: Args, minor: nat, size: nat)
    ensures var h := BlobHeader(args, minor, size);
            && h.authSize % 64 == 0 && h.auxSize % 64 == 0 && size <= h.auxSize < size + 64
            && h.descriptorsOffset + h.descriptorsSize <= h.publicKeyOffset
            && h.publicKeyOffset + h.publicKeySize <= h.metadataOffset
            && h.metadataOffset + h.metadataSize <= h.auxSize
            && h.hashOffset + h.hashSize <= h.signatureOffset
            && h.signatureOffset + h.signatureSize <= h.authSize
  {
  }

  /** Header and descriptors of the vbmeta struct at an offset of an image. */
  function ParseAt(lib: D.Hashes, content: bytes, off: nat): Result<(Header, seq<D.Descriptor>)> {
    var h :- ParseHeader(Slice(content, off, off + HEADER_SIZE));
    var at := off + HEADER_SIZE + h.authSize + h.descriptorsOffset;
    var ds :- D.Parse(lib, Slice(content, at, at + h.descriptorsSize));
    Ok((h, ds))
  }

  /** Nothing to read is no error: past the end every image holds a default header without descriptors. */
  lemma PastTheEnd(lib: D.Hashes, content: bytes, off: nat)
    requires off >= |content|
    ensures ParseAt(lib, content, off)
         == Ok((Header(1, 0, 0, 0, 0, 0, 0, 0, 0, 0, 0, 0, 0, 0, 0, 0, 0, 0, Chars("avbtool 1.3.0")), []))
  {
    assert DEFAULT_RELEASE == Chars("avbtool 1.3.0");
    assert Slice(content, off, off + HEADER_SIZE) == [];
    var at := off + HEADER_SIZE;
    assert Slice(content, at, at) == [];
  }

  /** Whatever image holds a generated blob at off, parsing there recovers its header and its descriptors. */
  lemma BlobParses(lib: D.Hashes, args: Args, minor: nat, ds: seq<D.Descriptor>, content: bytes, off: nat)
    requires BlobFits(lib, args, minor, ds)
    requires off + |Blob(lib, args, minor, ds)| <= |content|
    requires content[off..off + |Blob(lib, args, minor, ds)|] == Blob(lib, args, minor, ds)
    ensures ParseAt(lib, content, off) == Ok((BlobHeader(args, minor, |D.EncodeAll(lib, ds)|), ds))
  {
    hide D.EncodeAll, EncodeHeader, ParseHeader, D.Parse, Blob, WF, D.WF, Slice, Release, AuxSize, ParseAt,
      RoundToMultiple;
    var e := D.EncodeAll(lib, ds);
    var h := BlobHeader(args, minor, |e|);
    HeaderRoundTrip(h);
    D.ParseEncodeAll(lib, ds);
    BlobWindows(lib, args, minor, ds, content, off);
    ParseAtFrom(lib, content, off, h);
  }

  lemma ParseAtFrom(lib: D.Hashes, content: bytes, off: nat, h: Header)
    requires ParseHeader(Slice(content, off, off + HEADER_SIZE)) == Ok(h)
    requires h.authSize == 0 && h.descriptorsOffset == 0
    ensures ParseAt(lib, content, off)
         == WithHeader(h, D.Parse(lib, Slice(content, off + HEADER_SIZE, off + HEADER_SIZE + h.descriptorsSize)))
  {
    hide ParseHeader, D.Parse, Slice;
  }

  function WithHeader(h: Header, ds: Result<seq<D.Descriptor>>): Result<(Header, seq<D.Descriptor>)> {
    if ds.Err? then Err(ds.error) else Ok((h, ds.value))
  }

  lemma BlobWindows(lib: D.Hashes, args: Args, minor: nat, ds: seq<D.Descriptor>, content: bytes, off: nat)
    requires BlobFits(lib, args, minor, ds)
    requires off + |Blob(lib, args, minor, ds)| <= |content|
    requires content[off..off + |Blob(lib, args, minor, ds)|] == Blob(lib, args, minor, ds)
    ensures var e := D.EncodeAll(lib, ds);
            && Slice(content, off, off + HEADER_SIZE) == EncodeHeader(BlobHeader(args, minor, |e|))
            && Slice(content, off + HEADER_SIZE, off + HEADER_SIZE + |e|) == e
  {
    hide D.EncodeAll, EncodeHeader, WF, D.WF, BlobHeader;
    var e := D.EncodeAll(lib, ds);
    var h, z, blob := EncodeHeader(BlobHeader(args, minor, |e|)), Zeros(AuxSize(|e|) - |e|), Blob(lib, args, minor, ds);
    D.SliceOfWindow(content, off, blob, 0, HEADER_SIZE);
    D.SliceOfWindow(content, off, blob, HEADER_SIZE, HEADER_SIZE + |e|);
    D.Middle(h, e, z);
  }

  // ------------------------------------------------------------- _generate_vbmeta_blob

  lemma PropsStep(props: seq<bytes>, i: nat)
    requires i < |props|
    ensures PropDescriptors(props[i..])
            == if PropDescriptor(props[i]).Err? then Err(PropDescriptor(props[i]).error)
               else if PropDescriptors(props[i + 1..]).Err? then PropDescriptors(props[i + 1..])
               else Ok([PropDescriptor(props[i]).value] + PropDescriptors(props[i + 1..]).value)
  {
    assert props[i..][0] == props[i] && props[i..][1..] == props[i + 1..];
  }

  /** The loop over property strings; one without a colon is refused. */
  method AddProps(props: seq<bytes>) returns (r: Result<seq<D.Descriptor>>)
    ensures r == PropDescriptors(props)
  {
    hide PropDescriptor;
    var ds: seq<D.Descriptor> := [];
    assert props[0..] == props;
    D.AfterNothing(PropDescriptors(props));
    for i := 0 to |props|
      invariant D.After(ds, PropDescriptors(props[i..])) == PropDescriptors(props)
    {
      PropsStep(props, i);
      var d := PropDescriptor(props[i]);
      if d.Err? {
        return Err(d.error);
      }
      D.AfterStep(ds, d.value, PropDescriptors(props[i + 1..]));
      ds := ds + [d.value];
    }
    assert props[|props|..] == [];
    assert ds + [] == ds;
    return Ok(ds);
  }

  /**
    The blob built from arguments, own descriptors and included images, unless a property is malformed or something,
    be it in a descriptor that is replaced later, does not fit its field. Own descriptors are encoded first.
   */
  ghost function Generated(lib: D.Hashes, args: Args, descriptors: seq<D.Descriptor>, images: seq<Image>)
    : Result<bytes>
  {
    if !Merging.AllPackable(descriptors) then Err(StructError)
    else
      var ds :- AllDescriptors(args, descriptors, images);
      var minor := MaxMinor(args.minMinor, images);
      if Merging.AllPackable(AllIncluded(images)) && BlobFits(lib, args, minor, ds) then Ok(Blob(lib, args, minor, ds))
      else Err(StructError)
  }

  lemma GeneratedIsNotEmpty(lib: D.Hashes, args: Args, descriptors: seq<D.Descriptor>, images: seq<Image>)
    ensures var r := Generated(lib, args, descriptors, images); r.Ok? ==> |r.value| >= HEADER_SIZE
  {
    hide Merging.AllPackable, AllIncluded, AllDescriptors, MaxMinor, BlobFits, Blob, D.EncodeAll;
  }

  lemma GeneratedFrom(lib: D.Hashes, args: Args, descriptors: seq<D.Descriptor>, images: seq<Image>,
                      ds: seq<D.Descriptor>, minor: nat)
    requires Merging.AllPackable(descriptors) && Merging.AllPackable(AllIncluded(images))
    requires AllDescriptors(args, descriptors, images) == Ok(ds) && MaxMinor(args.minMinor, images) == minor
    requires BlobFits(lib, args, minor, ds)
    ensures Generated(lib, args, descriptors, images) == Ok(Blob(lib, args, minor, ds))
  {
    hide Merging.AllPackable, AllIncluded, AllDescriptors, MaxMinor, BlobFits, Blob;
  }

  /** What lies where in a blob: the header's fields, the descriptors right behind it, then NULs. */
  lemma BlobOctets(lib: D.Hashes, args: Args, minor: nat, ds: seq<D.Descriptor>)
    requires BlobFits(lib, args, minor, ds)
    ensures var blob, e := Blob(lib, args, minor, ds), D.EncodeAll(lib, ds);
            && |blob| % 64 == 0 && 256 + |e| <= |blob| < 256 + |e| + 64
            && blob[..4] == [0x41, 0x56, 0x42, 0x30] && blob[4..8] == BE(1, 4) && blob[8..12] == BE(minor, 4)
            && blob[12..20] == BE(0, 8) && blob[20..28] == BE(|blob| - 256, 8) && blob[28..32] == BE(0, 4)
            && blob[96..104] == BE(0, 8) && blob[104..112] == BE(|e|, 8)
            && blob[112..120] == BE(args.rollbackIndex, 8) && blob[120..124] == BE(args.flags, 4)
            && blob[124..128] == BE(args.rollbackIndexLocation, 4)
            && blob[256..256 + |e|] == e && blob[256 + |e|..] == Zeros(|blob| - 256 - |e|)
  {
    hide D.EncodeAll, D.WF, WF, EncodeHeader, BE, Release, AuxBlock, RoundToMultiple;
    var e := D.EncodeAll(lib, ds);
    var h, blob := BlobHeader(args, minor, |e|), Blob(lib, args, minor, ds);
    HeaderThenRest(EncodeHeader(h), AuxBlock(e), blob);
    hide Blob;
    HeaderOctets(h);
    BlobAligned(lib, args, minor, ds);
    AuxIs(e);
    FrontField(blob, 256, e, Zeros(AuxSize(|e|) - |e|));
  }

  lemma AuxIs(e: bytes)
    ensures |e| <= AuxSize(|e|) < |e| + 64 && AuxBlock(e) == e + Zeros(AuxSize(|e|) - |e|)
  {
  }

  lemma HeaderThenRest(h: bytes, aux: bytes, blob: bytes)
    requires |h| == 256 && blob == h + aux
    ensures blob[256..] == aux && forall i, j :: 0 <= i <= j <= 256 ==> blob[i..j] == h[i..j]
  {
    forall i, j | 0 <= i <= j <= 256 ensures blob[i..j] == h[i..j] {
      SubSlice(blob, 0, 256, i, j);
    }
  }

  /** Whether descriptor d is the property of a text with its first colon between key and value. */
  predicate IsProp(d: D.Descriptor, text: bytes) {
    d.Property? && 58 !in d.key && text == d.key + ([58] + d.value)
  }

  lemma {:induction false} PropAt(props: seq<bytes>, i: nat)
    requires PropDescriptors(props).Ok? && i < |props|
    ensures |PropDescriptors(props).value| == |props| && IsProp(PropDescriptors(props).value[i], props[i])
  {
    hide IsProp, PropDescriptors;
    PropCount(props);
    PropFirst(props);
    if i > 0 {
      PropAt(props[1..], i - 1);
    }
  }

  lemma PropFirst(props: seq<bytes>)
    requires PropDescriptors(props).Ok? && props != []
    ensures PropDescriptors(props[1..]).Ok?
    ensures var ds := PropDescriptors(props).value;
            ds != [] && IsProp(ds[0], props[0]) && ds[1..] == PropDescriptors(props[1..]).value
  {
    hide PropDescriptor, IsProp;
    PropIs(props[0]);
  }

  lemma PropIs(prop: bytes)
    requires PropDescriptor(prop).Ok?
    ensures IsProp(PropDescriptor(prop).value, prop)
  {
    var k := Find(prop, COLON).value;
    assert prop == prop[..k] + ([COLON] + prop[k + 1..]);
  }

  lemma {:induction false} PropCount(props: seq<bytes>)
    requires PropDescriptors(props).Ok?
    ensures |PropDescriptors(props).value| == |props|
  {
    if props != [] {
      PropCount(props[1..]);
    }
  }

  /**
    What is found in a generated blob, wherever it lies: the descriptors given, the properties, the kernel command
    lines, and what is included, in this order, behind a header with the values asked for.
   */
  lemma GeneratedContents(lib: D.Hashes, args: Args, descriptors: seq<D.Descriptor>, images: seq<Image>,
                          content: bytes, off: nat)
    requires Generated(lib, args, descriptors, images).Ok?
    requires var blob := Generated(lib, args, descriptors, images).value;
             off + |blob| <= |content| && content[off..off + |blob|] == blob
    ensures ParseAt(lib, content, off).Ok?
    ensures var (h, ds) := ParseAt(lib, content, off).value;
            var n, m, k := |descriptors|, |args.props|, |args.cmdlines|;
            && n + m + k <= |ds| && ds[..n] == descriptors
            && (forall i :: 0 <= i < m ==> IsProp(ds[n + i], args.props[i]))
            && (forall i :: 0 <= i < k ==> ds[n + m + i] == D.KernelCmdline(0, args.cmdlines[i]))
            && ds[n + m + k..] == Merging.Included(AllIncluded(images))
            && h.major == 1 && h.algorithm == 0 && h.rollbackIndex == args.rollbackIndex && h.flags == args.flags
            && h.rollbackIndexLocation == args.rollbackIndexLocation
            && h.release == (if args.release.Some? then args.release.value
                             else [97, 118, 98, 116, 111, 111, 108, 32, 49, 46, 51, 46, 48])
                            + (if args.appendRelease.Some? then [32] + args.appendRelease.value else [])
            && h.minor >= args.minMinor && (forall i :: 0 <= i < |images| ==> h.minor >= images[i].minor)
            && (h.minor == args.minMinor || exists i :: 0 <= i < |images| && h.minor == images[i].minor)
  {
    hide Merging.Included, AllIncluded, MaxMinor, BlobFits, Blob, ParseAt, D.EncodeAll, D.WF, Merging.AllPackable,
      EncodeHeader, RoundToMultiple, PropDescriptors;
    var ds, minor := AllDescriptors(args, descriptors, images).value, MaxMinor(args.minMinor, images);
    FitsPackable(lib, args, minor, ds);
    BlobParses(lib, args, minor, ds, content, off);
    MaxMinorIsLargest(args.minMinor, images);
    var props, lines := PropDescriptors(args.props).value, CmdlineDescriptors(args.cmdlines);
    PropCount(args.props);
    var n, m := |descriptors|, |props|;
    FourParts(descriptors, props, lines, Merging.Included(AllIncluded(images)));
    forall i | 0 <= i < m ensures IsProp(ds[n + i], args.props[i]) {
      PropAt(args.props, i);
      assert ds[n + i] == ds[n..n + m][i] == props[i];
    }
    forall i | 0 <= i < |lines| ensures ds[n + m + i] == D.KernelCmdline(0, args.cmdlines[i]) {
      assert ds[n + m + i] == ds[n + m..n + m + |lines|][i] == lines[i];
    }
  }

  lemma FourParts<T>(a: seq<T>, b: seq<T>, c: seq<T>, d: seq<T>)
    ensures var s := a + b + c + d;
            && s[..|a|] == a && s[|a|..|a| + |b|] == b && s[|a| + |b|..|a| + |b| + |c|] == c
            && s[|a| + |b| + |c|..] == d
  {
  }

  /** Nothing but what is included from images. */
  predicate JustIncluded(args: Args) {
    args.props == [] && args.cmdlines == []
  }

  lemma JustIncludes(args: Args, images: seq<Image>)
    requires JustIncluded(args)
    ensures AllDescriptors(args, [], images) == Ok(Merging.Included(AllIncluded(images)))
  {
    hide Merging.Included, AllIncluded;
    assert CmdlineDescriptors([]) == [];
    assert [] + [] + [] + Merging.Included(AllIncluded(images)) == Merging.Included(AllIncluded(images));
  }

  lemma OneImage(image: Image, n: nat)
    ensures AllIncluded([image]) == image.descriptors && MaxMinor(n, [image]) == Max(n, image.minor)
  {
    var parts := DescriptorsOf([image]);
    assert parts == [image.descriptors];
    assert parts[..0] == [] && [image][..0] == [];
    assert Merging.Flatten(parts[..0]) == [];
    assert Merging.Flatten(parts) == [] + image.descriptors;
  }

  /** Building again from just the result, wherever it lies, gives the same blob. */
  lemma GeneratedAgain(lib: D.Hashes, args: Args, images: seq<Image>, content: bytes, off: nat)
    requires JustIncluded(args) && Generated(lib, args, [], images).Ok?
    requires var blob := Generated(lib, args, [], images).value;
             off + |blob| <= |content| && content[off..off + |blob|] == blob
    ensures ParseAt(lib, content, off).Ok?
    ensures var (h, ds) := ParseAt(lib, content, off).value;
            && h.minor == MaxMinor(args.minMinor, images)
            && Generated(lib, args, [], [Image(h.minor, ds)]) == Generated(lib, args, [], images)
  {
    hide Merging.Included, AllIncluded, AllDescriptors, MaxMinor, BlobFits, Blob, ParseAt, BlobHeader, D.EncodeAll,
      D.WF, Merging.AllPackable, EncodeHeader, RoundToMultiple;
    var ds, minor := Merging.Included(AllIncluded(images)), MaxMinor(args.minMinor, images);
    JustIncludes(args, images);
    FitsPackable(lib, args, minor, ds);
    BlobParses(lib, args, minor, ds, content, off);
    HeaderMinor(args, minor, |D.EncodeAll(lib, ds)|);
    var image := Image(minor, ds);
    OneImage(image, args.minMinor);
    MaxMinorIsLargest(args.minMinor, images);
    JustIncludes(args, [image]);
    Merging.IncludedIdempotent(AllIncluded(images));
    NothingPackable();
    GeneratedFrom(lib, args, [], [image], ds, minor);
  }

  lemma HeaderMinor(args: Args, minor: nat, size: nat)
    ensures BlobHeader(args, minor, size).minor == minor
  {
  }

  lemma FitsPackable(lib: D.Hashes, args: Args, minor: nat, ds: seq<D.Descriptor>)
    requires BlobFits(lib, args, minor, ds)
    ensures AllWF(lib, ds) && Merging.AllPackable(ds)
  {
    hide D.Legible, D.Packable, WF, D.EncodeAll;
    forall k | 0 <= k < |ds| ensures D.Packable(ds[k]) {
      assert D.WF(lib, ds[k]);
    }
  }

  lemma NothingPackable()
    ensures Merging.AllPackable([])
  {
  }

  /** All text given is text; only numbers and lengths may be too large. */
  ghost predicate Legible(lib: D.Hashes, args: Args, descriptors: seq<D.Descriptor>, images: seq<Image>) {
    && WFRelease(Release(args))
    && AllLegible(lib, descriptors) && AllLegible(lib, AllIncluded(images))
    && AllLegible(lib, CmdlineDescriptors(args.cmdlines))
    && (PropDescriptors(args.props).Ok? ==> AllLegible(lib, PropDescriptors(args.props).value))
  }

  predicate AllLegible(lib: D.Hashes, ds: seq<D.Descriptor>) {
    forall i :: 0 <= i < |ds| ==> D.Legible(lib, ds[i])
  }

  lemma {:induction false} PropsPackable(props: seq<bytes>)
    requires PropDescriptors(props).Ok?
    ensures Merging.AllPackable(PropDescriptors(props).value)
  {
    hide D.Packable;
    if props != [] {
      PropsPackable(props[1..]);
    }
  }

  lemma AllConcat(lib: D.Hashes, a: seq<D.Descriptor>, b: seq<D.Descriptor>)
    ensures AllLegible(lib, a + b) <==> AllLegible(lib, a) && AllLegible(lib, b)
    ensures Merging.AllPackable(a + b) <==> Merging.AllPackable(a) && Merging.AllPackable(b)
  {
    hide D.Legible, D.Packable;
    var c := a + b;
    assert forall i :: 0 <= i < |a| ==> c[i] == a[i];
    assert forall i :: 0 <= i < |b| ==> c[|a| + i] == b[i];
  }

  /** What is included is legible and packable when everything met is. */
  lemma IncludedParts(lib: D.Hashes, ds: seq<D.Descriptor>)
    ensures AllLegible(lib, ds) ==> AllLegible(lib, Merging.Included(ds))
    ensures Merging.AllPackable(ds) ==> Merging.AllPackable(Merging.Included(ds))
  {
    hide D.Legible, D.Packable, Merging.Included;
    Merging.IncludedWereMet(ds);
    var r := Merging.Included(ds);
    forall i | 0 <= i < |r| ensures exists j :: 0 <= j < |ds| && ds[j] == r[i] {
      assert r[i] in ds;
    }
  }

  /** All descriptors of the blob, given that properties are well-formed. */
  lemma PartsOfAll(lib: D.Hashes, args: Args, descriptors: seq<D.Descriptor>, images: seq<Image>)
    requires Legible(lib, args, descriptors, images) && Merging.AllPackable(descriptors)
    requires PropDescriptors(args.props).Ok?
    ensures AllDescriptors(args, descriptors, images).Ok?
    ensures var all := AllDescriptors(args, descriptors, images).value;
            && all == descriptors + PropDescriptors(args.props).value + CmdlineDescriptors(args.cmdlines)
                      + Merging.Included(AllIncluded(images))
            && AllLegible(lib, all)
            && (Merging.AllPackable(CmdlineDescriptors(args.cmdlines)) && Merging.AllPackable(AllIncluded(images)) ==>
                  Merging.AllPackable(all))
            && (!Merging.AllPackable(CmdlineDescriptors(args.cmdlines)) ==> !Merging.AllPackable(all))
  {
    hide AllLegible, Merging.AllPackable, Merging.Included, AllIncluded, CmdlineDescriptors, PropDescriptors, WFRelease;
    var a, b, c := descriptors, PropDescriptors(args.props).value, CmdlineDescriptors(args.cmdlines);
    var i := AllIncluded(images);
    PropsPackable(args.props);
    IncludedParts(lib, i);
    AllConcat(lib, a, b);
    AllConcat(lib, a + b, c);
    AllConcat(lib, a + b + c, Merging.Included(i));
  }

  lemma AllWFIff(lib: D.Hashes, ds: seq<D.Descriptor>)
    requires AllLegible(lib, ds)
    ensures AllWF(lib, ds) <==> Merging.AllPackable(ds)
  {
    hide D.Legible, D.Packable;
  }

  /** The loop over included images that raises the required minor version. */
  method MinorLoop(minMinor: nat, images: seq<Image>) returns (minor: nat)
    ensures minor == MaxMinor(minMinor, images)
  {
    minor := minMinor;
    for i := 0 to |images|
      invariant minor == MaxMinor(minMinor, images[..i])
    {
      assert images[..i + 1][..i] == images[..i];
      minor := Max(minor, images[i].minor);
    }
    assert images[..|images|] == images;
  }

  /** All descriptors of the blob in order; the first that cannot be made or encoded ends it. */
  method Collect(lib: D.Hashes, args: Args, descriptors: seq<D.Descriptor>, images: seq<Image>)
    returns (r: Result<seq<D.Descriptor>>)
    requires Legible(lib, args, descriptors, images)
    ensures r.Ok? ==>
              && Merging.AllPackable(descriptors) && Merging.AllPackable(AllIncluded(images))
              && AllDescriptors(args, descriptors, images) == r && AllWF(lib, r.value)
    ensures r.Err? ==> Generated(lib, args, descriptors, images) == Err(r.error)
  {
    hide AllLegible, Merging.AllPackable, AllIncluded, CmdlineDescriptors, PropDescriptors, WFRelease, AllWF,
      Blob, Merging.MergedOf, Merging.Others, Merging.MergeMap, WF, BlobHeader, D.EncodeAll;
    var own := AllFit(descriptors);
    if !own {
      return Err(StructError);
    }
    var props := AddProps(args.props);
    if props.Err? {
      return Err(props.error);
    }
    PartsOfAll(lib, args, descriptors, images);
    AllWFIff(lib, AllDescriptors(args, descriptors, images).value);
    var cmdlines := AllFit(CmdlineDescriptors(args.cmdlines));
    if !cmdlines {
      return Err(StructError);
    }
    var included, others, dict := Merging.MergeLoop(DescriptorsOf(images));
    assert AllIncluded(images) == Merging.Flatten(DescriptorsOf(images)) by { IncludedAre(images); }
    if included.Err? {
      return Err(StructError);
    }
    var merged := Merging.SortedValues(dict);
    return Ok(descriptors + props.value + CmdlineDescriptors(args.cmdlines) + (others + merged));
  }

  lemma IncludedAre(images: seq<Image>)
    ensures AllIncluded(images) == Merging.Flatten(DescriptorsOf(images))
  {
  }

  /** struct.pack accepts the fields of each descriptor. */
  method AllFit(ds: seq<D.Descriptor>) returns (ok: bool)
    ensures ok <==> Merging.AllPackable(ds)
  {
    hide D.Packable;
    for i := 0 to |ds|
      invariant forall k :: 0 <= k < i ==> D.Packable(ds[k])
    {
      if !D.Packable(ds[i]) {
        return false;
      }
    }
    return true;
  }

  /** Builds the blob from arguments, own descriptors and the descriptors of included images. */
  method GenerateVbmetaBlob(lib: D.Hashes, args: Args, descriptors: seq<D.Descriptor>, images: seq<Image>)
    returns (r: Result<bytes>)
    requires Legible(lib, args, descriptors, images)
    ensures r == Generated(lib, args, descriptors, images)
  {
    hide AllWF, D.EncodeAll, AllDescriptors, WFRelease, Release, EncodeHeader, Merging.AllPackable, AllIncluded,
      CmdlineDescriptors, AllLegible, PropDescriptors;
    var all := Collect(lib, args, descriptors, images);
    if all.Err? {
      return Err(all.error);
    }
    var minor := MinorLoop(args.minMinor, images);
    var encoded := EncodeLoop(lib, all.value);
    var h := BlobHeader(args, minor, |encoded|);
    if !WF(h) {
      return Err(StructError);
    }
    return Ok(EncodeHeader(h) + (encoded + Zeros(h.auxSize - |encoded|)));
  }

  /** encoded_descriptors.extend(desc.encode()) */
  method EncodeLoop(lib: D.Hashes, ds: seq<D.Descriptor>) returns (r: bytes)
    requires AllWF(lib, ds)
    ensures r == D.EncodeAll(lib, ds)
  {
    hide D.WF, D.Encode;
    r := [];
    assert ds[0..] == ds;
    for i := 0 to |ds|
      invariant r + D.EncodeAll(lib, ds[i..]) == D.EncodeAll(lib, ds)
    {
      assert ds[i..][0] == ds[i] && ds[i..][1..] == ds[i + 1..];
      Assoc(r, D.Encode(lib, ds[i]), D.EncodeAll(lib, ds[i + 1..]));
      r := r + D.Encode(lib, ds[i]);
    }
    assert r + [] == r;
  }
}
