/** Blobs that add_hash_footer does not refuse although the partition has no room for them, and what becomes of them. */
module OversizedBlob {
  import opened Bytes
  import D = Descriptors
  import VbMeta
  import opened Footers
  import HashFooter
  import opened PackBoot

  function BlobArgs(props: seq<bytes>): VbMeta.Args {
    DEFAULTS.(props := props)
  }

  function ArgsFor(props: seq<bytes>, partitionSize: nat, salt: bytes): HashFooter.Args {
    FooterArgs(BOOT, partitionSize, salt).(blob := BlobArgs(props))
  }

  /** Content with just the reserved space behind it. */
  predicate Tight(c: bytes, partitionSize: nat) {
    FooterOf(c).None? && |c| + MAX_METADATA_SIZE == partitionSize < U64 && partitionSize % BS == 0
  }

  /** Properties whose encodings reach into the last block of such an image, but not to the footer in it. */
  predicate Oversized(lib: D.Hashes, props: seq<bytes>, ps: seq<D.Descriptor>) {
    VbMeta.PropDescriptors(props) == Ok(ps) && VbMeta.AllWF(lib, ps) && 65080 < |D.EncodeAll(lib, ps)| <= 69112
  }

  /** What is left of their encodings. */
  function Cut(e: bytes): (r: bytes)
    requires |e| > 65080
    ensures |r| == |e|
  {
    e[..65080] + Zeros(|e| - 65080)
  }

  // ------------------------------------------------------------- the blob

  lemma HeaderWF(props: seq<bytes>, size: nat)
    requires size <= 70000
    ensures VbMeta.WF(VbMeta.BlobHeader(BlobArgs(props), 0, size))
  {
    SmallHeaderWF(0);
  }

  /** The encodings are those of hash descriptor d and the properties. */
  lemma EncodedIs(lib: D.Hashes, d: D.Descriptor, ps: seq<D.Descriptor>)
    requires Sha(lib) && RecipeHash(d) && VbMeta.AllWF(lib, ps)
    ensures D.WF(lib, d) && |D.Encode(lib, d)| == 200 && VbMeta.AllWF(lib, [d] + ps)
    ensures D.EncodeAll(lib, [d] + ps) == D.Encode(lib, d) + D.EncodeAll(lib, ps)
  {
    HashIsWF(lib, d);
    hide D.WF, D.Encode, Sha, RecipeHash;
    var all := [d] + ps;
    assert all[1..] == ps;
    assert forall i :: 1 <= i < |all| ==> all[i] == ps[i - 1];
  }

  lemma BlobIs(lib: D.Hashes, d: D.Descriptor, props: seq<bytes>, ps: seq<D.Descriptor>)
    requires Sha(lib) && RecipeHash(d) && Oversized(lib, props, ps)
    ensures VbMeta.BlobFits(lib, BlobArgs(props), 0, [d] + ps)
    ensures |VbMeta.Blob(lib, BlobArgs(props), 0, [d] + ps)| > 65536
  {
    hide D.WF, D.Encode, D.EncodeAll, VbMeta.WF, VbMeta.Blob, Sha, RecipeHash, VbMeta.BlobHeader,
      VbMeta.PropDescriptors;
    EncodedIs(lib, d, ps);
    HeaderWF(props, |D.EncodeAll(lib, [d] + ps)|);
  }

  lemma BlobForIs(lib: D.Hashes, c: bytes, partitionSize: nat, salt: bytes, props: seq<bytes>, ps: seq<D.Descriptor>)
    requires Sha(lib) && |salt| == 32 && ContentFits(c, partitionSize) && Oversized(lib, props, ps)
    ensures var a, s := ArgsFor(props, partitionSize, salt), Stripped(c);
            var d := Described(lib, BOOT, partitionSize, salt, c);
            && RecipeHash(d) && VbMeta.BlobFits(lib, BlobArgs(props), 0, [d] + ps)
            && HashFooter.BlobArgs(a) == BlobArgs(props) && HashFooter.Minor(a) == 0
            && HashFooter.BlobDescriptors(lib, a, s) == Ok([d] + ps)
            && HashFooter.BlobFor(lib, a, s) == Ok(VbMeta.Blob(lib, BlobArgs(props), 0, [d] + ps))
  {
    hide VbMeta.BlobFits, VbMeta.Blob, D.Encode, Stripped, D.WF, Sha, VbMeta.Generated, VbMeta.AllIncluded, ContentFits,
      VbMeta.PropDescriptors, D.EncodeAll;
    var d := Described(lib, BOOT, partitionSize, salt, c);
    DescribedFields(lib, BOOT, partitionSize, salt, c);
    BlobIs(lib, d, props, ps);
    NothingMet();
    NothingIncluded();
    assert VbMeta.CmdlineDescriptors([]) == [];
    assert [d] + ps + [] + [] == [d] + ps;
    VbMeta.GeneratedFrom(lib, BlobArgs(props), [d], [], [d] + ps, 0);
  }

  // ------------------------------------------------------------- the finished image

  lemma Places(c: bytes, partitionSize: nat)
    requires Tight(c, partitionSize)
    ensures Stripped(c) == c && ContentFits(c, partitionSize)
    ensures |c| + MAX_METADATA_SIZE == partitionSize < U64 && partitionSize % BS == 0
    ensures RoundToMultiple(|c|, BS) == |c| && InFront(c, BS, partitionSize) == 65536
  {
    hide FooterOf;
  }

  lemma Adds(lib: D.Hashes, c: bytes, partitionSize: nat, salt: bytes, props: seq<bytes>, ps: seq<D.Descriptor>)
    requires Sha(lib) && |salt| == 32 && Tight(c, partitionSize) && Oversized(lib, props, ps)
    ensures var a := ArgsFor(props, partitionSize, salt);
            HashFooter.Add(lib, a, c, BS).Ok? && HashFooter.BlobFor(lib, a, c).Ok?
            && !HashFooter.BlobFitsPartition(lib, a, c, BS) && a.partitionSize == partitionSize
  {
    hide Described, VbMeta.BlobFits, VbMeta.Blob, HashFooter.BlobFor, D.EncodeAll, D.WF, Stripped, FooterOf, WithFooter,
      RoundToMultiple, Sha, ContentFits, RecipeHash, Oversized, Tight;
    ShaKnown(lib);
    Places(c, partitionSize);
    BlobForIs(lib, c, partitionSize, salt, props, ps);
    BlobIs(lib, Described(lib, BOOT, partitionSize, salt, c), props, ps);
    FitsIff(c, HashFooter.BlobFor(lib, ArgsFor(props, partitionSize, salt), c).value, BS, partitionSize);
    HugeSizes(lib, c, partitionSize, salt, props, ps);
  }

  lemma HugeSizes(lib: D.Hashes, c: bytes, partitionSize: nat, salt: bytes, props: seq<bytes>, ps: seq<D.Descriptor>)
    requires Sha(lib) && |salt| == 32 && ContentFits(c, partitionSize) && Oversized(lib, props, ps)
    ensures var blob := HashFooter.BlobFor(lib, ArgsFor(props, partitionSize, salt), Stripped(c));
            blob.Ok? && |blob.value| < 100000
  {
    hide VbMeta.BlobFits, HashFooter.BlobFor, D.EncodeAll, D.Encode, D.WF, Stripped, Sha, ContentFits, RecipeHash,
      Described, VbMeta.PropDescriptors;
    BlobForIs(lib, c, partitionSize, salt, props, ps);
    EncodedIs(lib, Described(lib, BOOT, partitionSize, salt, c), ps);
  }

  /** The descriptor area found: from the last block on it is NULs. */
  lemma AreaIs(lib: D.Hashes, d: D.Descriptor, ps: seq<D.Descriptor>, f: Footer)
    requires Sha(lib) && RecipeHash(d) && WF(f)
    requires VbMeta.AllWF(lib, ps) && 65080 < |D.EncodeAll(lib, ps)| <= 69112
    ensures D.WF(lib, d) && VbMeta.AllWF(lib, [d] + ps)
    ensures Overlaid(D.EncodeAll(lib, [d] + ps), 65280, FooterBlock(f, BS))
         == D.Encode(lib, d) + Cut(D.EncodeAll(lib, ps))
  {
    hide D.WF, D.Encode, D.EncodeAll, Sha, RecipeHash, FooterBlock, Overlaid, WF;
    EncodedIs(lib, d, ps);
    BlockStarts(f, |D.EncodeAll(lib, ps)| - 65080);
    OverlaidPair(D.Encode(lib, d), D.EncodeAll(lib, ps), FooterBlock(f, BS));
  }

  lemma BlockStarts(f: Footer, n: nat)
    requires WF(f) && n <= BS - SIZE
    ensures FooterBlock(f, BS)[..n] == Zeros(n)
  {
  }

  lemma OverlaidPair(x: bytes, e: bytes, block: bytes)
    requires |x| == 200 && 65080 < |e| <= 69112 && |block| == BS
    requires block[..|e| - 65080] == Zeros(|e| - 65080)
    ensures Overlaid(x + e, 65280, block) == x + Cut(e)
  {
    var n := |e| - 65080;
    assert (x + e)[..65280] == x + e[..65080];
    assert Slice(block, 0, n) == Zeros(n);
    Assoc(x, e[..65080], Zeros(n));
  }

  /**
    For every content that leaves just the reserved space, plain files included: adding a hash footer with oversized
    properties succeeds although the blob does not fit. What is then parsed has NULs where they reach into the last
    block.
   */
  lemma AddedOversized(lib: D.Hashes, c: bytes, partitionSize: nat, salt: bytes, props: seq<bytes>,
                       ps: seq<D.Descriptor>)
    requires Sha(lib) && |salt| == 32 && Tight(c, partitionSize) && Oversized(lib, props, ps)
    ensures var a, d := ArgsFor(props, partitionSize, salt), Described(lib, BOOT, partitionSize, salt, c);
            var added, blob := HashFooter.Add(lib, a, c, BS), HashFooter.BlobFor(lib, a, c);
            && added.Ok? && blob.Ok? && !HashFooter.BlobFitsPartition(lib, a, c, BS) && D.WF(lib, d)
            && HashFooter.BlobDescriptors(lib, a, c) == Ok([d] + ps)
            && var found := D.Parse(lib, D.Encode(lib, d) + Cut(D.EncodeAll(lib, ps)));
               var h := VbMeta.BlobHeader(BlobArgs(props), 0, 200 + |D.EncodeAll(lib, ps)|);
               && ParseImage(lib, added.value)
                  == (if found.Ok? then Ok((Some(FooterFor(|c|, |c|, blob.value, BS)), h, found.value))
                      else Err(found.error))
               && EraseFooter(lib, added.value) == if found.Ok? then Ok(c) else Err(found.error)
  {
    hide Sha, Described, VbMeta.BlobFits, VbMeta.Blob, HashFooter.BlobFor, HashFooter.BlobDescriptors, D.EncodeAll,
      D.WF, D.Encode, Stripped, FooterOf, InFront, ParseImage, D.Parse, FooterBlock, Overlaid, VbMeta.BlobHeader,
      RoundToMultiple, Tight, HashFooter.Add, ContentFits, RecipeHash, EraseFooter, FooterFor, WF, BlobArgs, Cut,
      VbMeta.PropDescriptors;
    var a, d := ArgsFor(props, partitionSize, salt), Described(lib, BOOT, partitionSize, salt, c);
    Places(c, partitionSize);
    BlobForIs(lib, c, partitionSize, salt, props, ps);
    EncodedIs(lib, d, ps);
    Adds(lib, c, partitionSize, salt, props, ps);
    HashFooter.AddedIs(lib, a, c, BS);
    HashFooter.AddedParsesAs(lib, a, c, BS);
    AreaIs(lib, d, ps, FooterFor(|c|, |c|, HashFooter.BlobFor(lib, a, c).value, BS));
  }

  // ------------------------------------------------------------- two inputs

  function Letters(n: nat): (r: bytes)
    ensures |r| == n
  {
    seq(n, _ => 65)
  }

  /** 'k' and 'l' */
  const KEY: bytes := [107]
  const NEXT: bytes := [108]

  function Prop(key: bytes, value: bytes): bytes {
    key + [VbMeta.COLON] + value
  }

  lemma PropParses(key: bytes, value: bytes)
    requires (key == KEY || key == NEXT) && |value| < 70000
    ensures VbMeta.PropDescriptor(Prop(key, value)) == Ok(D.Property(key, value))
  {
    var prop := Prop(key, value);
    FindSecond(prop);
    assert prop[..1] == key && prop[1 + 1..] == value;
  }

  lemma FindSecond(s: bytes)
    requires |s| > 1 && s[0] != VbMeta.COLON && s[1] == VbMeta.COLON
    ensures Find(s, VbMeta.COLON) == Some(1)
  {
    assert s[1..][0] == VbMeta.COLON;
  }

  lemma PropIsWF(lib: D.Hashes, key: bytes, value: bytes)
    requires (key == KEY || key == NEXT) && |value| < 70000
    ensures var p := D.Property(key, value);
            D.WF(lib, p) && |D.Encode(lib, p)| == 16 + RoundToMultiple(|value| + 19, 8)
  {
    AsciiUtf8(key);
  }

  lemma Sizes()
    ensures RoundToMultiple(65064, 8) == 65064 && RoundToMultiple(19, 8) == 24 && RoundToMultiple(65619, 8) == 65624
  {
  }

  lemma PropEncodes(lib: D.Hashes, key: bytes, value: bytes)
    requires (key == KEY || key == NEXT) && |value| < 70000
    ensures var p := D.Property(key, value);
            && D.WF(lib, p) && |D.EncodeHeader(lib, p)| == 32
            && D.Encode(lib, p) == D.EncodeHeader(lib, p)
                                   + ((key + ([0] + (value + [0])))
                                      + Zeros(RoundToMultiple(|value| + 19, 8) - |value| - 19))
  {
    PropIsWF(lib, key, value);
    hide D.WF, D.EncodeHeader;
  }

  /** The header of a property only knows the sizes. */
  lemma SameHeader(lib: D.Hashes, v: bytes, w: bytes)
    requires |v| == |w| < 70000
    ensures D.WF(lib, D.Property(KEY, v)) && D.WF(lib, D.Property(KEY, w))
    ensures D.EncodeHeader(lib, D.Property(KEY, v)) == D.EncodeHeader(lib, D.Property(KEY, w))
  {
    PropIsWF(lib, KEY, v);
    PropIsWF(lib, KEY, w);
  }

  // ------------------------------------------------------------- a property loses its end

  /** One property of 65600 letters, of which 65046 lie in front of the last block. */
  const LONG := D.Property(KEY, Letters(65600))
  const SPOILED := D.Property(KEY, Letters(65046) + Zeros(554))
  const LONG_PROPS: seq<bytes> := [Prop(KEY, Letters(65600))]

  lemma PaddedText(h: bytes, v: bytes)
    ensures h + ((KEY + ([0] + (v + [0]))) + Zeros(5)) == (h + KEY + [0]) + (v + Zeros(6))
  {
    assert [0] + Zeros(5) == Zeros(6);
    assert h + ((KEY + ([0] + (v + [0]))) + Zeros(5)) == (h + KEY + [0]) + (v + ([0] + Zeros(5)));
  }

  lemma CutText(a: bytes, v: bytes)
    requires |a| == 34 && v == Letters(65600)
    ensures a + ((Letters(65046) + Zeros(554)) + Zeros(6)) == Cut(a + (v + Zeros(6)))
  {
    var e := a + (v + Zeros(6));
    assert v[..65046] == Letters(65046);
    assert e[..65080] == a + v[..65046];
    assert Zeros(554) + Zeros(6) == Zeros(560);
    Assoc(Letters(65046), Zeros(554), Zeros(6));
    Assoc(a, Letters(65046), Zeros(560));
  }

  lemma LongIsCut(lib: D.Hashes)
    ensures D.WF(lib, LONG) && D.WF(lib, SPOILED) && |D.Encode(lib, LONG)| == 65640
    ensures Cut(D.Encode(lib, LONG)) == D.Encode(lib, SPOILED)
  {
    hide D.EncodeHeader, D.Encode, D.WF, Cut, Letters, RoundToMultiple;
    Sizes();
    PropEncodes(lib, KEY, LONG.value);
    PropEncodes(lib, KEY, SPOILED.value);
    SameHeader(lib, LONG.value, SPOILED.value);
    var h := D.EncodeHeader(lib, LONG);
    PaddedText(h, LONG.value);
    PaddedText(h, SPOILED.value);
    CutText(h + KEY + [0], LONG.value);
  }

  lemma LongIsOversized(lib: D.Hashes)
    ensures Oversized(lib, LONG_PROPS, [LONG])
  {
    hide D.WF, D.Encode, Letters, Prop;
    LongIsCut(lib);
    EncodeOne(lib, LONG);
    PropParses(KEY, LONG.value);
    assert LONG_PROPS[1..] == [] && VbMeta.PropDescriptors([]) == Ok([]);
    assert [LONG] + [] == [LONG];
  }

  lemma ValuesDiffer()
    ensures SPOILED != LONG
  {
    assert LONG.value[65046] == 65 && SPOILED.value[65046] == 0;
  }

  /** The image parses, but its property ends in NULs; erasing the footer still restores the content. */
  lemma PropertyIsOverwritten(lib: D.Hashes, c: bytes, partitionSize: nat, salt: bytes)
    requires Sha(lib) && |salt| == 32 && Tight(c, partitionSize)
    ensures var a, d := ArgsFor(LONG_PROPS, partitionSize, salt), Described(lib, BOOT, partitionSize, salt, c);
            var added, blob := HashFooter.Add(lib, a, c, BS), HashFooter.BlobFor(lib, a, c);
            && added.Ok? && blob.Ok? && !HashFooter.BlobFitsPartition(lib, a, c, BS)
            && HashFooter.BlobDescriptors(lib, a, c) == Ok([d] + [LONG])
            && ParseImage(lib, added.value)
               == Ok((Some(FooterFor(|c|, |c|, blob.value, BS)), VbMeta.BlobHeader(BlobArgs(LONG_PROPS), 0, 65840),
                      [d] + [SPOILED]))
            && SPOILED != LONG && EraseFooter(lib, added.value) == Ok(c)
  {
    hide Sha, Described, HashFooter.BlobFor, HashFooter.BlobDescriptors, D.EncodeAll, D.WF, D.Encode, FooterOf,
      ParseImage, D.Parse, VbMeta.BlobHeader, Tight, HashFooter.Add, EraseFooter, FooterFor, BlobArgs, Cut,
      HashFooter.BlobFitsPartition, Oversized, Letters, Prop, RecipeHash;
    var d := Described(lib, BOOT, partitionSize, salt, c);
    LongIsOversized(lib);
    LongIsCut(lib);
    ValuesDiffer();
    EncodeOne(lib, LONG);
    AddedOversized(lib, c, partitionSize, salt, LONG_PROPS, [LONG]);
    SpoiledParses(lib, d);
  }

  lemma SpoiledParses(lib: D.Hashes, d: D.Descriptor)
    requires D.WF(lib, d)
    ensures D.WF(lib, SPOILED) && D.Parse(lib, D.Encode(lib, d) + D.Encode(lib, SPOILED)) == Ok([d] + [SPOILED])
  {
    LongIsCut(lib);
    hide D.WF, D.Encode, D.Parse, Letters;
    EncodeTwo(lib, d, SPOILED);
    D.ParseEncodeAll(lib, [d, SPOILED]);
    assert [d] + [SPOILED] == [d, SPOILED];
  }

  /** So the blob is not found where the footer says. */
  lemma BlobIsLost(lib: D.Hashes, c: bytes, partitionSize: nat, salt: bytes)
    requires Sha(lib) && |salt| == 32 && Tight(c, partitionSize)
    ensures var a := ArgsFor(LONG_PROPS, partitionSize, salt);
            var added, blob := HashFooter.Add(lib, a, c, BS), HashFooter.BlobFor(lib, a, c);
            added.Ok? && blob.Ok? && Slice(added.value, |c|, |c| + |blob.value|) != blob.value
  {
    hide Sha, Described, HashFooter.BlobFor, HashFooter.BlobDescriptors, D.EncodeAll, D.WF, FooterOf, Stripped, Slice,
      ParseImage, VbMeta.BlobHeader, Tight, HashFooter.Add, EraseFooter, FooterFor, BlobArgs, RoundToMultiple,
      HashFooter.BlobFitsPartition, Letters, Prop, ContentFits, InFront;
    var a, d := ArgsFor(LONG_PROPS, partitionSize, salt), Described(lib, BOOT, partitionSize, salt, c);
    Places(c, partitionSize);
    PropertyIsOverwritten(lib, c, partitionSize, salt);
    assert ([d] + [LONG])[1] != ([d] + [SPOILED])[1];
    if Slice(HashFooter.Add(lib, a, c, BS).value, |c|, |c| + |HashFooter.BlobFor(lib, a, c).value|)
       == HashFooter.BlobFor(lib, a, c).value {
      HashFooter.FoundParses(lib, a, c, BS);
    }
  }

  // ------------------------------------------------------------- a whole property is lost

  /** A property that ends just in front of the last block, and one behind it. */
  const FULL := D.Property(KEY, Letters(65045))
  const EMPTY := D.Property(NEXT, [])
  const TWO_PROPS: seq<bytes> := [Prop(KEY, Letters(65045)), Prop(NEXT, [])]

  lemma TwoIsCut(lib: D.Hashes)
    ensures D.WF(lib, FULL) && D.WF(lib, EMPTY)
    ensures D.EncodeAll(lib, [FULL, EMPTY]) == D.Encode(lib, FULL) + D.Encode(lib, EMPTY)
    ensures |D.EncodeAll(lib, [FULL, EMPTY])| == 65120
    ensures Cut(D.EncodeAll(lib, [FULL, EMPTY])) == D.Encode(lib, FULL) + Zeros(40)
  {
    hide D.WF, D.Encode, D.EncodeAll, Letters, RoundToMultiple, Cut;
    Sizes();
    PropIsWF(lib, KEY, FULL.value);
    PropIsWF(lib, NEXT, EMPTY.value);
    EncodeTwo(lib, FULL, EMPTY);
    CutPair(D.Encode(lib, FULL), D.Encode(lib, EMPTY));
  }

  lemma CutPair(x: bytes, y: bytes)
    requires |x| == 65080 && |y| == 40
    ensures Cut(x + y) == x + Zeros(40)
  {
    assert (x + y)[..65080] == x;
  }

  lemma TwoIsOversized(lib: D.Hashes)
    ensures Oversized(lib, TWO_PROPS, [FULL, EMPTY])
  {
    hide D.WF, D.Encode, D.EncodeAll, Letters, Prop, Cut;
    TwoIsCut(lib);
    PropParses(KEY, FULL.value);
    PropParses(NEXT, EMPTY.value);
    var props: seq<bytes> := TWO_PROPS;
    assert props[1..][1..] == [];
    assert VbMeta.PropDescriptors([]) == Ok([]);
    assert [EMPTY] + [] == [EMPTY];
    assert VbMeta.PropDescriptors(props[1..]) == Ok([EMPTY]);
    assert [FULL] + [EMPTY] == [FULL, EMPTY];
  }

  /** The command succeeds, but its image can be parsed no more, so that erase_footer refuses it as well. */
  lemma FooterIsStuck(lib: D.Hashes, c: bytes, partitionSize: nat, salt: bytes)
    requires Sha(lib) && |salt| == 32 && Tight(c, partitionSize)
    ensures var added := HashFooter.Add(lib, ArgsFor(TWO_PROPS, partitionSize, salt), c, BS);
            && added.Ok? && ParseImage(lib, added.value) == Err(StructError)
            && EraseFooter(lib, added.value) == Err(StructError)
  {
    hide Sha, Described, HashFooter.BlobFor, HashFooter.BlobDescriptors, D.EncodeAll, D.WF, D.Encode, FooterOf,
      ParseImage, D.Parse, VbMeta.BlobHeader, Tight, HashFooter.Add, EraseFooter, FooterFor, BlobArgs, Cut,
      HashFooter.BlobFitsPartition, Oversized, Letters, Prop, RecipeHash;
    TwoIsOversized(lib);
    TwoIsCut(lib);
    AddedOversized(lib, c, partitionSize, salt, TWO_PROPS, [FULL, EMPTY]);
    D.NulsRefused(lib, 40);
    D.ParseFirst(lib, FULL, Zeros(40));
    D.ParseFirst(lib, Described(lib, BOOT, partitionSize, salt, c), D.Encode(lib, FULL) + Zeros(40));
  }
}
