/** AVB descriptors: the records inside a vbmeta blob, their encoding and their parser. */
module Descriptors {
  import opened Bytes
  import opened Struct

  /** The hash library: digest sizes by algorithm name, and digests. */
  datatype HashLib = HashLib(size: bytes -> Option<nat>, digest: (bytes, bytes) -> bytes) {
    ghost predicate Valid() {
      forall alg, x :: size(alg).Some? ==> |digest(alg, x)| == size(alg).value
    }
  }

  /** Hashes for whole images, and for hash trees (which add one algorithm name). */
  datatype Hashes = Hashes(plain: HashLib, tree: HashLib) {
    ghost predicate Valid() {
      plain.Valid() && tree.Valid()
    }
  }

  /** Text fields are kept as the bytes they are encoded to. */
  datatype Descriptor =
    | Property(key: bytes, value: bytes)
    | Hashtree(verityVersion: nat, imageSize: nat, treeOffset: nat, treeSize: nat, dataBlockSize: nat,
               hashBlockSize: nat, fecNumRoots: nat, fecOffset: nat, fecSize: nat, algorithm: bytes,
               name: bytes, salt: bytes, rootDigest: bytes, flags: nat)
    | Hash(imageSize: nat, algorithm: bytes, name: bytes, salt: bytes, digest: bytes, flags: nat)
    | KernelCmdline(flags: nat, cmdline: bytes)
    | ChainPartition(rollbackIndexLocation: nat, name: bytes, publicKey: bytes, flags: nat)
    | Unknown(tag: nat, data: bytes)

  const RESERVED := 60

  const DESCRIPTOR_FORMAT: Format := U(8, U(8, End))
  const PROPERTY_FORMAT: Format := U(8, U(8, U(8, U(8, End))))
  const LENGTHS_FORMAT: Format := S(32, U(4, U(4, U(4, U(4, S(RESERVED, End))))))
  const PLACES_FORMAT: Format := U(4, U(4, U(4, U(8, U(8, LENGTHS_FORMAT)))))
  const HASHTREE_FORMAT: Format := U(8, U(8, U(4, U(8, U(8, U(8, PLACES_FORMAT))))))
  const HASH_FORMAT: Format := U(8, U(8, U(8, LENGTHS_FORMAT)))
  const CMDLINE_FORMAT: Format := U(8, U(8, U(4, U(4, End))))
  const CHAIN_FORMAT: Format := U(8, U(8, U(4, U(4, U(4, U(4, S(RESERVED, End)))))))

  const PROPERTY_SIZE := 32
  const HASHTREE_SIZE := 180
  const HASH_SIZE := 132
  const CMDLINE_SIZE := 24
  const CHAIN_SIZE := 92

  // ------------------------------------------------------------- text

  predicate Continues(s: bytes, i: nat, n: nat) {
    i + n <= |s| && forall k :: i <= k < i + n ==> 0x80 <= s[k] < 0xC0
  }

  /** UTF-8 as in section 4 of RFC 3629: shortest forms only, no surrogates, at most 0x10FFFF. */
  predicate Utf8(s: bytes) {
    if s == [] then true
    else if s[0] < 0x80 then Utf8(s[1..])
    else if 0xC2 <= s[0] < 0xE0 then Continues(s, 1, 1) && Utf8(s[2..])
    else if 0xE0 <= s[0] < 0xF0 then
      && Continues(s, 1, 2) && (s[0] == 0xE0 ==> s[1] >= 0xA0) && (s[0] == 0xED ==> s[1] < 0xA0) && Utf8(s[3..])
    else if 0xF0 <= s[0] < 0xF5 then
      && Continues(s, 1, 3) && (s[0] == 0xF0 ==> s[1] >= 0x90) && (s[0] == 0xF4 ==> s[1] < 0x90) && Utf8(s[4..])
    else false
  }

  /** A character: a code point that is no surrogate. */
  predicate Scalar(c: nat) {
    c < 0x11_0000 && !(0xD800 <= c < 0xE000)
  }

  /** The octets of a character. */
  function CharOctets(c: nat): (r: bytes)
    requires Scalar(c)
    ensures r != []
  {
    if c < 0x80 then [c]
    else if c < 0x800 then [0xC0 + c / 64, 0x80 + c % 64]
    else if c < 0x1_0000 then [0xE0 + c / 4096, 0x80 + c / 64 % 64, 0x80 + c % 64]
    else [0xF0 + c / 0x4_0000, 0x80 + c / 4096 % 64, 0x80 + c / 64 % 64, 0x80 + c % 64]
  }

  function TextOctets(cs: seq<nat>): bytes
    requires forall i :: 0 <= i < |cs| ==> Scalar(cs[i])
  {
    if cs == [] then [] else CharOctets(cs[0]) + TextOctets(cs[1..])
  }

  lemma Digits(a: nat, b: nat, c: nat, d: nat)
    requires b < 64 && c < 64 && d < 64
    ensures var n := a * 0x4_0000 + b * 4096 + c * 64 + d;
            n / 0x4_0000 == a && n / 4096 % 64 == b && n / 64 % 64 == c && n % 64 == d
  {
    var n := a * 0x4_0000 + b * 4096 + c * 64 + d;
    assert n / 64 == a * 4096 + b * 64 + c;
    assert n / 4096 == a * 64 + b;
  }

  /** What the first octet of text says of the next ones. */
  lemma FrontOctets(s: bytes)
    requires s != [] && Utf8(s)
    ensures s[0] < 0x80 ==> Utf8(s[1..])
    ensures 0x80 <= s[0] < 0xE0 ==> 0xC2 <= s[0] && |s| >= 2 && 0x80 <= s[1] < 0xC0 && Utf8(s[2..])
    ensures 0xE0 <= s[0] < 0xF0 ==>
              && |s| >= 3 && 0x80 <= s[1] < 0xC0 && 0x80 <= s[2] < 0xC0 && Utf8(s[3..])
              && (s[0] == 0xE0 ==> s[1] >= 0xA0) && (s[0] == 0xED ==> s[1] < 0xA0)
    ensures 0xF0 <= s[0] ==>
              && s[0] < 0xF5 && |s| >= 4 && 0x80 <= s[1] < 0xC0 && 0x80 <= s[2] < 0xC0 && 0x80 <= s[3] < 0xC0
              && (s[0] == 0xF0 ==> s[1] >= 0x90) && (s[0] == 0xF4 ==> s[1] < 0x90) && Utf8(s[4..])
  {
  }

  lemma CharOfThree(a: nat, b: nat, d: nat)
    requires a < 16 && b < 64 && d < 64 && (a == 0 ==> b >= 32) && (a == 13 ==> b < 32)
    ensures var c := a * 4096 + b * 64 + d; Scalar(c) && CharOctets(c) == [0xE0 + a, 0x80 + b, 0x80 + d]
  {
    Digits(0, a, b, d);
  }

  lemma CharOfFour(a: nat, b: nat, d: nat, e: nat)
    requires a < 5 && b < 64 && d < 64 && e < 64 && (a == 0 ==> b >= 16) && (a == 4 ==> b < 16)
    ensures var c := a * 0x4_0000 + b * 4096 + d * 64 + e;
            Scalar(c) && CharOctets(c) == [0xF0 + a, 0x80 + b, 0x80 + d, 0x80 + e]
  {
    Digits(a, b, d, e);
  }

  /** The character in front of text, and how many octets it takes. */
  lemma FirstChar(s: bytes) returns (c: nat, n: nat)
    requires s != [] && Utf8(s)
    ensures Scalar(c) && 0 < n <= |s| && s[..n] == CharOctets(c) && Utf8(s[n..])
  {
    FrontOctets(s);
    hide Utf8;
    if s[0] < 0x80 {
      c, n := s[0], 1;
    } else if s[0] < 0xE0 {
      var a: nat, b: nat := s[0] - 0xC0, s[1] - 0x80;
      c, n := a * 64 + b, 2;
      Digits(0, 0, a, b);
    } else {
      hide Scalar, CharOctets;
      if s[0] < 0xF0 {
        var a: nat, b: nat, d: nat := s[0] - 0xE0, s[1] - 0x80, s[2] - 0x80;
        c, n := a * 4096 + b * 64 + d, 3;
        CharOfThree(a, b, d);
      } else {
        var a: nat, b: nat, d: nat, e: nat := s[0] - 0xF0, s[1] - 0x80, s[2] - 0x80, s[3] - 0x80;
        c, n := a * 0x4_0000 + b * 4096 + d * 64 + e, 4;
        CharOfFour(a, b, d, e);
      }
    }
  }

  lemma TwoOctets(s: bytes)
    requires |s| >= 2 && 0xC2 <= s[0] < 0xE0 && 0x80 <= s[1] < 0xC0 && Utf8(s[2..])
    ensures Utf8(s)
  {
  }

  lemma ThreeOctets(s: bytes)
    requires |s| >= 3 && 0xE0 <= s[0] < 0xF0 && 0x80 <= s[1] < 0xC0 && 0x80 <= s[2] < 0xC0 && Utf8(s[3..])
    requires (s[0] == 0xE0 ==> s[1] >= 0xA0) && (s[0] == 0xED ==> s[1] < 0xA0)
    ensures Utf8(s)
  {
  }

  lemma FourOctets(s: bytes)
    requires |s| >= 4 && 0xF0 <= s[0] < 0xF5 && 0x80 <= s[1] < 0xC0 && 0x80 <= s[2] < 0xC0 && 0x80 <= s[3] < 0xC0
    requires (s[0] == 0xF0 ==> s[1] >= 0x90) && (s[0] == 0xF4 ==> s[1] < 0x90) && Utf8(s[4..])
    ensures Utf8(s)
  {
  }

  lemma CharInFront(c: nat, t: bytes)
    requires Scalar(c) && Utf8(t)
    ensures Utf8(CharOctets(c) + t)
  {
    var o := CharOctets(c);
    var s := o + t;
    assert s[|o|..] == t && forall i :: 0 <= i < |o| ==> s[i] == o[i];
    if c >= 0x80 {
      hide Utf8;
      if c < 0x800 {
        TwoOctets(s);
      } else if c < 0x1_0000 {
        ThreeOctets(s);
      } else {
        FourOctets(s);
      }
    }
  }

  lemma {:induction false} Characters(s: bytes) returns (cs: seq<nat>)
    requires Utf8(s)
    ensures (forall i :: 0 <= i < |cs| ==> Scalar(cs[i])) && TextOctets(cs) == s
  {
    hide Utf8, CharOctets, Scalar;
    if s == [] {
      cs := [];
    } else {
      var c, n := FirstChar(s);
      var more := Characters(s[n..]);
      cs := [c] + more;
      assert cs[1..] == more && s[..n] + s[n..] == s;
    }
  }

  lemma {:induction false} TextIsUtf8(cs: seq<nat>)
    requires forall i :: 0 <= i < |cs| ==> Scalar(cs[i])
    ensures Utf8(TextOctets(cs))
  {
    hide CharOctets, Scalar;
    if cs != [] {
      TextIsUtf8(cs[1..]);
      hide Utf8;
      CharInFront(cs[0], TextOctets(cs[1..]));
    }
  }

  /** Text is exactly what characters are encoded to. */
  lemma Utf8Iff(s: bytes)
    ensures Utf8(s) <==> exists cs: seq<nat> :: (forall i :: 0 <= i < |cs| ==> Scalar(cs[i])) && s == TextOctets(cs)
  {
    hide Utf8, Scalar;
    if Utf8(s) {
      var cs := Characters(s);
      assert s == TextOctets(cs);
    }
    forall cs: seq<nat> | (forall i :: 0 <= i < |cs| ==> Scalar(cs[i])) && s == TextOctets(cs) ensures Utf8(s) {
      TextIsUtf8(cs);
    }
  }

  /** s.rstrip(b'\0') */
  function RStrip(s: bytes): bytes {
    if s != [] && s[|s| - 1] == 0 then RStrip(s[..|s| - 1]) else s
  }

  predicate NoTrailingNul(s: bytes) {
    s == [] || s[|s| - 1] != 0
  }

  lemma {:induction false} RStripPadding(s: bytes, n: nat)
    requires NoTrailingNul(s)
    ensures RStrip(s + Zeros(n)) == s
  {
    var t := s + Zeros(n);
    if n == 0 {
      assert t == s;
    } else {
      assert t[..|t| - 1] == s + Zeros(n - 1);
      RStripPadding(s, n - 1);
    }
  }

  lemma RStripResize(s: bytes, n: nat)
    requires NoTrailingNul(s) && |s| <= n
    ensures RStrip(Resize(s, n)) == s
  {
    RStripPadding(s, n - |s|);
    assert Resize(s, n) == s + Zeros(n - |s|);
  }

  // ------------------------------------------------------------- encoding

  /** num_bytes_following with its padding to 8. */
  function Following(size: nat, body: nat): (n: nat)
    requires size >= 16
    ensures n % 8 == 0
  {
    RoundToMultiple(size - 16 + body, 8)
  }

  predicate AlgorithmField(lib: HashLib, alg: bytes, digest: bytes) {
    && |alg| <= 32 && Ascii(alg) && NoTrailingNul(alg)
    && lib.size(alg).Some?
    && (digest == [] || |digest| == lib.size(alg).value)
  }

  /** Text is text, a digest has its algorithm's size, and unknown data is whole 8-byte units, as the format asks. */
  predicate Legible(lib: Hashes, d: Descriptor) {
    match d
    case Property(key, _) => Utf8(key)
    case Hashtree(_, _, _, _, _, _, _, _, _, alg, name, _, root, _) => AlgorithmField(lib.tree, alg, root) && Utf8(name)
    case Hash(_, alg, name, _, digest, _) => AlgorithmField(lib.plain, alg, digest) && Utf8(name)
    case KernelCmdline(_, cmdline) => Utf8(cmdline)
    case ChainPartition(_, name, _, _) => Utf8(name)
    case Unknown(tag, data) => tag >= 5 && |data| % 8 == 0
  }

  /** Every number and every length fits its field. */
  predicate Packable(d: Descriptor) {
    match d
    case Property(key, value) => Following(PROPERTY_SIZE, |key| + |value| + 2) < U64
    case Hashtree(v, isz, to, ts, db, hb, fr, fo, fs, _, name, salt, root, flags) =>
      && v < U32 && isz < U64 && to < U64 && ts < U64 && db < U32 && hb < U32 && fr < U32 && fo < U64 && fs < U64
      && |name| < U32 && |salt| < U32 && |root| < U32 && flags < U32
    case Hash(isz, _, name, salt, digest, flags) =>
      isz < U64 && |name| < U32 && |salt| < U32 && |digest| < U32 && flags < U32
    case KernelCmdline(flags, cmdline) => flags < U32 && |cmdline| < U32
    case ChainPartition(loc, name, key, flags) => loc < U32 && |name| < U32 && |key| < U32 && flags < U32
    case Unknown(tag, data) => tag < U64 && Following(16, |data|) < U64
  }

  /** Descriptors that are encoded and then parsed back. */
  predicate WF(lib: Hashes, d: Descriptor) {
    Legible(lib, d) && Packable(d)
  }

  /** What follows the fixed part, before padding. */
  function Body(d: Descriptor): bytes {
    match d
    case Property(key, value) => key + ([0] + (value + [0]))
    case Hashtree(_, _, _, _, _, _, _, _, _, _, name, salt, root, _) => name + (salt + root)
    case Hash(_, _, name, salt, digest, _) => name + (salt + digest)
    case KernelCmdline(_, cmdline) => cmdline
    case ChainPartition(_, name, key, _) => name + key
    case Unknown(_, data) => data
  }

  function HeaderSize(d: Descriptor): nat {
    match d
    case Property(_, _) => PROPERTY_SIZE
    case Hashtree(_, _, _, _, _, _, _, _, _, _, _, _, _, _) => HASHTREE_SIZE
    case Hash(_, _, _, _, _, _) => HASH_SIZE
    case KernelCmdline(_, _) => CMDLINE_SIZE
    case ChainPartition(_, _, _, _) => CHAIN_SIZE
    case Unknown(_, _) => 16
  }

  function Tag(d: Descriptor): nat {
    match d
    case Property(_, _) => 0
    case Hashtree(_, _, _, _, _, _, _, _, _, _, _, _, _, _) => 1
    case Hash(_, _, _, _, _, _) => 2
    case KernelCmdline(_, _) => 3
    case ChainPartition(_, _, _, _) => 4
    case Unknown(tag, _) => tag
  }

  function FormatOf(d: Descriptor): Format {
    match d
    case Property(_, _) => PROPERTY_FORMAT
    case Hashtree(_, _, _, _, _, _, _, _, _, _, _, _, _, _) => HASHTREE_FORMAT
    case Hash(_, _, _, _, _, _) => HASH_FORMAT
    case KernelCmdline(_, _) => CMDLINE_FORMAT
    case ChainPartition(_, _, _, _) => CHAIN_FORMAT
    case Unknown(_, _) => DESCRIPTOR_FORMAT
  }

  function LengthFields(alg: bytes, name: nat, salt: nat, digest: nat, flags: nat): Values {
    Str(Resize(alg, 32), Int(name, Int(salt, Int(digest, Int(flags, Str(Zeros(RESERVED), Done))))))
  }

  /** The fixed fields as handed to struct.pack. */
  function FieldsOf(d: Descriptor, nbf: nat): Values {
    match d
    case Property(key, value) => Int(0, Int(nbf, Int(|key|, Int(|value|, Done))))
    case Hashtree(v, isz, to, ts, db, hb, fr, fo, fs, alg, name, salt, root, flags) =>
      var lengths := LengthFields(alg, |name|, |salt|, |root|, flags);
      var places := Int(db, Int(hb, Int(fr, Int(fo, Int(fs, lengths)))));
      Int(1, Int(nbf, Int(v, Int(isz, Int(to, Int(ts, places))))))
    case Hash(isz, alg, name, salt, digest, flags) =>
      var lengths := LengthFields(alg, |name|, |salt|, |digest|, flags);
      Int(2, Int(nbf, Int(isz, lengths)))
    case KernelCmdline(flags, cmdline) => Int(3, Int(nbf, Int(flags, Int(|cmdline|, Done))))
    case ChainPartition(loc, name, key, flags) =>
      var lengths := Int(|name|, Int(|key|, Int(flags, Str(Zeros(RESERVED), Done))));
      Int(4, Int(nbf, Int(loc, lengths)))
    case Unknown(tag, data) => Int(tag, Int(nbf, Done))
  }

  function FollowingOf(d: Descriptor): nat {
    Following(HeaderSize(d), |Body(d)|)
  }

  lemma FieldsExact(lib: Hashes, d: Descriptor)
    requires WF(lib, d)
    ensures Exact(FormatOf(d), FieldsOf(d, FollowingOf(d)))
  {
    FollowingFits(lib, d);
    if d.Hashtree? {
      HashtreeFieldsExact(lib, d);
    } else {
      OtherFieldsExact(lib, d);
    }
  }

  lemma HashtreeFieldsExact(lib: Hashes, d: Descriptor)
    requires WF(lib, d) && d.Hashtree? && FollowingOf(d) < U64
    ensures Exact(FormatOf(d), FieldsOf(d, FollowingOf(d)))
  {
    hide FollowingOf, Utf8, Ascii;
    var vs := FieldsOf(d, FollowingOf(d));
    assert Exact(LENGTHS_FORMAT, LengthFields(d.algorithm, |d.name|, |d.salt|, |d.rootDigest|, d.flags));
    assert Exact(PLACES_FORMAT, vs.more.more.more.more.more.more);
    assert Exact(HASHTREE_FORMAT, vs);
  }

  lemma OtherFieldsExact(lib: Hashes, d: Descriptor)
    requires WF(lib, d) && !d.Hashtree? && FollowingOf(d) < U64
    ensures Exact(FormatOf(d), FieldsOf(d, FollowingOf(d)))
  {
    hide FollowingOf, Utf8, Ascii;
    var vs := FieldsOf(d, FollowingOf(d));
    match d
    case Property(_, _) => assert Exact(PROPERTY_FORMAT, vs);
    case Hash(_, _, _, _, _, _) =>
      assert Exact(LENGTHS_FORMAT, LengthFields(d.algorithm, |d.name|, |d.salt|, |d.digest|, d.flags));
      assert Exact(HASH_FORMAT, vs);
    case KernelCmdline(_, _) => assert Exact(CMDLINE_FORMAT, vs);
    case ChainPartition(_, _, _, _) => assert Exact(CHAIN_FORMAT, vs);
    case Unknown(_, _) => assert Exact(DESCRIPTOR_FORMAT, vs);
  }

  /** struct.pack raises exactly when a number or a length does not fit. */
  lemma PackableIff(d: Descriptor)
    ensures Packable(d) <==> Fits(FormatOf(d), FieldsOf(d, FollowingOf(d)))
  {
    if d.Hashtree? {
      HashtreePackable(d);
    } else if d.Hash? {
      var lengths := LengthFields(d.algorithm, |d.name|, |d.salt|, |d.digest|, d.flags);
      assert Fits(LENGTHS_FORMAT, lengths) <==> |d.name| < U32 && |d.salt| < U32 && |d.digest| < U32 && d.flags < U32;
    }
  }

  lemma HashtreePackable(d: Descriptor)
    requires d.Hashtree?
    ensures Packable(d) <==> Fits(FormatOf(d), FieldsOf(d, FollowingOf(d)))
  {
    var lengths := LengthFields(d.algorithm, |d.name|, |d.salt|, |d.rootDigest|, d.flags);
    assert Fits(LENGTHS_FORMAT, lengths) <==> |d.name| < U32 && |d.salt| < U32 && |d.rootDigest| < U32 && d.flags < U32;
    var places := FieldsOf(d, FollowingOf(d)).more.more.more.more.more.more;
    assert Fits(PLACES_FORMAT, places)
      <==> d.dataBlockSize < U32 && d.hashBlockSize < U32 && d.fecNumRoots < U32 && d.fecOffset < U64
           && d.fecSize < U64 && Fits(LENGTHS_FORMAT, lengths);
  }

  lemma FollowingFits(lib: Hashes, d: Descriptor)
    requires WF(lib, d)
    ensures FollowingOf(d) < U64
    ensures HeaderSize(d) - 16 + |Body(d)| <= FollowingOf(d)
    ensures FollowingOf(d) % 8 == 0
  {
  }

  /** The fixed part of the encoding. */
  function EncodeHeader(lib: Hashes, d: Descriptor): (r: bytes)
    requires WF(lib, d)
    ensures |r| == HeaderSize(d)
  {
    FieldsExact(lib, d);
    ExactFits(FormatOf(d), FieldsOf(d, FollowingOf(d)));
    var r := Pack(Big, FormatOf(d), FieldsOf(d, FollowingOf(d)));
    HeaderSizes(d, |r|);
    r
  }

  lemma LengthsSize(n: int)
    ensures HasSize(LENGTHS_FORMAT, n) <==> n == 108
  {
  }

  lemma PlacesSize(n: int)
    ensures HasSize(PLACES_FORMAT, n) <==> n == 136
  {
    LengthsSize(n - 28);
  }

  lemma HashtreeSize(n: int)
    ensures HasSize(HASHTREE_FORMAT, n) <==> n == HASHTREE_SIZE
  {
    PlacesSize(n - 44);
  }

  lemma HeaderSizes(d: Descriptor, n: nat)
    requires HasSize(FormatOf(d), n)
    ensures n == HeaderSize(d)
  {
    match d
    case Property(_, _) => assert HasSize(PROPERTY_FORMAT, n);
    case Hashtree(_, _, _, _, _, _, _, _, _, _, _, _, _, _) =>
      HashtreeSize(n);
    case Hash(_, _, _, _, _, _) =>
      LengthsSize(n - 24);
      assert HasSize(HASH_FORMAT, n);
    case KernelCmdline(_, _) => assert HasSize(CMDLINE_FORMAT, n);
    case ChainPartition(_, _, _, _) => assert HasSize(CHAIN_FORMAT, n);
    case Unknown(_, _) => assert HasSize(DESCRIPTOR_FORMAT, n);
  }

  /** A descriptor's encode() method. */
  function Encode(lib: Hashes, d: Descriptor): (r: bytes)
    requires WF(lib, d)
    ensures |r| == 16 + FollowingOf(d)
  {
    FollowingFits(lib, d);
    hide EncodeHeader, WF, Body, HeaderSize, FollowingOf;
    EncodeHeader(lib, d) + (Body(d) + Zeros(FollowingOf(d) - (HeaderSize(d) - 16 + |Body(d)|)))
  }

  lemma PackedHeader(lib: Hashes, d: Descriptor)
    requires WF(lib, d)
    ensures var s := EncodeHeader(lib, d);
            && Fits(FormatOf(d), FieldsOf(d, FollowingOf(d)))
            && s[0..] == Pack(Big, FormatOf(d), FieldsOf(d, FollowingOf(d)))
  {
    FieldsExact(lib, d);
    ExactFits(FormatOf(d), FieldsOf(d, FollowingOf(d)));
    hide Pack, Fits, Exact, WF, FormatOf, FieldsOf, FollowingOf;
    var s := EncodeHeader(lib, d);
    assert s[0..] == s;
  }

  lemma EncodedInFront(lib: Hashes, d: Descriptor)
    requires WF(lib, d)
    ensures var s, h := Encode(lib, d), EncodeHeader(lib, d);
            && |s| == 16 + FollowingOf(d) >= |h| && (forall i, j :: 0 <= i <= j <= |h| ==> s[i..j] == h[i..j])
            && s[|h|..] == Body(d) + Zeros(|s| - |h| - |Body(d)|)
  {
    FollowingFits(lib, d);
    hide EncodeHeader, WF, Body, FollowingOf;
    var s, h := Encode(lib, d), EncodeHeader(lib, d);
    var t := Body(d) + Zeros(FollowingOf(d) - (HeaderSize(d) - 16 + |Body(d)|));
    assert s == h + t;
    forall i, j | 0 <= i <= j <= |h| ensures s[i..j] == h[i..j] {
      SubSlice(s, 0, |h|, i, j);
    }
  }

  lemma LengthsOctets(s: bytes, o: nat, alg: bytes, name: nat, salt: nat, digest: nat, flags: nat)
    requires o + 108 == |s| && Fits(LENGTHS_FORMAT, LengthFields(alg, name, salt, digest, flags))
    requires s[o..] == Pack(Big, LENGTHS_FORMAT, LengthFields(alg, name, salt, digest, flags))
    ensures s[o..o + 32] == Resize(alg, 32) && s[o + 32..o + 36] == BE(name, 4) && s[o + 36..o + 40] == BE(salt, 4)
    ensures s[o + 40..o + 44] == BE(digest, 4) && s[o + 44..o + 48] == BE(flags, 4) && s[o + 48..o + 108] == Zeros(60)
  {
    hide Pack, Fits, BE, Resize;
    ResizeSame(Resize(alg, 32));
    ResizeSame(Zeros(RESERVED));
    var f, v := LENGTHS_FORMAT, LengthFields(alg, name, salt, digest, flags);
    Field(s, o, Big, f, v);
    f, v := f.after, v.more;
    Field(s, o + 32, Big, f, v);
    f, v := f.after, v.more;
    Field(s, o + 36, Big, f, v);
    f, v := f.after, v.more;
    Field(s, o + 40, Big, f, v);
    f, v := f.after, v.more;
    Field(s, o + 44, Big, f, v);
    f, v := f.after, v.more;
    Field(s, o + 48, Big, f, v);
  }

  lemma PlacesOctets(s: bytes, d: Descriptor)
    requires d.Hashtree? && |s| == 180
    requires var v := FieldsOf(d, 0).more.more.more.more.more.more;
             Fits(PLACES_FORMAT, v) && s[44..] == Pack(Big, PLACES_FORMAT, v)
    ensures s[44..48] == BE(d.dataBlockSize, 4) && s[48..52] == BE(d.hashBlockSize, 4)
    ensures s[52..56] == BE(d.fecNumRoots, 4) && s[56..64] == BE(d.fecOffset, 8) && s[64..72] == BE(d.fecSize, 8)
    ensures var l := LengthFields(d.algorithm, |d.name|, |d.salt|, |d.rootDigest|, d.flags);
            Fits(LENGTHS_FORMAT, l) && s[72..] == Pack(Big, LENGTHS_FORMAT, l)
  {
    hide Pack, Fits, BE, LengthFields;
    var f, v := PLACES_FORMAT, FieldsOf(d, 0).more.more.more.more.more.more;
    Field(s, 44, Big, f, v);
    f, v := f.after, v.more;
    Field(s, 48, Big, f, v);
    f, v := f.after, v.more;
    Field(s, 52, Big, f, v);
    f, v := f.after, v.more;
    Field(s, 56, Big, f, v);
    f, v := f.after, v.more;
    Field(s, 64, Big, f, v);
  }

  /** Where everything in a property descriptor lies; padding is NULs. */
  lemma PropertyOctets(lib: Hashes, d: Descriptor)
    requires WF(lib, d) && d.Property?
    ensures var s, n := Encode(lib, d), FollowingOf(d);
            && |s| == 16 + n && s[..8] == BE(0, 8) && s[8..16] == BE(n, 8)
            && s[16..24] == BE(|d.key|, 8) && s[24..32] == BE(|d.value|, 8)
            && s[32..] == d.key + ([0] + (d.value + [0])) + Zeros(n - 18 - |d.key| - |d.value|)
  {
    hide Pack, Fits, WF, BE, FollowingOf, EncodeHeader, Encode, Resize;
    PackedHeader(lib, d);
    var s, f, v := EncodeHeader(lib, d), FormatOf(d), FieldsOf(d, FollowingOf(d));
    Field(s, 0, Big, f, v);
    f, v := f.after, v.more;
    Field(s, 8, Big, f, v);
    f, v := f.after, v.more;
    Field(s, 16, Big, f, v);
    f, v := f.after, v.more;
    Field(s, 24, Big, f, v);
    EncodedInFront(lib, d);
  }

  /** The same for a hash descriptor. */
  lemma HashOctets(lib: Hashes, d: Descriptor)
    requires WF(lib, d) && d.Hash?
    ensures var s, n := Encode(lib, d), FollowingOf(d);
            && |s| == 16 + n && s[..8] == BE(2, 8) && s[8..16] == BE(n, 8) && s[16..24] == BE(d.imageSize, 8)
            && s[24..56] == Resize(d.algorithm, 32) && s[56..60] == BE(|d.name|, 4) && s[60..64] == BE(|d.salt|, 4)
            && s[64..68] == BE(|d.digest|, 4) && s[68..72] == BE(d.flags, 4) && s[72..132] == Zeros(60)
            && s[132..] == d.name + (d.salt + d.digest) + Zeros(n - 116 - |d.name| - |d.salt| - |d.digest|)
  {
    hide Pack, Fits, WF, BE, FollowingOf, EncodeHeader, Encode, Resize, LengthFields;
    PackedHeader(lib, d);
    var s, f, v := EncodeHeader(lib, d), FormatOf(d), FieldsOf(d, FollowingOf(d));
    Field(s, 0, Big, f, v);
    f, v := f.after, v.more;
    Field(s, 8, Big, f, v);
    f, v := f.after, v.more;
    Field(s, 16, Big, f, v);
    LengthsOctets(s, 24, d.algorithm, |d.name|, |d.salt|, |d.digest|, d.flags);
    EncodedInFront(lib, d);

  }

  /** The same for a hashtree descriptor. */
  lemma HashtreeOctets(lib: Hashes, d: Descriptor)
    requires WF(lib, d) && d.Hashtree?
    ensures var s, n := Encode(lib, d), FollowingOf(d);
            && |s| == 16 + n && s[..8] == BE(1, 8) && s[8..16] == BE(n, 8)
            && s[16..20] == BE(d.verityVersion, 4) && s[20..28] == BE(d.imageSize, 8)
            && s[28..36] == BE(d.treeOffset, 8) && s[36..44] == BE(d.treeSize, 8)
            && s[44..48] == BE(d.dataBlockSize, 4) && s[48..52] == BE(d.hashBlockSize, 4)
            && s[52..56] == BE(d.fecNumRoots, 4) && s[56..64] == BE(d.fecOffset, 8) && s[64..72] == BE(d.fecSize, 8)
            && s[72..104] == Resize(d.algorithm, 32) && s[104..108] == BE(|d.name|, 4) && s[108..112] == BE(|d.salt|, 4)
            && s[112..116] == BE(|d.rootDigest|, 4) && s[116..120] == BE(d.flags, 4) && s[120..180] == Zeros(60)
            && s[180..] == d.name + (d.salt + d.rootDigest)
                           + Zeros(n - 164 - |d.name| - |d.salt| - |d.rootDigest|)
  {
    hide Pack, Fits, WF, BE, FollowingOf, EncodeHeader, Encode, Resize, LengthFields;
    PackedHeader(lib, d);
    var s, f, v := EncodeHeader(lib, d), FormatOf(d), FieldsOf(d, FollowingOf(d));
    Field(s, 0, Big, f, v);
    f, v := f.after, v.more;
    Field(s, 8, Big, f, v);
    f, v := f.after, v.more;
    Field(s, 16, Big, f, v);
    f, v := f.after, v.more;
    Field(s, 20, Big, f, v);
    f, v := f.after, v.more;
    Field(s, 28, Big, f, v);
    f, v := f.after, v.more;
    Field(s, 36, Big, f, v);
    PlacesOctets(s, d);
    LengthsOctets(s, 72, d.algorithm, |d.name|, |d.salt|, |d.rootDigest|, d.flags);
    EncodedInFront(lib, d);
  }

  /** The same for a kernel command line descriptor. */
  lemma CmdlineOctets(lib: Hashes, d: Descriptor)
    requires WF(lib, d) && d.KernelCmdline?
    ensures var s, n := Encode(lib, d), FollowingOf(d);
            && |s| == 16 + n && s[..8] == BE(3, 8) && s[8..16] == BE(n, 8)
            && s[16..20] == BE(d.flags, 4) && s[20..24] == BE(|d.cmdline|, 4)
            && s[24..] == d.cmdline + Zeros(n - 8 - |d.cmdline|)
  {
    hide Pack, Fits, WF, BE, FollowingOf, EncodeHeader, Encode, Resize;
    PackedHeader(lib, d);
    var s, f, v := EncodeHeader(lib, d), FormatOf(d), FieldsOf(d, FollowingOf(d));
    Field(s, 0, Big, f, v);
    f, v := f.after, v.more;
    Field(s, 8, Big, f, v);
    f, v := f.after, v.more;
    Field(s, 16, Big, f, v);
    f, v := f.after, v.more;
    Field(s, 20, Big, f, v);
    EncodedInFront(lib, d);
  }

  /** The same for a chain partition descriptor. */
  lemma ChainOctets(lib: Hashes, d: Descriptor)
    requires WF(lib, d) && d.ChainPartition?
    ensures var s, n := Encode(lib, d), FollowingOf(d);
            && |s| == 16 + n && s[..8] == BE(4, 8) && s[8..16] == BE(n, 8)
            && s[16..20] == BE(d.rollbackIndexLocation, 4)
            && s[20..24] == BE(|d.name|, 4) && s[24..28] == BE(|d.publicKey|, 4) && s[28..32] == BE(d.flags, 4)
            && s[32..92] == Zeros(60) && s[92..] == d.name + d.publicKey + Zeros(n - 76 - |d.name| - |d.publicKey|)
  {
    hide Pack, Fits, WF, BE, FollowingOf, EncodeHeader, Encode, Resize;
    PackedHeader(lib, d);
    var s, f, v := EncodeHeader(lib, d), FormatOf(d), FieldsOf(d, FollowingOf(d));
    ResizeSame(Zeros(RESERVED));
    Field(s, 0, Big, f, v);
    f, v := f.after, v.more;
    Field(s, 8, Big, f, v);
    f, v := f.after, v.more;
    Field(s, 16, Big, f, v);
    f, v := f.after, v.more;
    Field(s, 20, Big, f, v);
    f, v := f.after, v.more;
    Field(s, 24, Big, f, v);
    f, v := f.after, v.more;
    Field(s, 28, Big, f, v);
    f, v := f.after, v.more;
    Field(s, 32, Big, f, v);
    EncodedInFront(lib, d);
  }

  /** Every encoding is a multiple of 8 bytes long, as its header claims. */
  lemma EncodeWhole(lib: Hashes, d: Descriptor)
    requires WF(lib, d)
    ensures |Encode(lib, d)| % 8 == 0
  {
    hide WF, Encode, FollowingOf;
    FollowingFits(lib, d);
  }

  function EncodeAll(lib: Hashes, ds: seq<Descriptor>): bytes
    requires forall i :: 0 <= i < |ds| ==> WF(lib, ds[i])
  {
    if ds == [] then [] else Encode(lib, ds[0]) + EncodeAll(lib, ds[1..])
  }

  // ------------------------------------------------------------- parsing

  function ParseProperty(data: bytes): Result<Descriptor> {
    var fields :- Unpack(Big, PROPERTY_FORMAT, Slice(data, 0, PROPERTY_SIZE));
    var Int(tag, Int(nbf, Int(keySize, Int(valueSize, _)))) := fields;
    if tag != 0 || nbf != Following(PROPERTY_SIZE, keySize + valueSize + 2) then Err(LookupError)
    else
      var key := Slice(data, PROPERTY_SIZE, PROPERTY_SIZE + keySize);
      if !Utf8(key) then Err(LookupError)
      else
        var at := PROPERTY_SIZE + keySize + 1;
        Ok(Property(key, Slice(data, at, at + valueSize)))
  }

  /** The three variable fields behind a hash or hashtree header. */
  function Tail(data: bytes, at: nat, n: nat, m: nat, k: nat): (bytes, bytes, bytes) {
    (Slice(data, at, at + n), Slice(data, at + n, at + n + m), Slice(data, at + n + m, at + n + m + k))
  }

  /** Checks on algorithm name, partition name and digest length, in the order in which they raise. */
  function CheckAlgorithm(lib: HashLib, field: bytes, name: bytes, digestLen: nat): Result<bytes> {
    var alg := RStrip(field);
    if !Ascii(alg) then Err(UnicodeError)
    else if !Utf8(name) then Err(LookupError)
    else if lib.size(alg).None? then Err(ValueError)
    else if digestLen != lib.size(alg).value && digestLen != 0 then Err(LookupError)
    else Ok(alg)
  }

  lemma HashtreeShape(vs: Values)
    requires Exact(HASHTREE_FORMAT, vs)
    ensures vs.Int? && vs.more.Int? && vs.more.more.Int? && vs.more.more.more.Int? && vs.more.more.more.more.Int?
    ensures vs.more.more.more.more.more.Int? && Exact(PLACES_FORMAT, vs.more.more.more.more.more.more)
    ensures vs.n >= 0 && vs.more.n >= 0 && vs.more.more.n >= 0 && vs.more.more.more.n >= 0
    ensures vs.more.more.more.more.n >= 0 && vs.more.more.more.more.more.n >= 0
  {
  }

  lemma PlacesShape(w: Values)
    requires Exact(PLACES_FORMAT, w)
    ensures w.Int? && w.more.Int? && w.more.more.Int? && w.more.more.more.Int? && w.more.more.more.more.Int?
    ensures Exact(LENGTHS_FORMAT, w.more.more.more.more.more)
    ensures w.n >= 0 && w.more.n >= 0 && w.more.more.n >= 0 && w.more.more.more.n >= 0 && w.more.more.more.more.n >= 0
  {
  }

  function ParseHashtree(lib: Hashes, data: bytes): Result<Descriptor> {
    var fields :- Unpack(Big, HASHTREE_FORMAT, Slice(data, 0, HASHTREE_SIZE));
    HashtreeShape(fields);
    var Int(tag, Int(nbf, Int(v, Int(isz, Int(to, Int(ts, places)))))) := fields;
    PlacesShape(places);
    var Int(db, Int(hb, Int(fr, Int(fo, Int(fs, lengths))))) := places;
    var Str(alg0, Int(nl, Int(sl, Int(dl, Int(flags, _))))) := lengths;
    if tag != 1 || nbf != Following(HASHTREE_SIZE, nl + sl + dl) then Err(LookupError)
    else
      var (name, salt, root) := Tail(data, HASHTREE_SIZE, nl, sl, dl);
      var alg :- CheckAlgorithm(lib.tree, alg0, name, dl);
      Ok(Hashtree(v, isz, to, ts, db, hb, fr, fo, fs, alg, name, salt, root, flags))
  }

  function ParseHash(lib: Hashes, data: bytes): Result<Descriptor> {
    var fields :- Unpack(Big, HASH_FORMAT, Slice(data, 0, HASH_SIZE));
    var Int(tag, Int(nbf, Int(isz, lengths))) := fields;
    var Str(alg0, Int(nl, Int(sl, Int(dl, Int(flags, _))))) := lengths;
    if tag != 2 || nbf != Following(HASH_SIZE, nl + sl + dl) then Err(LookupError)
    else
      var (name, salt, digest) := Tail(data, HASH_SIZE, nl, sl, dl);
      var alg :- CheckAlgorithm(lib.plain, alg0, name, dl);
      Ok(Hash(isz, alg, name, salt, digest, flags))
  }

  function ParseCmdline(data: bytes): Result<Descriptor> {
    var Int(tag, Int(nbf, Int(flags, Int(len, _)))) :- Unpack(Big, CMDLINE_FORMAT, Slice(data, 0, CMDLINE_SIZE));
    if tag != 3 || nbf != Following(CMDLINE_SIZE, len) then Err(LookupError)
    else
      var cmdline := Slice(data, CMDLINE_SIZE, CMDLINE_SIZE + len);
      if !Utf8(cmdline) then Err(LookupError) else Ok(KernelCmdline(flags, cmdline))
  }

  function ParseChain(data: bytes): Result<Descriptor> {
    var fields :- Unpack(Big, CHAIN_FORMAT, Slice(data, 0, CHAIN_SIZE));
    var Int(tag, Int(nbf, Int(loc, Int(nl, Int(kl, Int(flags, _)))))) := fields;
    if tag != 4 || nbf != Following(CHAIN_SIZE, nl + kl) then Err(LookupError)
    else
      var name := Slice(data, CHAIN_SIZE, CHAIN_SIZE + nl);
      if !Utf8(name) then Err(LookupError)
      else Ok(ChainPartition(loc, name, Slice(data, CHAIN_SIZE + nl, CHAIN_SIZE + nl + kl), flags))
  }

  function ParseUnknown(data: bytes): Result<Descriptor> {
    var Int(tag, Int(nbf, _)) :- Unpack(Big, DESCRIPTOR_FORMAT, Slice(data, 0, 16));
    Ok(Unknown(tag, Slice(data, 16, 16 + nbf)))
  }

  /** The class chosen by tag parses its own slice of the blob. */
  function ParseOne(lib: Hashes, tag: nat, data: bytes): Result<Descriptor> {
    if tag == 0 then ParseProperty(data)
    else if tag == 1 then ParseHashtree(lib, data)
    else if tag == 2 then ParseHash(lib, data)
    else if tag == 3 then ParseCmdline(data)
    else if tag == 4 then ParseChain(data)
    else ParseUnknown(data)
  }

  function Parse(lib: Hashes, data: bytes): Result<seq<Descriptor>>
    decreases |data|
  {
    if data == [] then Ok([])
    else
      var Int(tag, Int(nbf, _)) :- Unpack(Big, DESCRIPTOR_FORMAT, Slice(data, 0, 16));
      var d :- ParseOne(lib, tag, Slice(data, 0, 16 + nbf));
      var ds :- Parse(lib, Slice(data, 16 + nbf, |data|));
      Ok([d] + ds)
  }

  // ------------------------------------------------------------- the two are inverse

  lemma EncodeParts(lib: Hashes, d: Descriptor)
    requires WF(lib, d)
    ensures var data := Encode(lib, d);
            && Slice(data, 0, HeaderSize(d)) == EncodeHeader(lib, d)
            && HeaderSize(d) + |Body(d)| <= |data|
            && data[HeaderSize(d)..HeaderSize(d) + |Body(d)|] == Body(d)
  {
    FollowingFits(lib, d);
    hide EncodeHeader, WF, Body, HeaderSize, FollowingOf;
    Middle(EncodeHeader(lib, d), Body(d), Zeros(FollowingOf(d) - (HeaderSize(d) - 16 + |Body(d)|)));
  }

  lemma Middle(h: bytes, b: bytes, z: bytes)
    ensures Slice(h + (b + z), 0, |h|) == h
    ensures (h + (b + z))[|h|..|h| + |b|] == b
  {
  }

  lemma HeaderUnpacks(lib: Hashes, d: Descriptor)
    requires WF(lib, d)
    ensures Unpack(Big, FormatOf(d), EncodeHeader(lib, d)) == Ok(FieldsOf(d, FollowingOf(d)))
  {
    hide WF, FieldsOf, FormatOf, FollowingOf, HeaderSize;
    FieldsExact(lib, d);
    UnpackPack(Big, FormatOf(d), FieldsOf(d, FollowingOf(d)));
  }

  /** Every descriptor begins with its tag and the number of bytes that follow. */
  lemma PrefixUnpacks(lib: Hashes, d: Descriptor)
    requires WF(lib, d)
    ensures |Encode(lib, d)| >= 16
    ensures Unpack(Big, DESCRIPTOR_FORMAT, Slice(Encode(lib, d), 0, 16))
         == Ok(Int(Tag(d), Int(FollowingOf(d), Done)))
  {
    var nbf := FollowingOf(d);
    FieldsExact(lib, d);
    FollowingFits(lib, d);
    ExactFits(FormatOf(d), FieldsOf(d, nbf));
    TagFits(lib, d);
    var data, h := Encode(lib, d), EncodeHeader(lib, d);
    PackPrefix(FormatOf(d), FieldsOf(d, nbf));
    TagFirst(d, nbf);
    var v := Int(Tag(d), Int(nbf, Done));
    assert Exact(DESCRIPTOR_FORMAT, v);
    UnpackPack(Big, DESCRIPTOR_FORMAT, v);
    hide EncodeHeader, WF, Body, HeaderSize, FollowingOf, FormatOf, FieldsOf;
    assert Slice(data, 0, 16) == h[..16];
  }

  lemma TagFits(lib: Hashes, d: Descriptor)
    requires WF(lib, d)
    ensures Tag(d) < U64 && HeaderSize(d) >= 16
  {
  }

  lemma TagFirst(d: Descriptor, nbf: nat)
    ensures var vs := FieldsOf(d, nbf); vs.Int? && vs.n == Tag(d) && vs.more.Int? && vs.more.n == nbf
    ensures var f := FormatOf(d); f.U? && f.width == 8 && f.after.U? && f.after.width == 8
  {
  }

  lemma PackPrefix(f: Format, vs: Values)
    requires Fits(f, vs) && vs.Int? && vs.more.Int? && f.U? && f.width == 8 && f.after.U? && f.after.width == 8
    ensures Fits(DESCRIPTOR_FORMAT, Int(vs.n, Int(vs.more.n, Done)))
    ensures |Pack(Big, f, vs)| >= 16
    ensures Pack(Big, f, vs)[..16] == Pack(Big, DESCRIPTOR_FORMAT, Int(vs.n, Int(vs.more.n, Done)))
  {
    var a, b, c := PackInt(Big, vs.n, 8), PackInt(Big, vs.more.n, 8), Pack(Big, f.after.after, vs.more.more);
    assert Pack(Big, f, vs) == a + (b + c);
    assert Pack(Big, DESCRIPTOR_FORMAT, Int(vs.n, Int(vs.more.n, Done))) == a + (b + []);
    assert (a + (b + c))[..16] == a + (b + []);
  }

  lemma SliceOfWindow(data: bytes, at: nat, body: bytes, p: nat, q: nat)
    requires at + |body| <= |data| && data[at..at + |body|] == body && p <= q <= |body|
    ensures Slice(data, at + p, at + q) == body[p..q]
  {
    SubSlice(data, at, at + |body|, p, q);
  }

  lemma ThreeParts(a: bytes, b: bytes, c: bytes)
    ensures var s := a + (b + c);
            && |s| == |a| + |b| + |c|
            && s[0..|a|] == a && s[|a|..|a| + |b|] == b && s[|a| + |b|..|a| + |b| + |c|] == c
  {
    Assoc(a, b, c);
    var s := (a + b) + c;
    assert s[..|a| + |b|] == a + b && s[|a| + |b|..] == c;
    SubSlice(s, 0, |a| + |b|, |a|, |a| + |b|);
  }

  lemma TailOf(data: bytes, at: nat, a: bytes, b: bytes, c: bytes)
    requires at + |a + (b + c)| <= |data| && data[at..at + |a + (b + c)|] == a + (b + c)
    ensures Tail(data, at, |a|, |b|, |c|) == (a, b, c)
  {
    var s := a + (b + c);
    ThreeParts(a, b, c);
    SliceOfWindow(data, at, s, 0, |a|);
    SliceOfWindow(data, at, s, |a|, |a| + |b|);
    SliceOfWindow(data, at, s, |a| + |b|, |s|);
  }

  lemma CheckAlgorithmOk(lib: HashLib, alg: bytes, name: bytes, digest: bytes)
    requires AlgorithmField(lib, alg, digest) && Utf8(name)
    ensures CheckAlgorithm(lib, Resize(alg, 32), name, |digest|) == Ok(alg)
  {
    RStripResize(alg, 32);
  }

  lemma PropertyRoundTrip(lib: Hashes, d: Descriptor)
    requires WF(lib, d) && d.Property?
    ensures ParseProperty(Encode(lib, d)) == Ok(d)
  {
    hide Unpack, Slice, Encode, EncodeHeader, Utf8, Following, WF, FollowingOf, ParseProperty, FieldsOf,
      RoundToMultiple, Pack, Exact, HasSize;
    var data := Encode(lib, d);
    EncodeParts(lib, d);
    HeaderUnpacks(lib, d);
    PropertyFields(lib, d);
    PropertyParts(data, d.key, d.value);
    ParsePropertyFrom(data, d);
  }

  lemma ParsePropertyFrom(data: bytes, d: Descriptor)
    requires d.Property? && Utf8(d.key)
    requires Unpack(Big, PROPERTY_FORMAT, Slice(data, 0, PROPERTY_SIZE))
          == Ok(FieldsOf(d, Following(PROPERTY_SIZE, |d.key| + |d.value| + 2)))
    requires Slice(data, PROPERTY_SIZE, PROPERTY_SIZE + |d.key|) == d.key
    requires Slice(data, PROPERTY_SIZE + |d.key| + 1, PROPERTY_SIZE + |d.key| + 1 + |d.value|) == d.value
    ensures ParseProperty(data) == Ok(d)
  {
    hide Unpack, Exact, HasSize, Slice, Utf8, Following;
  }

  lemma PropertyParts(data: bytes, key: bytes, value: bytes)
    requires var b := key + ([0] + (value + [0]));
             PROPERTY_SIZE + |b| <= |data| && data[PROPERTY_SIZE..PROPERTY_SIZE + |b|] == b
    ensures Slice(data, PROPERTY_SIZE, PROPERTY_SIZE + |key|) == key
    ensures Slice(data, PROPERTY_SIZE + |key| + 1, PROPERTY_SIZE + |key| + 1 + |value|) == value
  {
    var b, k := key + ([0] + (value + [0])), |key|;
    SliceOfWindow(data, PROPERTY_SIZE, b, 0, k);
    SliceOfWindow(data, PROPERTY_SIZE, b, k + 1, k + 1 + |value|);
    assert b[0..k] == key && b[k + 1..k + 1 + |value|] == value;
  }

  lemma PropertyFields(lib: Hashes, d: Descriptor)
    requires WF(lib, d) && d.Property?
    ensures Utf8(d.key) && FollowingOf(d) == Following(PROPERTY_SIZE, |d.key| + |d.value| + 2)
  {
  }

  lemma HashtreeRoundTrip(lib: Hashes, d: Descriptor)
    requires WF(lib, d) && d.Hashtree?
    ensures ParseHashtree(lib, Encode(lib, d)) == Ok(d)
  {
    hide Unpack, Slice, Encode, EncodeHeader, Utf8, Tail, CheckAlgorithm, Following, WF, AlgorithmField, Resize,
      FollowingOf, ParseHashtree, FieldsOf, RoundToMultiple, Pack, Exact, HasSize;
    var data := Encode(lib, d);
    EncodeParts(lib, d);
    HeaderUnpacks(lib, d);
    HashtreeFields(lib, d);
    TailOf(data, HASHTREE_SIZE, d.name, d.salt, d.rootDigest);
    CheckAlgorithmOk(lib.tree, d.algorithm, d.name, d.rootDigest);
    ParseHashtreeFrom(lib, data, d);
  }

  lemma ParseHashtreeFrom(lib: Hashes, data: bytes, d: Descriptor)
    requires d.Hashtree?
    requires Unpack(Big, HASHTREE_FORMAT, Slice(data, 0, HASHTREE_SIZE))
          == Ok(FieldsOf(d, Following(HASHTREE_SIZE, |d.name| + |d.salt| + |d.rootDigest|)))
    requires Tail(data, HASHTREE_SIZE, |d.name|, |d.salt|, |d.rootDigest|) == (d.name, d.salt, d.rootDigest)
    requires CheckAlgorithm(lib.tree, Resize(d.algorithm, 32), d.name, |d.rootDigest|) == Ok(d.algorithm)
    ensures ParseHashtree(lib, data) == Ok(d)
  {
    hide Unpack, Exact, HasSize, Slice, Tail, CheckAlgorithm, Following, Resize;
  }

  lemma HashtreeFields(lib: Hashes, d: Descriptor)
    requires WF(lib, d) && d.Hashtree?
    ensures Utf8(d.name) && AlgorithmField(lib.tree, d.algorithm, d.rootDigest)
    ensures FollowingOf(d) == Following(HASHTREE_SIZE, |d.name| + |d.salt| + |d.rootDigest|)
  {
    ThreeParts(d.name, d.salt, d.rootDigest);
  }

  lemma ParseHashFrom(lib: Hashes, data: bytes, isz: nat, alg: bytes, name: bytes, salt: bytes, digest: bytes,
                      flags: nat)
    requires Unpack(Big, HASH_FORMAT, Slice(data, 0, HASH_SIZE))
          == Ok(Int(2, Int(Following(HASH_SIZE, |name| + |salt| + |digest|),
                           Int(isz, LengthFields(alg, |name|, |salt|, |digest|, flags)))))
    requires Tail(data, HASH_SIZE, |name|, |salt|, |digest|) == (name, salt, digest)
    requires CheckAlgorithm(lib.plain, Resize(alg, 32), name, |digest|) == Ok(alg)
    ensures ParseHash(lib, data) == Ok(Hash(isz, alg, name, salt, digest, flags))
  {
    hide Unpack, Exact, HasSize, Slice, Tail, CheckAlgorithm, Following, Resize;
  }

  lemma HashRoundTrip(lib: Hashes, d: Descriptor)
    requires WF(lib, d) && d.Hash?
    ensures ParseHash(lib, Encode(lib, d)) == Ok(d)
  {
    hide Unpack, Slice, Encode, EncodeHeader, Utf8, Tail, CheckAlgorithm, Following, WF, AlgorithmField, Resize,
      FollowingOf, ParseHash, LengthFields, RoundToMultiple, Pack, Exact;
    var data := Encode(lib, d);
    EncodeParts(lib, d);
    HeaderUnpacks(lib, d);
    HashFields(lib, d);
    TailOf(data, HASH_SIZE, d.name, d.salt, d.digest);
    CheckAlgorithmOk(lib.plain, d.algorithm, d.name, d.digest);
    ParseHashFrom(lib, data, d.imageSize, d.algorithm, d.name, d.salt, d.digest, d.flags);
  }

  lemma HashFields(lib: Hashes, d: Descriptor)
    requires WF(lib, d) && d.Hash?
    ensures Utf8(d.name) && AlgorithmField(lib.plain, d.algorithm, d.digest)
    ensures FollowingOf(d) == Following(HASH_SIZE, |d.name| + |d.salt| + |d.digest|)
  {
    hide Following, Utf8;
    assert |Body(d)| == |d.name| + |d.salt| + |d.digest|;
  }

  lemma CmdlineRoundTrip(lib: Hashes, d: Descriptor)
    requires WF(lib, d) && d.KernelCmdline?
    ensures ParseCmdline(Encode(lib, d)) == Ok(d)
  {
    hide Unpack, Slice, Encode, EncodeHeader, Utf8, Following, WF, FollowingOf, ParseCmdline, FieldsOf, RoundToMultiple,
      Pack, Exact, HasSize;
    var data := Encode(lib, d);
    EncodeParts(lib, d);
    HeaderUnpacks(lib, d);
    CmdlineFields(lib, d);
    SliceOfWindow(data, CMDLINE_SIZE, d.cmdline, 0, |d.cmdline|);
    assert d.cmdline[0..|d.cmdline|] == d.cmdline;
    ParseCmdlineFrom(data, d);
  }

  lemma ParseCmdlineFrom(data: bytes, d: Descriptor)
    requires d.KernelCmdline? && Utf8(d.cmdline)
    requires Unpack(Big, CMDLINE_FORMAT, Slice(data, 0, CMDLINE_SIZE))
          == Ok(FieldsOf(d, Following(CMDLINE_SIZE, |d.cmdline|)))
    requires Slice(data, CMDLINE_SIZE, CMDLINE_SIZE + |d.cmdline|) == d.cmdline
    ensures ParseCmdline(data) == Ok(d)
  {
    hide Unpack, Exact, HasSize, Slice, Utf8, Following;
  }

  lemma CmdlineFields(lib: Hashes, d: Descriptor)
    requires WF(lib, d) && d.KernelCmdline?
    ensures Utf8(d.cmdline) && FollowingOf(d) == Following(CMDLINE_SIZE, |d.cmdline|)
  {
  }

  lemma ParseChainFrom(data: bytes, d: Descriptor)
    requires d.ChainPartition? && Utf8(d.name)
    requires Unpack(Big, CHAIN_FORMAT, Slice(data, 0, CHAIN_SIZE))
          == Ok(FieldsOf(d, Following(CHAIN_SIZE, |d.name| + |d.publicKey|)))
    requires Slice(data, CHAIN_SIZE, CHAIN_SIZE + |d.name|) == d.name
    requires Slice(data, CHAIN_SIZE + |d.name|, CHAIN_SIZE + |d.name| + |d.publicKey|) == d.publicKey
    ensures ParseChain(data) == Ok(d)
  {
    hide Unpack, Exact, HasSize, Slice, Utf8, Following;
  }

  lemma ChainFields(lib: Hashes, d: Descriptor)
    requires WF(lib, d) && d.ChainPartition?
    ensures FollowingOf(d) == Following(CHAIN_SIZE, |d.name| + |d.publicKey|) && Utf8(d.name)
  {
  }

  lemma ChainRoundTrip(lib: Hashes, d: Descriptor)
    requires WF(lib, d) && d.ChainPartition?
    ensures ParseChain(Encode(lib, d)) == Ok(d)
  {
    hide Unpack, Slice, Encode, EncodeHeader, Utf8, Following, WF, FollowingOf, ParseChain, FieldsOf, Pack, Exact,
      RoundToMultiple;
    var data := Encode(lib, d);
    EncodeParts(lib, d);
    HeaderUnpacks(lib, d);
    ChainFields(lib, d);
    ChainParts(data, d.name, d.publicKey);
    ParseChainFrom(data, d);
  }

  lemma ChainParts(data: bytes, a: bytes, b: bytes)
    requires CHAIN_SIZE + |a + b| <= |data| && data[CHAIN_SIZE..CHAIN_SIZE + |a + b|] == a + b
    ensures Slice(data, CHAIN_SIZE, CHAIN_SIZE + |a|) == a
    ensures Slice(data, CHAIN_SIZE + |a|, CHAIN_SIZE + |a| + |b|) == b
  {
    SliceOfWindow(data, CHAIN_SIZE, a + b, 0, |a|);
    SliceOfWindow(data, CHAIN_SIZE, a + b, |a|, |a + b|);
    assert (a + b)[0..|a|] == a && (a + b)[|a|..|a + b|] == b;
  }

  lemma UnknownRoundTrip(lib: Hashes, d: Descriptor)
    requires WF(lib, d) && d.Unknown?
    ensures ParseUnknown(Encode(lib, d)) == Ok(d)
  {
    EncodeParts(lib, d);
    HeaderUnpacks(lib, d);
    hide Unpack, Pack, Exact, HasSize, Slice, Zeros, Encode, EncodeHeader;
    assert FollowingOf(d) == |d.data|;
    SliceOfWindow(Encode(lib, d), 16, Body(d), 0, |d.data|);
  }

  lemma OneRoundTrip(lib: Hashes, d: Descriptor)
    requires WF(lib, d)
    ensures ParseOne(lib, Tag(d), Encode(lib, d)) == Ok(d)
  {
    hide Encode, ParseProperty, ParseHashtree, ParseHash, ParseCmdline, ParseChain, ParseUnknown;
    match d
    case Property(_, _) => PropertyRoundTrip(lib, d);
    case Hashtree(_, _, _, _, _, _, _, _, _, _, _, _, _, _) => HashtreeRoundTrip(lib, d);
    case Hash(_, _, _, _, _, _) => HashRoundTrip(lib, d);
    case KernelCmdline(_, _) => CmdlineRoundTrip(lib, d);
    case ChainPartition(_, _, _, _) => ChainRoundTrip(lib, d);
    case Unknown(_, _) => UnknownRoundTrip(lib, d);
  }

  /** A well-formed descriptor in front is parsed, whatever follows it. */
  lemma ParseFirst(lib: Hashes, d: Descriptor, rest: bytes)
    requires WF(lib, d)
    ensures Parse(lib, Encode(lib, d) + rest)
         == if Parse(lib, rest).Ok? then Ok([d] + Parse(lib, rest).value) else Err(Parse(lib, rest).error)
  {
    hide WF, ParseOne, Encode, Unpack, FollowingOf, Tag;
    PrefixUnpacks(lib, d);
    OneRoundTrip(lib, d);
    FrontAndRest(Encode(lib, d), rest);
  }

  /** Parsing the concatenated encodings of any well-formed descriptors returns them. */
  lemma {:induction false} ParseEncodeAll(lib: Hashes, ds: seq<Descriptor>)
    requires forall i :: 0 <= i < |ds| ==> WF(lib, ds[i])
    ensures Parse(lib, EncodeAll(lib, ds)) == Ok(ds)
    ensures |EncodeAll(lib, ds)| % 8 == 0
  {
    hide WF, Encode, Parse, FollowingOf;
    if ds == [] {
      ParseNothing(lib);
    } else {
      var d, t := ds[0], ds[1..];
      ParseEncodeAll(lib, t);
      EncodeWhole(lib, d);
      ParseFirst(lib, d, EncodeAll(lib, t));
      assert ds == [d] + t;
    }
  }

  lemma ParseNothing(lib: Hashes)
    ensures Parse(lib, []) == Ok([])
  {
  }

  // ------------------------------------------------------------- what parsing accepts

  /** A number in octets i to j of data. */
  function At(data: bytes, i: nat, j: nat): (n: nat)
    requires i <= j <= |data|
  {
    FromBERoundTrip(data[i..j]);
    FromBE(data[i..j])
  }

  lemma UnpackAt(data: bytes, size: nat, o: nat, f: Format, vs: Values)
    requires o <= size <= |data| && Unpack(Big, f, data[..size][o..]) == Ok(vs)
    ensures f.U? ==>
              && vs.Int? && o + f.width <= size && vs.n == At(data, o, o + f.width)
              && Unpack(Big, f.after, data[..size][o + f.width..]) == Ok(vs.more)
    ensures f.S? ==>
              && vs.Str? && o + f.len <= size && vs.s == data[o..o + f.len]
              && Unpack(Big, f.after, data[..size][o + f.len..]) == Ok(vs.more)
  {
    hide Unpack;
    Unfield(data[..size], o, Big, f, vs);
    if f.U? {
      assert data[..size][o..o + f.width] == data[o..o + f.width];
    }
    if f.S? {
      assert data[..size][o..o + f.len] == data[o..o + f.len];
    }
  }

  /** A kernel command line is accepted when tag, length and text are right; padding is not looked at. */
  lemma CmdlineParsed(data: bytes)
    ensures var r := ParseCmdline(data);
            && (r.Ok? <==>
                  && |data| >= 24 && At(data, 0, 8) == 3
                  && At(data, 8, 16) == RoundToMultiple(8 + At(data, 20, 24), 8)
                  && Utf8(Slice(data, 24, 24 + At(data, 20, 24))))
            && (r.Ok? ==> r.value == KernelCmdline(At(data, 16, 20), Slice(data, 24, 24 + At(data, 20, 24))))
  {
    hide Unpack, Utf8, At, RoundToMultiple;
    if |data| >= 24 {
      assert Slice(data, 0, 24) == data[..24] == data[..24][0..];
      var f, v := CMDLINE_FORMAT, Unpack(Big, CMDLINE_FORMAT, data[..24]).value;
      UnpackAt(data, 24, 0, f, v);
      f, v := f.after, v.more;
      UnpackAt(data, 24, 8, f, v);
      f, v := f.after, v.more;
      UnpackAt(data, 24, 16, f, v);
      f, v := f.after, v.more;
      UnpackAt(data, 24, 20, f, v);
    }
  }

  /** A property is accepted when tag, length and key are right; its value is any bytes. */
  lemma PropertyParsed(data: bytes)
    ensures var r := ParseProperty(data);
            && (r.Ok? <==>
                  && |data| >= 32 && At(data, 0, 8) == 0
                  && At(data, 8, 16) == RoundToMultiple(18 + At(data, 16, 24) + At(data, 24, 32), 8)
                  && Utf8(Slice(data, 32, 32 + At(data, 16, 24))))
            && (r.Ok? ==> var k := At(data, 16, 24);
                  r.value == Property(Slice(data, 32, 32 + k), Slice(data, 33 + k, 33 + k + At(data, 24, 32))))
  {
    hide Unpack, Utf8, At, RoundToMultiple;
    if |data| >= 32 {
      assert Slice(data, 0, 32) == data[..32] == data[..32][0..];
      var f, v := PROPERTY_FORMAT, Unpack(Big, PROPERTY_FORMAT, data[..32]).value;
      UnpackAt(data, 32, 0, f, v);
      f, v := f.after, v.more;
      UnpackAt(data, 32, 8, f, v);
      f, v := f.after, v.more;
      UnpackAt(data, 32, 16, f, v);
      f, v := f.after, v.more;
      UnpackAt(data, 32, 24, f, v);
    }
  }

  /** A chain partition is accepted when tag, length and name are right. */
  lemma ChainParsed(data: bytes)
    ensures var r := ParseChain(data);
            && (r.Ok? <==>
                  && |data| >= 92 && At(data, 0, 8) == 4
                  && At(data, 8, 16) == RoundToMultiple(76 + At(data, 20, 24) + At(data, 24, 28), 8)
                  && Utf8(Slice(data, 92, 92 + At(data, 20, 24))))
            && (r.Ok? ==> var n, k := At(data, 20, 24), At(data, 24, 28);
                  r.value == ChainPartition(At(data, 16, 20), Slice(data, 92, 92 + n), Slice(data, 92 + n, 92 + n + k),
                                            At(data, 28, 32)))
  {
    hide Unpack, Utf8, At, RoundToMultiple;
    if |data| >= 92 {
      assert Slice(data, 0, 92) == data[..92] == data[..92][0..];
      var f, v := CHAIN_FORMAT, Unpack(Big, CHAIN_FORMAT, data[..92]).value;
      UnpackAt(data, 92, 0, f, v);
      f, v := f.after, v.more;
      UnpackAt(data, 92, 8, f, v);
      f, v := f.after, v.more;
      UnpackAt(data, 92, 16, f, v);
      f, v := f.after, v.more;
      UnpackAt(data, 92, 20, f, v);
      f, v := f.after, v.more;
      UnpackAt(data, 92, 24, f, v);
      f, v := f.after, v.more;
      UnpackAt(data, 92, 28, f, v);
    }
  }

  /** What the algorithm field, the name and the digest length of a descriptor must be. */
  predicate Known(lib: HashLib, field: bytes, name: bytes, digestLen: nat) {
    var alg := RStrip(field);
    Ascii(alg) && Utf8(name) && lib.size(alg).Some? && (digestLen == 0 || Some(digestLen) == lib.size(alg))
  }

  lemma KnownIff(lib: HashLib, field: bytes, name: bytes, digestLen: nat)
    ensures var r := CheckAlgorithm(lib, field, name, digestLen);
            (r.Ok? <==> Known(lib, field, name, digestLen)) && (r.Ok? ==> r.value == RStrip(field))
  {
    hide Ascii, Utf8, RStrip;
  }

  /** The algorithm field, the three lengths and the flags, where they begin at octet o. */
  lemma LengthsAt(data: bytes, size: nat, o: nat, vs: Values)
    requires o <= size <= |data| && Unpack(Big, LENGTHS_FORMAT, data[..size][o..]) == Ok(vs)
    ensures o + 48 <= size && vs.Str? && vs.s == data[o..o + 32]
    ensures var w := vs.more;
            && w.Int? && w.n == At(data, o + 32, o + 36) && w.more.Int? && w.more.n == At(data, o + 36, o + 40)
            && w.more.more.Int? && w.more.more.n == At(data, o + 40, o + 44)
            && w.more.more.more.Int? && w.more.more.more.n == At(data, o + 44, o + 48)
  {
    hide Unpack, At;
    var f, v := LENGTHS_FORMAT, vs;
    UnpackAt(data, size, o, f, v);
    f, v := f.after, v.more;
    UnpackAt(data, size, o + 32, f, v);
    f, v := f.after, v.more;
    UnpackAt(data, size, o + 36, f, v);
    f, v := f.after, v.more;
    UnpackAt(data, size, o + 40, f, v);
    f, v := f.after, v.more;
    UnpackAt(data, size, o + 44, f, v);
  }

  lemma HashSize(n: int)
    ensures HasSize(HASH_FORMAT, n) <==> n == HASH_SIZE
  {
    LengthsSize(n - 24);
  }

  lemma FrontSize(data: bytes, n: nat)
    ensures |Slice(data, 0, n)| == if n <= |data| then n else |data|
    ensures n <= |data| ==> Slice(data, 0, n) == data[..n]
  {
  }

  /** A hash descriptor is accepted when tag and length are right and algorithm, name and digest length are known. */
  lemma HashParsed(lib: Hashes, data: bytes)
    ensures var r := ParseHash(lib, data);
            && (r.Ok? ==> |data| >= 132)
            && (|data| >= 132 ==>
                  var n, m, k := At(data, 56, 60), At(data, 60, 64), At(data, 64, 68);
                  var name := Slice(data, 132, 132 + n);
                  && (r.Ok? <==>
                        && At(data, 0, 8) == 2 && At(data, 8, 16) == RoundToMultiple(116 + n + m + k, 8)
                        && Known(lib.plain, data[24..56], name, k))
                  && (r.Ok? ==>
                        r.value == Hash(At(data, 16, 24), RStrip(data[24..56]), name,
                                        Slice(data, 132 + n, 132 + n + m), Slice(data, 132 + n + m, 132 + n + m + k),
                                        At(data, 68, 72))))
  {
    hide Unpack, CheckAlgorithm, Known, At, RoundToMultiple, RStrip, Exact, HasSize, Slice;
    HashSize(|Slice(data, 0, 132)|);
    FrontSize(data, 132);
    if |data| >= 132 {
      assert data[..132] == data[..132][0..];
      var f, v := HASH_FORMAT, Unpack(Big, HASH_FORMAT, data[..132]).value;
      UnpackAt(data, 132, 0, f, v);
      f, v := f.after, v.more;
      UnpackAt(data, 132, 8, f, v);
      f, v := f.after, v.more;
      UnpackAt(data, 132, 16, f, v);
      LengthsAt(data, 132, 24, v.more);
      KnownIff(lib.plain, data[24..56], Slice(data, 132, 132 + At(data, 56, 60)), At(data, 64, 68));
    }
  }

  /** Block sizes and error correction fields of a hashtree descriptor, and the rest of it. */
  lemma PlacesAt(data: bytes, vs: Values)
    requires 180 <= |data| && Unpack(Big, PLACES_FORMAT, data[..180][44..]) == Ok(vs)
    ensures vs.Int? && vs.n == At(data, 44, 48) && vs.more.Int? && vs.more.n == At(data, 48, 52)
    ensures var w := vs.more.more;
            && w.Int? && w.n == At(data, 52, 56) && w.more.Int? && w.more.n == At(data, 56, 64)
            && w.more.more.Int? && w.more.more.n == At(data, 64, 72)
            && Unpack(Big, LENGTHS_FORMAT, data[..180][72..]) == Ok(w.more.more.more)
  {
    hide Unpack, At;
    var f, v := PLACES_FORMAT, vs;
    UnpackAt(data, 180, 44, f, v);
    f, v := f.after, v.more;
    UnpackAt(data, 180, 48, f, v);
    f, v := f.after, v.more;
    UnpackAt(data, 180, 52, f, v);
    f, v := f.after, v.more;
    UnpackAt(data, 180, 56, f, v);
    f, v := f.after, v.more;
    UnpackAt(data, 180, 64, f, v);
  }

  lemma FrontAt(data: bytes, vs: Values)
    requires 180 <= |data| && Unpack(Big, HASHTREE_FORMAT, data[..180]) == Ok(vs)
    ensures vs.Int? && vs.n == At(data, 0, 8) && vs.more.Int? && vs.more.n == At(data, 8, 16)
    ensures var w := vs.more.more;
            && w.Int? && w.n == At(data, 16, 20) && w.more.Int? && w.more.n == At(data, 20, 28)
            && w.more.more.Int? && w.more.more.n == At(data, 28, 36)
            && w.more.more.more.Int? && w.more.more.more.n == At(data, 36, 44)
            && Unpack(Big, PLACES_FORMAT, data[..180][44..]) == Ok(w.more.more.more.more)
  {
    hide Unpack, At;
    assert data[..180][0..] == data[..180];
    var f, v := HASHTREE_FORMAT, vs;
    UnpackAt(data, 180, 0, f, v);
    f, v := f.after, v.more;
    UnpackAt(data, 180, 8, f, v);
    f, v := f.after, v.more;
    UnpackAt(data, 180, 16, f, v);
    f, v := f.after, v.more;
    UnpackAt(data, 180, 20, f, v);
    f, v := f.after, v.more;
    UnpackAt(data, 180, 28, f, v);
    f, v := f.after, v.more;
    UnpackAt(data, 180, 36, f, v);
  }

  /** A hashtree descriptor likewise; it may name the algorithms of hash trees. */
  lemma HashtreeParsed(lib: Hashes, data: bytes)
    ensures var r := ParseHashtree(lib, data);
            && (r.Ok? ==> |data| >= 180)
            && (|data| >= 180 ==>
                  var n, m, k := At(data, 104, 108), At(data, 108, 112), At(data, 112, 116);
                  var name := Slice(data, 180, 180 + n);
                  && (r.Ok? <==>
                        && At(data, 0, 8) == 1 && At(data, 8, 16) == RoundToMultiple(164 + n + m + k, 8)
                        && Known(lib.tree, data[72..104], name, k))
                  && (r.Ok? ==>
                        r.value == Hashtree(At(data, 16, 20), At(data, 20, 28), At(data, 28, 36), At(data, 36, 44),
                                            At(data, 44, 48), At(data, 48, 52), At(data, 52, 56), At(data, 56, 64),
                                            At(data, 64, 72), RStrip(data[72..104]), name,
                                            Slice(data, 180 + n, 180 + n + m),
                                            Slice(data, 180 + n + m, 180 + n + m + k), At(data, 116, 120))))
  {
    hide Unpack, CheckAlgorithm, Known, At, RoundToMultiple, RStrip, Exact, HasSize, Slice;
    HashtreeSize(|Slice(data, 0, 180)|);
    FrontSize(data, 180);
    if |data| >= 180 {
      var v := Unpack(Big, HASHTREE_FORMAT, data[..180]).value;
      FrontAt(data, v);
      var w := v.more.more.more.more.more.more;
      PlacesAt(data, w);
      LengthsAt(data, 180, 72, w.more.more.more.more.more);
      KnownIff(lib.tree, data[72..104], Slice(data, 180, 180 + At(data, 104, 108)), At(data, 112, 116));
    }
  }

  /** The list begins with 16 octets that say how long the first descriptor is and of which class. */
  lemma ParseFront(lib: Hashes, data: bytes)
    requires data != []
    ensures |data| < 16 ==> Parse(lib, data) == Err(StructError)
    ensures |data| >= 16 ==>
              var n := 16 + At(data, 8, 16);
              var d, ds := ParseOne(lib, At(data, 0, 8), Slice(data, 0, n)), Parse(lib, Slice(data, n, |data|));
              Parse(lib, data)
              == if d.Err? then Err(d.error) else if ds.Err? then Err(ds.error) else Ok([d.value] + ds.value)
  {
    hide Unpack, ParseOne, At;
    FrontSize(data, 16);
    if |data| >= 16 {
      assert data[..16] == data[..16][0..];
      var v := Unpack(Big, DESCRIPTOR_FORMAT, data[..16]).value;
      UnpackAt(data, 16, 0, DESCRIPTOR_FORMAT, v);
      UnpackAt(data, 16, 8, DESCRIPTOR_FORMAT.after, v.more);
    }
  }

  /** NUL bytes are no descriptors: they announce a property that is shorter than its own fixed part. */
  lemma NulsRefused(lib: Hashes, n: nat)
    requires n >= 16
    ensures Parse(lib, Zeros(n)) == Err(StructError)
  {
    var z, h := Zeros(n), Slice(Zeros(n), 0, 16);
    assert h[..8] == Zeros(8) && h[8..][..8] == Zeros(8);
    ZerosAreZero(8);
    assert UnpackInt(Big, h[..8]) == 0 && UnpackInt(Big, h[8..][..8]) == 0;
    assert Unpack(Big, DESCRIPTOR_FORMAT, h).value == Int(0, Int(0, Done));
    assert |Slice(z, 0, 16)| == 16;
    assert Unpack(Big, PROPERTY_FORMAT, Slice(h, 0, PROPERTY_SIZE)) == Err(StructError);
    hide Unpack;
    assert ParseProperty(h) == Err(StructError);
  }

  lemma FrontAndRest(e: bytes, rest: bytes)
    requires |e| >= 16
    ensures Slice(e + rest, 0, 16) == Slice(e, 0, 16)
    ensures Slice(e + rest, 0, |e|) == e
    ensures Slice(e + rest, |e|, |e + rest|) == rest
  {
  }

  /** The loop of parse_descriptors. */
  method ParseDescriptors(lib: Hashes, data: bytes) returns (r: Result<seq<Descriptor>>)
    ensures r == Parse(lib, data)
  {
    hide ParseOne, Unpack, Slice;
    var o: nat, ret: seq<Descriptor> := 0, [];
    SliceWhole(data);
    AfterNothing(Parse(lib, data));
    while o < |data|
      invariant After(ret, Parse(lib, Slice(data, o, |data|))) == Parse(lib, data)
      decreases |data| - o
    {
      SliceWithin(data, o, 0, 16);
      var hr := Unpack(Big, DESCRIPTOR_FORMAT, Slice(data, o, o + 16));
      if hr.Err? {
        return Err(hr.error);
      }
      var Int(tag, Int(nbf, _)) := hr.value;
      SliceWithin(data, o, 0, 16 + nbf);
      SliceWithin(data, o, 16 + nbf, |Slice(data, o, |data|)|);
      var d := ParseOne(lib, tag, Slice(data, o, o + 16 + nbf));
      if d.Err? {
        return Err(d.error);
      }
      AfterStep(ret, d.value, Parse(lib, Slice(data, o + 16 + nbf, |data|)));
      ret := ret + [d.value];
      o := o + 16 + nbf;
    }
    SliceNothing(data, o);
    assert ret + [] == ret;
    return Ok(ret);
  }

  lemma SliceWhole(s: bytes)
    ensures Slice(s, 0, |s|) == s
  {
  }

  lemma SliceWithin(s: bytes, o: nat, a: nat, b: nat)
    requires o <= |s|
    ensures |Slice(s, o, |s|)| == |s| - o
    ensures Slice(Slice(s, o, |s|), a, b) == Slice(s, o + a, o + b)
  {
    if a <= b && o + a <= |s| {
      DropSplit(s, o, a);
      var hi := if o + b <= |s| then o + b else |s|;
      SubSlice(s, o, |s|, a, hi - o);
    }
  }

  ghost function After(ds: seq<Descriptor>, r: Result<seq<Descriptor>>): Result<seq<Descriptor>> {
    if r.Ok? then Ok(ds + r.value) else r
  }

  lemma AfterNothing(r: Result<seq<Descriptor>>)
    ensures After([], r) == r
  {
    if r.Ok? {
      assert [] + r.value == r.value;
    }
  }

  lemma AfterStep(ds: seq<Descriptor>, d: Descriptor, r: Result<seq<Descriptor>>)
    ensures After(ds + [d], r) == After(ds, if r.Ok? then Ok([d] + r.value) else r)
  {
    if r.Ok? {
      Assoc(ds, [d], r.value);
    }
  }
}
