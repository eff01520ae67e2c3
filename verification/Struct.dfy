/** The struct module: records of fixed-width integers, byte strings and pad bytes. */
module Struct {
  import opened Bytes

  /** A format is a list of unsigned integers of a given width, byte strings and pad bytes. */
  datatype Format = End | U(width: nat, after: Format) | S(len: nat, after: Format) | X(pad: nat, after: Format)

  /** The values of a record; pad bytes have none. */
  datatype Values = Done | Int(n: int, more: Values) | Str(s: bytes, more: Values)

  datatype Endian = Little | Big

  /** struct.calcsize(fmt) == n */
  predicate HasSize(fmt: Format, n: int)
    decreases fmt
  {
    match fmt
    case End => n == 0
    case U(w, rest) => HasSize(rest, n - w)
    case S(l, rest) => HasSize(rest, n - l)
    case X(p, rest) => HasSize(rest, n - p)
  }

  /** One past the largest integer that fits w bytes: the struct codes B, H, L and Q, spelled out. */
  function Limit(w: nat): nat {
    if w == 1 then 0x100
    else if w == 2 then 0x1_0000
    else if w == 4 then 0x1_0000_0000
    else if w == 8 then 0x1_0000_0000_0000_0000
    else Pow256(w)
  }

  lemma LimitIsPow256(w: nat)
    ensures Limit(w) == Pow256(w)
  {
    Pow256Values();
  }

  /** Kinds agree and every integer is in range; otherwise the program raises struct.error. */
  predicate Fits(fmt: Format, vs: Values)
    decreases fmt
  {
    match fmt
    case End => vs.Done?
    case U(w, rest) => vs.Int? && 0 <= vs.n < Limit(w) && Fits(rest, vs.more)
    case S(l, rest) => vs.Str? && Fits(rest, vs.more)
    case X(p, rest) => Fits(rest, vs)
  }

  /** The values are ones that unpacking can return: strings fill their field exactly. */
  predicate Exact(fmt: Format, vs: Values)
    decreases fmt
  {
    match fmt
    case End => vs.Done?
    case U(w, rest) => vs.Int? && 0 <= vs.n < Limit(w) && Exact(rest, vs.more)
    case S(l, rest) => vs.Str? && |vs.s| == l && Exact(rest, vs.more)
    case X(p, rest) => Exact(rest, vs)
  }

  lemma ExactInt(w: nat, rest: Format, n: int, more: Values)
    requires 0 <= n < Limit(w) && Exact(rest, more)
    ensures Exact(U(w, rest), Int(n, more))
  {
  }

  function PackInt(e: Endian, v: nat, w: nat): (r: bytes)
    ensures |r| == w
  {
    if e == Little then LE(v, w) else BE(v, w)
  }

  function UnpackInt(e: Endian, s: bytes): (v: nat)
    ensures v < Limit(|s|)
  {
    FromLERoundTrip(s);
    FromBERoundTrip(s);
    LimitIsPow256(|s|);
    if e == Little then FromLE(s) else FromBE(s)
  }

  /** struct.pack: a string is cut or NUL-padded to its field, pad bytes are NUL. */
  function Pack(e: Endian, fmt: Format, vs: Values): (r: bytes)
    requires Fits(fmt, vs)
    ensures HasSize(fmt, |r|)
    decreases fmt
  {
    match fmt
    case End => []
    case U(w, rest) => PackInt(e, vs.n, w) + Pack(e, rest, vs.more)
    case S(l, rest) => Resize(vs.s, l) + Pack(e, rest, vs.more)
    case X(p, rest) => Zeros(p) + Pack(e, rest, vs)
  }

  /** struct.unpack: the buffer must have exactly the size of the format. */
  function Unpack(e: Endian, fmt: Format, s: bytes): (r: Result<Values>)
    ensures r.Ok? <==> HasSize(fmt, |s|)
    ensures r.Ok? ==> Exact(fmt, r.value)
    ensures r.Err? ==> r.error == StructError
    decreases fmt
  {
    match fmt
    case End => if s == [] then Ok(Done) else Err(StructError)
    case U(w, rest) =>
      if |s| < w then TooShort(rest, |s| - w); Err(StructError)
      else
        var vs :- Unpack(e, rest, s[w..]);
        Ok(Int(UnpackInt(e, s[..w]), vs))
    case S(l, rest) =>
      if |s| < l then TooShort(rest, |s| - l); Err(StructError)
      else
        var vs :- Unpack(e, rest, s[l..]);
        Ok(Str(s[..l], vs))
    case X(p, rest) =>
      if |s| < p then TooShort(rest, |s| - p); Err(StructError)
      else Unpack(e, rest, s[p..])
  }

  /** What a field of a record is packed to, and where the rest of the record then lies. */
  lemma Field(s: bytes, off: nat, e: Endian, fmt: Format, vs: Values)
    requires Fits(fmt, vs) && off <= |s| && s[off..] == Pack(e, fmt, vs)
    ensures fmt.U? ==>
              && vs.Int? && vs.n >= 0 && off + fmt.width <= |s|
              && s[off..off + fmt.width] == PackInt(e, vs.n, fmt.width)
              && Fits(fmt.after, vs.more) && s[off + fmt.width..] == Pack(e, fmt.after, vs.more)
    ensures fmt.S? ==>
              && vs.Str? && off + fmt.len <= |s| && s[off..off + fmt.len] == Resize(vs.s, fmt.len)
              && Fits(fmt.after, vs.more) && s[off + fmt.len..] == Pack(e, fmt.after, vs.more)
    ensures fmt.X? ==>
              && off + fmt.pad <= |s| && s[off..off + fmt.pad] == Zeros(fmt.pad)
              && Fits(fmt.after, vs) && s[off + fmt.pad..] == Pack(e, fmt.after, vs)
    ensures fmt.End? ==> off == |s|
  {
    hide PackInt, Resize, HasSize;
    match fmt
    case End =>
    case U(w, rest) => FrontField(s, off, PackInt(e, vs.n, w), Pack(e, rest, vs.more));
    case S(l, rest) => FrontField(s, off, Resize(vs.s, l), Pack(e, rest, vs.more));
    case X(p, rest) => FrontField(s, off, Zeros(p), Pack(e, rest, vs));
  }

  /** Where a value that was unpacked lies, and what the rest of the record then is. */
  lemma Unfield(s: bytes, off: nat, e: Endian, fmt: Format, vs: Values)
    requires off <= |s| && Unpack(e, fmt, s[off..]) == Ok(vs)
    ensures fmt.U? ==>
              && vs.Int? && off + fmt.width <= |s| && vs.n == UnpackInt(e, s[off..off + fmt.width])
              && Unpack(e, fmt.after, s[off + fmt.width..]) == Ok(vs.more)
    ensures fmt.S? ==>
              && vs.Str? && off + fmt.len <= |s| && vs.s == s[off..off + fmt.len]
              && Unpack(e, fmt.after, s[off + fmt.len..]) == Ok(vs.more)
    ensures fmt.X? ==> off + fmt.pad <= |s| && Unpack(e, fmt.after, s[off + fmt.pad..]) == Ok(vs)
  {
    hide UnpackInt, HasSize, Exact;
    match fmt
    case End =>
    case U(w, rest) => DropSplit(s, off, w);
    case S(l, rest) => DropSplit(s, off, l);
    case X(p, rest) => DropSplit(s, off, p);
  }

  lemma FrontField(s: bytes, off: nat, a: bytes, t: bytes)
    requires off <= |s| && s[off..] == a + t
    ensures off + |a| <= |s| && s[off..off + |a|] == a && s[off + |a|..] == t
  {
    DropSplit(s, off, |a|);
  }

  lemma {:induction false} TooShort(fmt: Format, n: int)
    requires n < 0
    ensures !HasSize(fmt, n)
  {
    match fmt
    case End =>
    case U(w, rest) => TooShort(rest, n - w);
    case S(l, rest) => TooShort(rest, n - l);
    case X(p, rest) => TooShort(rest, n - p);
  }

  lemma {:induction false} ExactFits(fmt: Format, vs: Values)
    requires Exact(fmt, vs)
    ensures Fits(fmt, vs)
  {
    match fmt
    case End =>
    case U(w, rest) => ExactFits(rest, vs.more);
    case S(l, rest) => ExactFits(rest, vs.more);
    case X(p, rest) => ExactFits(rest, vs);
  }

  lemma IntRoundTrip(e: Endian, v: nat, w: nat)
    requires v < Limit(w)
    ensures UnpackInt(e, PackInt(e, v, w)) == v
  {
    LimitIsPow256(w);
    LERoundTrip(v, w);
    BERoundTrip(v, w);
  }

  lemma SplitAt(a: bytes, b: bytes)
    ensures (a + b)[..|a|] == a && (a + b)[|a|..] == b
  {
  }

  /** Unpacking what was packed gives the values back. */
  lemma {:induction false} UnpackPack(e: Endian, fmt: Format, vs: Values)
    requires Exact(fmt, vs)
    ensures Fits(fmt, vs)
    ensures Unpack(e, fmt, Pack(e, fmt, vs)) == Ok(vs)
  {
    ExactFits(fmt, vs);
    match fmt
    case End =>
    case U(w, rest) =>
      SplitAt(PackInt(e, vs.n, w), Pack(e, rest, vs.more));
      IntRoundTrip(e, vs.n, w);
      UnpackPack(e, rest, vs.more);
    case S(l, rest) =>
      assert Resize(vs.s, l) == vs.s;
      SplitAt(vs.s, Pack(e, rest, vs.more));
      UnpackPack(e, rest, vs.more);
    case X(p, rest) =>
      SplitAt(Zeros(p), Pack(e, rest, vs));
      UnpackPack(e, rest, vs);
  }

  predicate NoPad(fmt: Format) {
    match fmt
    case End => true
    case U(_, rest) => NoPad(rest)
    case S(_, rest) => NoPad(rest)
    case X(_, _) => false
  }

  lemma PackUnpackInt(e: Endian, s: bytes)
    ensures PackInt(e, UnpackInt(e, s), |s|) == s
  {
    FromLERoundTrip(s);
    FromBERoundTrip(s);
  }

  /** Packing what was unpacked gives the buffer back when the format has no pad bytes. */
  lemma {:induction false} PackUnpack(e: Endian, fmt: Format, s: bytes)
    requires Unpack(e, fmt, s).Ok? && NoPad(fmt)
    ensures Fits(fmt, Unpack(e, fmt, s).value)
    ensures Pack(e, fmt, Unpack(e, fmt, s).value) == s
  {
    hide PackInt, UnpackInt, Limit, Resize;
    ExactFits(fmt, Unpack(e, fmt, s).value);
    match fmt
    case End =>
    case U(w, rest) =>
      assert s == s[..w] + s[w..];
      PackUnpackInt(e, s[..w]);
      PackUnpack(e, rest, s[w..]);
    case S(l, rest) =>
      assert s == s[..l] + s[l..];
      ResizeSame(s[..l]);
      PackUnpack(e, rest, s[l..]);
  }

  function Append(f: Format, g: Format): Format
    decreases f
  {
    match f
    case End => g
    case U(w, rest) => U(w, Append(rest, g))
    case S(l, rest) => S(l, Append(rest, g))
    case X(p, rest) => X(p, Append(rest, g))
  }

  function AppendValues(v: Values, w: Values): Values
    decreases v
  {
    match v
    case Done => w
    case Int(n, more) => Int(n, AppendValues(more, w))
    case Str(s, more) => Str(s, AppendValues(more, w))
  }

  /** Packing an appended format is packing the two parts one after the other. */
  lemma {:induction false} PackAppend(e: Endian, f: Format, v: Values, g: Format, w: Values)
    requires Fits(f, v) && Fits(g, w)
    ensures Fits(Append(f, g), AppendValues(v, w))
    ensures Pack(e, Append(f, g), AppendValues(v, w)) == Pack(e, f, v) + Pack(e, g, w)
  {
    hide PackInt, Resize, Zeros;
    match f
    case End =>
    case U(n, rest) =>
      PackAppend(e, rest, v.more, g, w);
      Assoc(PackInt(e, v.n, n), Pack(e, rest, v.more), Pack(e, g, w));
    case S(l, rest) =>
      PackAppend(e, rest, v.more, g, w);
      Assoc(Resize(v.s, l), Pack(e, rest, v.more), Pack(e, g, w));
    case X(p, rest) =>
      PackAppend(e, rest, v, g, w);
      Assoc(Zeros(p), Pack(e, rest, v), Pack(e, g, w));
  }
}
