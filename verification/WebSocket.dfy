/** WebSocket frames as in sections 5.2 and 5.3 of RFC 6455: the sender, and the incremental receiver. */
module WebSocket {
  import opened Bytes

  const CLOSE := 8

  // ------------------------------------------------------------- masking

  /** Exclusive or of the low n bits. */
  function XorBits(a: nat, b: nat, n: nat): (r: nat) {
    if n == 0 then 0 else (a + b) % 2 + 2 * XorBits(a / 2, b / 2, n - 1)
  }

  lemma {:induction false} XorBitsBound(a: nat, b: nat, n: nat, p: nat)
    requires p == Pow2(n)
    ensures XorBits(a, b, n) < p
  {
    if n > 0 {
      XorBitsBound(a / 2, b / 2, n - 1, Pow2(n - 1));
    }
  }

  lemma XorLowBit(a: nat, b: nat, x: nat)
    ensures var r := (a + b) % 2 + 2 * x; r / 2 == x && (r + b) % 2 == a % 2
  {
  }

  lemma {:induction false} XorBitsTwice(a: nat, b: nat, n: nat)
    requires a < Pow2(n)
    ensures XorBits(XorBits(a, b, n), b, n) == a
  {
    if n > 0 {
      XorBitsTwice(a / 2, b / 2, n - 1);
      XorLowBit(a, b, XorBits(a / 2, b / 2, n - 1));
    }
  }

  function Xor(a: byte, b: byte): byte {
    XorBitsBound(a, b, 8, 256);
    XorBits(a, b, 8)
  }

  lemma XorTwice(a: byte, b: byte)
    ensures Xor(Xor(a, b), b) == a
  {
    XorBitsTwice(a, b, 8);
  }

  /** Each octet with the mask octet at its position modulo 4. */
  function Masked(payload: bytes, mask: bytes): (r: bytes)
    requires |mask| == 4
    ensures |r| == |payload|
  {
    seq(|payload|, i requires 0 <= i < |payload| => Xor(payload[i], mask[i % 4]))
  }

  lemma MaskedTwice(payload: bytes, mask: bytes)
    requires |mask| == 4
    ensures Masked(Masked(payload, mask), mask) == payload
  {
    hide Xor;
    var m := Masked(payload, mask);
    forall i | 0 <= i < |payload| ensures Masked(m, mask)[i] == payload[i] {
      XorTwice(payload[i], mask[i % 4]);
    }
  }

  // ------------------------------------------------------------- frames

  /** A complete frame at the start of a buffer; size counts header, mask and payload. */
  datatype Frame = Frame(opcode: nat, payload: bytes, size: nat)

  /** Payload length and where the length field ends, once the field is there. */
  function LengthAt(s: bytes): (r: Option<(nat, nat)>)
    ensures r.Some? ==> |s| >= r.value.1 >= 2
  {
    if |s| < 2 then None
    else
      var n := s[1] % 128;
      if n == 126 then if |s| < 4 then None else Some((FromBE(s[2..4]), 4))
      else if n == 127 then if |s| < 10 then None else Some((FromBE(s[2..10]), 10))
      else Some((n, 2))
  }

  function MaskSize(b2: byte): nat {
    if b2 >= 128 then 4 else 0
  }

  function FrameAt(s: bytes): (r: Option<Frame>)
    ensures r.Some? ==> 2 <= r.value.size <= |s|
  {
    var l := LengthAt(s);
    if l.None? then None
    else
      var (plen, idx) := l.value;
      var at := idx + MaskSize(s[1]);
      if |s| < at + plen then None
      else
        var data := s[at..at + plen];
        Some(Frame(s[0] % 16, if s[1] >= 128 then Masked(data, s[idx..at]) else data, at + plen))
  }

  /** Text, binary and continuation frames carry data. */
  predicate IsData(f: Frame) {
    f.opcode == 0 || f.opcode == 1 || f.opcode == 2
  }

  function Data(f: Frame): bytes {
    if IsData(f) then f.payload else []
  }

  predicate IsClose(s: bytes) {
    FrameAt(s).Some? && FrameAt(s).value.opcode == CLOSE
  }

  lemma SameWindow(s: bytes, t: bytes, a: nat, b: nat)
    requires a <= b <= |s|
    ensures (s + t)[a..b] == s[a..b]
  {
  }

  /** Bytes arriving behind a complete frame do not change it. */
  lemma FrameStable(s: bytes, t: bytes)
    requires FrameAt(s).Some?
    ensures FrameAt(s + t) == FrameAt(s)
    ensures (s + t)[FrameAt(s).value.size..] == s[FrameAt(s).value.size..] + t
  {
    hide Masked;
    var (plen, idx) := LengthAt(s).value;
    SameWindow(s, t, 2, idx);
    var at := idx + MaskSize(s[1]);
    SameWindow(s, t, idx, at);
    SameWindow(s, t, at, at + plen);
    assert LengthAt(s + t) == LengthAt(s);
  }

  // ------------------------------------------------------------- decoding a whole stream

  /** The data of the first k frames and what follows them; none of them is a close frame. */
  function Take(s: bytes, k: nat): Option<(bytes, bytes)>
    decreases k
  {
    if k == 0 then Some(([], s))
    else if FrameAt(s).None? || IsClose(s) then None
    else
      var f := FrameAt(s).value;
      var t := Take(s[f.size..], k - 1);
      if t.None? then None else Some((Data(f) + t.value.0, t.value.1))
  }

  /** Batch decoding: the data of all complete frames up to a close frame, and what is left. */
  function Batch(s: bytes): (bytes, bytes)
    decreases |s|
  {
    if FrameAt(s).None? || IsClose(s) then ([], s)
    else
      var f := FrameAt(s).value;
      var (data, rest) := Batch(s[f.size..]);
      (Data(f) + data, rest)
  }

  /** No frame of the stream, nor of any continuation within it, is a close frame. */
  ghost predicate CloseFree(s: bytes) {
    forall k: nat :: Take(s, k).Some? ==> !IsClose(Take(s, k).value.1)
  }

  /** Taking frames out of a prefix leaves the rest of the stream behind what is left. */
  lemma {:induction false} TakeStable(s: bytes, t: bytes, k: nat)
    requires Take(s, k).Some?
    ensures Take(s + t, k) == Some((Take(s, k).value.0, Take(s, k).value.1 + t))
    decreases k
  {
    hide FrameAt, Data;
    if k > 0 {
      FrameStable(s, t);
      TakeStable(s[FrameAt(s).value.size..], t, k - 1);
    }
  }

  /** Taking k frames and then l more. */
  lemma {:induction false} TakeMore(s: bytes, k: nat, l: nat)
    requires Take(s, k).Some? && Take(Take(s, k).value.1, l).Some?
    ensures var (o, r) := Take(s, k).value;
            var (p, q) := Take(r, l).value;
            Take(s, k + l) == Some((o + p, q))
    decreases k
  {
    hide FrameAt, Data;
    if k == 0 {
      var p := Take(s, l).value.0;
      assert [] + p == p;
    } else {
      var f := FrameAt(s).value;
      TakeMore(s[f.size..], k - 1, l);
      var (o, r) := Take(s[f.size..], k - 1).value;
      Assoc(Data(f), o, Take(r, l).value.0);
    }
  }

  lemma TakeOne(r: bytes)
    requires FrameAt(r).Some? && !IsClose(r)
    ensures Take(r, 1) == Some((Data(FrameAt(r).value), r[FrameAt(r).value.size..]))
  {
    hide FrameAt, Data;
    var f := FrameAt(r).value;
    assert Take(r[f.size..], 0) == Some(([], r[f.size..]));
    assert Data(f) + [] == Data(f);
  }

  /** What was taken is the front of the batch result; the batch of the rest is its remainder. */
  lemma {:induction false} TakeIsBatch(s: bytes, k: nat)
    requires Take(s, k).Some?
    ensures var (o, r) := Take(s, k).value; Batch(s) == (o + Batch(r).0, Batch(r).1)
    decreases k
  {
    hide FrameAt, Data;
    if k == 0 {
      assert [] + Batch(s).0 == Batch(s).0;
    } else {
      var f := FrameAt(s).value;
      TakeIsBatch(s[f.size..], k - 1);
      var (o, r) := Take(s[f.size..], k - 1).value;
      Assoc(Data(f), o, Batch(r).0);
    }
  }

  /** What is left holds no complete frame. */
  predicate Drained(r: bytes) {
    FrameAt(r).None?
  }

  /** However a stream was taken apart, once drained the data and the rest are those of batch decoding. */
  lemma DrainedIsBatch(s: bytes, k: nat)
    requires Take(s, k).Some? && Drained(Take(s, k).value.1)
    ensures Take(s, k).value == Batch(s)
  {
    TakeIsBatch(s, k);
    hide FrameAt;
    var (o, r) := Take(s, k).value;
    assert o + [] == o;
  }

  lemma CloseFreePrefix(s: bytes, t: bytes, k: nat)
    requires CloseFree(s + t) && Take(s, k).Some?
    ensures !IsClose(Take(s, k).value.1)
  {
    TakeStable(s, t, k);
    var r := Take(s, k).value.1;
    if IsClose(r) {
      FrameStable(r, t);
      assert IsClose(Take(s + t, k).value.1);
    }
  }

  // ------------------------------------------------------------- sending

  /** The frame written for a payload: binary, final, masked, with the shortest length form. */
  function Header(n: nat): (r: bytes)
    requires n < U64
  {
    if n < 126 then [0x82, 128 + n]
    else if n < 65536 then [0x82, 254] + BE(n, 2)
    else [0x82, 255] + BE(n, 8)
  }

  function FrameOf(payload: bytes, mask: bytes): bytes
    requires |mask| == 4 && |payload| < U64
  {
    Header(|payload|) + (mask + Masked(payload, mask))
  }

  lemma HeaderLength(n: nat, rest: bytes)
    requires n < U64
    ensures LengthAt(Header(n) + rest) == Some((n, |Header(n)|))
    ensures var h := Header(n); |h| >= 2 && h[0] == 0x82 && h[1] >= 128
  {
    var h := Header(n);
    Pow256Values();
    if 126 <= n < 65536 {
      BERoundTrip(n, 2);
      assert (h + rest)[2..4] == BE(n, 2);
    } else if n >= 65536 {
      BERoundTrip(n, 8);
      assert (h + rest)[2..10] == BE(n, 8);
    }
  }

  /** Decoding what was sent gives the payload back, in all three length forms and whatever follows. */
  lemma SentIsDecoded(payload: bytes, mask: bytes, rest: bytes)
    requires |mask| == 4 && |payload| < U64
    ensures FrameAt(FrameOf(payload, mask) + rest) == Some(Frame(2, payload, |FrameOf(payload, mask)|))
  {
    hide Masked, Header, LengthAt, FrameOf, FrameAt;
    var h, m, s := Header(|payload|), Masked(payload, mask), FrameOf(payload, mask) + rest;
    HeaderLength(|payload|, mask + m + rest);
    MaskedTwice(payload, mask);
    FrameParts(payload, mask);
    SentParts(h, mask, m, rest);
    assert s[0] == 0x82 && s[0] % 16 == 2;
    MaskedFrame(s, |payload|, |h|);
  }

  lemma MaskedFrame(s: bytes, n: nat, idx: nat)
    requires LengthAt(s) == Some((n, idx)) && s[1] >= 128 && idx + 4 + n <= |s|
    ensures FrameAt(s) == Some(Frame(s[0] % 16, Masked(s[idx + 4..idx + 4 + n], s[idx..idx + 4]), idx + 4 + n))
  {
    hide Masked, LengthAt;
  }

  lemma FrameParts(payload: bytes, mask: bytes)
    requires |mask| == 4 && |payload| < U64
    ensures FrameOf(payload, mask) == Header(|payload|) + (mask + Masked(payload, mask))
  {
  }

  lemma SentParts(h: bytes, mask: bytes, m: bytes, rest: bytes)
    requires |mask| == 4
    ensures var s := h + (mask + m) + rest;
            && s == h + (mask + m + rest) && |s| >= |h| + 4 + |m|
            && (|h| >= 2 ==> s[0] == h[0] && s[1] == h[1])
            && s[|h|..|h| + 4] == mask && s[|h| + 4..|h| + 4 + |m|] == m
  {
  }

  /** What is sent, octet by octet: a final, masked binary frame, its length in shortest form, mask, masked payload. */
  lemma FrameOctets(payload: bytes, mask: bytes)
    requires |mask| == 4 && |payload| < U64
    ensures var s, n := FrameOf(payload, mask), |payload|;
            var at := if n < 126 then 2 else if n < 65536 then 4 else 10;
            && |s| == at + 4 + n && s[0] == 0x82
            && s[1..at] == (if n < 126 then [n + 128] else if n < 65536 then [254] + BE(n, 2) else [255] + BE(n, 8))
            && s[at..at + 4] == mask && Unmasked(payload, mask, s[at + 4..])
  {
    hide Masked, BE, Unmasked;
    MaskedIsUnmasked(payload, mask);
    var s, h, m := FrameOf(payload, mask), Header(|payload|), Masked(payload, mask);
    assert s[..|h|] == h && s[|h|..|h| + 4] == mask && s[|h| + 4..] == m;
    assert s[1..|h|] == h[1..];
  }

  /** A payload and the mask it is sent with. */
  datatype Message = Message(payload: bytes, mask: bytes)

  predicate Sendable(ms: seq<Message>) {
    forall i :: 0 <= i < |ms| ==> |ms[i].mask| == 4 && |ms[i].payload| < U64
  }

  function SentStream(ms: seq<Message>): bytes
    requires Sendable(ms)
  {
    if ms == [] then [] else FrameOf(ms[0].payload, ms[0].mask) + SentStream(ms[1..])
  }

  function Payloads(ms: seq<Message>): bytes {
    if ms == [] then [] else ms[0].payload + Payloads(ms[1..])
  }

  /** A stream of sent frames decodes to the payloads in order, and what follows is left. */
  lemma {:induction false} SentStreamIsDecoded(ms: seq<Message>, rest: bytes)
    requires Sendable(ms)
    ensures Take(SentStream(ms) + rest, |ms|) == Some((Payloads(ms), rest))
  {
    hide FrameAt, FrameOf;
    if ms == [] {
      assert [] + rest == rest;
    } else {
      var f, tail := FrameOf(ms[0].payload, ms[0].mask), SentStream(ms[1..]) + rest;
      SentIsDecoded(ms[0].payload, ms[0].mask, tail);
      SentStreamIsDecoded(ms[1..], rest);
      Assoc(f, SentStream(ms[1..]), rest);
      assert (f + tail)[|f|..] == tail;
    }
  }

  // ------------------------------------------------------------- frames of a server

  /** Bit i of an octet. */
  function Bit(a: nat, i: nat): nat {
    (a / Pow2(i)) % 2
  }

  lemma {:induction false} XorBitsAt(a: nat, b: nat, n: nat, i: nat)
    requires i < n
    ensures Bit(XorBits(a, b, n), i) == (Bit(a, i) + Bit(b, i)) % 2
  {
    hide Bit, XorBits;
    XorHalved(a, b, n);
    if i == 0 {
      LowBit(XorBits(a, b, n));
      LowBit(a);
      LowBit(b);
      LowSum(a, b);
    } else {
      XorBitsAt(a / 2, b / 2, n - 1, i - 1);
      Halved(XorBits(a, b, n), i);
      Halved(a, i);
      Halved(b, i);
    }
  }

  lemma XorHalved(a: nat, b: nat, n: nat)
    requires n > 0
    ensures var x := XorBits(a, b, n); x / 2 == XorBits(a / 2, b / 2, n - 1) && x % 2 == (a + b) % 2
  {
    XorLowBit(a, b, XorBits(a / 2, b / 2, n - 1));
  }

  lemma LowBit(a: nat)
    ensures Bit(a, 0) == a % 2
  {
    assert Pow2(0) == 1;
  }

  lemma LowSum(a: nat, b: nat)
    ensures (a + b) % 2 == (a % 2 + b % 2) % 2
  {
  }

  lemma Halved(a: nat, i: nat)
    requires i > 0
    ensures Bit(a, i) == Bit(a / 2, i - 1)
  {
    var p := Pow2(i - 1);
    var q, r := (a / 2) / p, (a / 2) % p;
    assert a / 2 == p * q + r;
    assert a == (2 * p) * q + (2 * r + a % 2) by {
      assert 2 * (p * q) == (2 * p) * q;
    }
    assert (2 * p) * q == q * (2 * p);
    DivUnique(a, 2 * p, q, 2 * r + a % 2);
  }

  /** A payload is the octets sent, each bit flipped where the mask octet at its position modulo 4 has it set. */
  ghost predicate Unmasked(sent: bytes, mask: bytes, payload: bytes)
    requires |mask| == 4
  {
    && |payload| == |sent|
    && forall i, b :: 0 <= i < |sent| && 0 <= b < 8 ==>
         Bit(payload[i], b) == (Bit(sent[i], b) + Bit(mask[i % 4], b)) % 2
  }

  lemma MaskedIsUnmasked(sent: bytes, mask: bytes)
    requires |mask| == 4
    ensures Unmasked(sent, mask, Masked(sent, mask))
  {
    hide Bit, XorBits;
    forall i, b | 0 <= i < |sent| && 0 <= b < 8
      ensures Bit(Masked(sent, mask)[i], b) == (Bit(sent[i], b) + Bit(mask[i % 4], b)) % 2
    {
      XorBitsAt(sent[i], mask[i % 4], 8, b);
    }
  }

  /** The three forms of the length, of which the shortest need not be taken. */
  datatype Form = Short | Two | Eight

  predicate LengthFits(f: Form, n: nat) {
    match f
    case Short => n < 126
    case Two => n < 0x1_0000
    case Eight => n < 0x1_0000_0000_0000_0000
  }

  /** The octets of a length; add is 128 for a masked frame. */
  function LengthOctets(f: Form, n: nat, add: nat): bytes
    requires LengthFits(f, n) && (add == 0 || add == 128)
  {
    match f
    case Short => [n + add]
    case Two => [126 + add] + BE(n, 2)
    case Eight => [127 + add] + BE(n, 8)
  }

  lemma LengthIs(b1: byte, f: Form, n: nat, add: nat, rest: bytes)
    requires LengthFits(f, n) && (add == 0 || add == 128)
    ensures var l := LengthOctets(f, n, add);
            var s := [b1] + l + rest;
            && LengthAt(s) == Some((n, 1 + |l|)) && s[0] == b1 && s[1] == l[0] && (s[1] >= 128 <==> add == 128)
            && s[1 + |l|..] == rest
  {
    var l := LengthOctets(f, n, add);
    var s := [b1] + l + rest;
    assert s[1 + |l|..] == rest;
    match f
    case Short =>
    case Two => LongLength(s, b1, 126, n, 2, add, rest);
    case Eight => LongLength(s, b1, 127, n, 8, add, rest);
  }

  lemma LongLength(s: bytes, b1: byte, mark: nat, n: nat, w: nat, add: nat, rest: bytes)
    requires (mark == 126 && w == 2 && n < 0x1_0000) || (mark == 127 && w == 8 && n < 0x1_0000_0000_0000_0000)
    requires (add == 0 || add == 128) && s == [b1] + ([mark + add] + BE(n, w)) + rest
    ensures LengthAt(s) == Some((n, 2 + w)) && s[0] == b1 && s[1] == mark + add
  {
    hide BE, FromBE;
    Pow256Values();
    BERoundTrip(n, w);
    assert s[2..2 + w] == BE(n, w);
  }

  /** An unmasked frame, octet by octet, is taken for what it is, in each form and whatever follows. */
  lemma ServerFrameIs(b1: byte, f: Form, p: bytes, rest: bytes)
    requires LengthFits(f, |p|)
    ensures var l := match f case Short => [|p|] case Two => [126] + BE(|p|, 2) case Eight => [127] + BE(|p|, 8);
            FrameAt([b1] + l + (p + rest)) == Some(Frame(b1 % 16, p, 1 + |l| + |p|))
  {
    var l := LengthOctets(f, |p|, 0);
    LengthIs(b1, f, |p|, 0, p + rest);
    var s := [b1] + l + (p + rest);
    hide LengthAt, Masked, LengthOctets;
    assert s[1 + |l|..][..|p|] == p;
    DropSplit(s, 1 + |l|, |p|);
  }

  /** A masked frame is taken for the octets sent with the mask undone bit by bit. */
  lemma MaskedFrameIs(b1: byte, f: Form, mask: bytes, sent: bytes, rest: bytes)
    requires LengthFits(f, |sent|) && |mask| == 4
    ensures var l := match f
                     case Short => [|sent| + 128]
                     case Two => [254] + BE(|sent|, 2)
                     case Eight => [255] + BE(|sent|, 8);
            var frame := FrameAt([b1] + l + (mask + sent + rest));
            && frame.Some? && frame.value.opcode == b1 % 16 && frame.value.size == 1 + |l| + 4 + |sent|
            && Unmasked(sent, mask, frame.value.payload)
  {
    var l := LengthOctets(f, |sent|, 128);
    hide LengthAt, Masked, LengthOctets, Unmasked, FrameAt;
    LengthIs(b1, f, |sent|, 128, mask + sent + rest);
    MaskedIsUnmasked(sent, mask);
    var s := [b1] + l + (mask + sent + rest);
    MaskAndSent(s, 1 + |l|, mask, sent, rest);
    MaskedFrame(s, |sent|, 1 + |l|);
  }

  lemma MaskAndSent(s: bytes, at: nat, mask: bytes, sent: bytes, rest: bytes)
    requires at <= |s| && s[at..] == mask + sent + rest
    ensures at + |mask| + |sent| <= |s|
    ensures s[at..at + |mask|] == mask && s[at + |mask|..at + |mask| + |sent|] == sent
  {
    var t := s[at..];
    assert t[..|mask|] == mask && t[|mask|..|mask| + |sent|] == sent;
    SubSlice(s, at, |s|, 0, |mask|);
    SubSlice(s, at, |s|, |mask|, |mask| + |sent|);
  }

  /** What a server sends: first octet, form of the length, payload. */
  datatype ServerMessage = ServerMessage(b1: byte, form: Form, payload: bytes)

  predicate WellSent(m: ServerMessage) {
    LengthFits(m.form, |m.payload|) && m.b1 % 16 != 8
  }

  predicate AllWellSent(ms: seq<ServerMessage>) {
    forall i :: 0 <= i < |ms| ==> WellSent(ms[i])
  }

  function Octets(m: ServerMessage): bytes
    requires WellSent(m)
  {
    var n := |m.payload|;
    [m.b1] + (match m.form case Short => [n] case Two => [126] + BE(n, 2) case Eight => [127] + BE(n, 8)) + m.payload
  }

  function ServerStream(ms: seq<ServerMessage>): bytes
    requires AllWellSent(ms)
  {
    if ms == [] then [] else Octets(ms[0]) + ServerStream(ms[1..])
  }

  /** The payloads of text, binary and continuation frames. */
  function Wanted(ms: seq<ServerMessage>): bytes {
    if ms == [] then []
    else (if ms[0].b1 % 16 < 3 then ms[0].payload else []) + Wanted(ms[1..])
  }

  lemma OctetsAreFrame(m: ServerMessage, rest: bytes)
    requires WellSent(m)
    ensures var s := Octets(m) + rest;
            && FrameAt(s) == Some(Frame(m.b1 % 16, m.payload, |Octets(m)|)) && !IsClose(s)
            && s[|Octets(m)|..] == rest
  {
    hide FrameAt;
    ServerFrameIs(m.b1, m.form, m.payload, rest);
    var n := |m.payload|;
    var l := match m.form case Short => [n] case Two => [126] + BE(n, 2) case Eight => [127] + BE(n, 8);
    assert [m.b1] + l + (m.payload + rest) == Octets(m) + rest;
  }

  /** A server's stream decodes to the payloads wanted, in order, and only those; what follows is left. */
  lemma {:induction false} ServerStreamIsTaken(ms: seq<ServerMessage>, rest: bytes)
    requires AllWellSent(ms)
    ensures Take(ServerStream(ms) + rest, |ms|) == Some((Wanted(ms), rest))
  {
    hide FrameAt, Octets;
    if ms == [] {
      assert [] + rest == rest;
    } else {
      var f, tail := Octets(ms[0]), ServerStream(ms[1..]) + rest;
      assert AllWellSent(ms[1..]);
      OctetsAreFrame(ms[0], tail);
      ServerStreamIsTaken(ms[1..], rest);
      Assoc(f, ServerStream(ms[1..]), rest);
    }
  }

  /** However many frames of it were taken, they are the first ones, and the others are left. */
  lemma {:induction false} ServerStreamTakes(ms: seq<ServerMessage>, k: nat)
    requires AllWellSent(ms) && Take(ServerStream(ms), k).Some?
    ensures k <= |ms| && Take(ServerStream(ms), k) == Some((Wanted(ms[..k]), ServerStream(ms[k..])))
    decreases k
  {
    hide FrameAt, Octets, Data;
    if k == 0 {
      assert ms[0..] == ms;
    } else {
      if ms == [] {
        NothingToTake();
      }
      var tail := ServerStream(ms[1..]);
      assert AllWellSent(ms[1..]);
      OctetsAreFrame(ms[0], tail);
      ServerStreamTakes(ms[1..], k - 1);
      assert ms[1..][..k - 1] == ms[..k][1..] && ms[1..][k - 1..] == ms[k..];
      DataOf(ms[0]);
    }
  }

  lemma NothingToTake()
    ensures FrameAt([]).None?
  {
  }

  lemma DataOf(m: ServerMessage)
    ensures Data(Frame(m.b1 % 16, m.payload, |m.payload|)) == if m.b1 % 16 < 3 then m.payload else []
    ensures forall n :: Data(Frame(m.b1 % 16, m.payload, n)) == if m.b1 % 16 < 3 then m.payload else []
  {
  }

  /** So batch decoding gives them, up to the end of the stream or up to a close frame. */
  lemma ServerStreamIsDecoded(ms: seq<ServerMessage>, rest: bytes)
    requires AllWellSent(ms) && (FrameAt(rest).None? || FrameAt(rest).value.opcode == 8)
    ensures Batch(ServerStream(ms) + rest) == (Wanted(ms), rest)
  {
    ServerStreamIsTaken(ms, rest);
    TakeIsBatch(ServerStream(ms) + rest, |ms|);
    hide FrameAt;
    assert Wanted(ms) + [] == Wanted(ms);
  }

  /** And no continuation of it starts with a close frame, as long as nothing follows. */
  lemma ServerStreamIsCloseFree(ms: seq<ServerMessage>)
    requires AllWellSent(ms)
    ensures CloseFree(ServerStream(ms))
  {
    forall k: nat | Take(ServerStream(ms), k).Some?
      ensures !IsClose(Take(ServerStream(ms), k).value.1)
    {
      NoCloseWithin(ms, k);
    }
  }

  lemma {:induction false} NoCloseWithin(ms: seq<ServerMessage>, k: nat)
    requires AllWellSent(ms) && Take(ServerStream(ms), k).Some?
    ensures !IsClose(Take(ServerStream(ms), k).value.1)
    decreases k
  {
    hide FrameAt, Octets, Data;
    if ms == [] {
      NothingTaken(k);
    } else {
      var tail := ServerStream(ms[1..]);
      assert AllWellSent(ms[1..]);
      OctetsAreFrame(ms[0], tail);
      if k > 0 {
        NoCloseWithin(ms[1..], k - 1);
      }
    }
  }

  lemma NothingTaken(k: nat)
    ensures Take([], k).Some? ==> !IsClose(Take([], k).value.1)
  {
  }

  // ------------------------------------------------------------- the socket

  /** What a non-blocking recv gives: some bytes, none at all at the end of the stream, or nothing yet. */
  datatype Event = Chunk(data: bytes) | Block

  class Socket {
    /** What the following receive calls will give; afterwards they would block. */
    var events: seq<Event>
    var sent: bytes
    /** All bytes received so far. */
    ghost var received: bytes

    /** Everything this connection ever delivers. */
    ghost function Stream(): bytes
      reads this
    {
      received + Pending(events)
    }

    constructor (events: seq<Event>)
      ensures this.events == events && sent == [] && received == []
    {
      this.events := events;
      sent := [];
      received := [];
    }

    method Recv() returns (e: Event)
      modifies this
      ensures sent == old(sent)
      ensures if old(events) == [] then e == Block && events == []
              else e == old(events)[0] && events == old(events)[1..]
      ensures received == old(received) + (if e.Chunk? then e.data else [])
      ensures Stream() == old(Stream())
    {
      assert received + [] == received;
      if events == [] {
        return Block;
      }
      e := events[0];
      events := events[1..];
      if e.Chunk? {
        Assoc(received, e.data, Pending(events));
        received := received + e.data;
      } else {
        assert [] + Pending(events) == Pending(events);
      }
    }

    method SendAll(data: bytes)
      modifies this
      ensures sent == old(sent) + data && events == old(events) && received == old(received)
    {
      sent := sent + data;
    }
  }

  /** The bytes still to come. */
  ghost function Pending(events: seq<Event>): bytes {
    if events == [] then [] else (if events[0].Chunk? then events[0].data else []) + Pending(events[1..])
  }

  /** ws_send_binary, with the random mask given. */
  method SendBinary(sock: Socket, payload: bytes, mask: bytes) returns (r: Result<()>)
    requires |mask| == 4
    modifies sock
    ensures r.Ok? <==> |payload| < U64
    ensures r.Ok? ==> sock.sent == old(sock.sent) + FrameOf(payload, mask)
    ensures r.Err? ==> sock.sent == old(sock.sent)
    ensures sock.events == old(sock.events)
  {
    var masked := Masked(payload, mask);
    var n := |payload|;
    var header: bytes;
    if n < 126 {
      header := [0x82, 128 + n] + mask;
    } else if n < 65536 {
      header := [0x82, 254] + BE(n, 2) + mask;
    } else if n < U64 {
      header := [0x82, 255] + BE(n, 8) + mask;
    } else {
      return Err(StructError);
    }
    Assoc(Header(n), mask, masked);
    sock.SendAll(header + masked);
    return Ok(());
  }

  // ------------------------------------------------------------- receiving

  /** Waits for the buffer to hold n bytes; gives up when nothing more arrives. */
  method Need(sock: Socket, buf: bytes, n: nat) returns (ok: bool, buf': bytes, ghost got: bytes)
    modifies sock
    ensures sock.received == old(sock.received) + got && buf' == buf + got
    ensures sock.Stream() == old(sock.Stream())
    ensures ok <==> |buf'| >= n
    ensures sock.sent == old(sock.sent)
  {
    buf', got := buf, [];
    assert sock.received + [] == sock.received;
    while |buf'| < n
      invariant sock.received == old(sock.received) + got && buf' == buf + got
      invariant sock.Stream() == old(sock.Stream())
      invariant sock.sent == old(sock.sent)
      decreases |Pending(sock.events)|
    {
      var e := sock.Recv();
      if e.Block? || e.data == [] {
        return false, buf', got;
      }
      Assoc(old(sock.received), got, e.data);
      Assoc(buf, got, e.data);
      buf' := buf' + e.data;
      got := got + e.data;
    }
    return true, buf', got;
  }

  /** The payload length, waiting for an extended length field if there is one. */
  method ReadLength(sock: Socket, buf: bytes) returns (l: Option<(nat, nat)>, buf': bytes, ghost got: bytes)
    requires |buf| >= 2
    modifies sock
    ensures sock.received == old(sock.received) + got && buf' == buf + got
    ensures sock.Stream() == old(sock.Stream())
    ensures l == LengthAt(buf') && sock.sent == old(sock.sent)
  {
    buf', got := buf, [];
    var plen := buf[1] % 128;
    assert sock.received + [] == sock.received && buf + [] == buf;
    if plen != 126 && plen != 127 {
      return Some((plen, 2)), buf', got;
    }
    var idx := if plen == 126 then 4 else 10;
    var ok;
    ok, buf', got := Need(sock, buf', idx);
    l := if ok then Some((FromBE(buf'[2..idx]), idx)) else None;
  }

  /** One pass of the receive loop up to the complete frame: waits for length, mask and payload in turn. */
  method ReadFrame(sock: Socket, buf: bytes) returns (f: Option<Frame>, buf': bytes, ghost got: bytes)
    requires |buf| >= 2
    modifies sock
    ensures sock.received == old(sock.received) + got && buf' == buf + got
    ensures sock.Stream() == old(sock.Stream())
    ensures f == FrameAt(buf') && sock.sent == old(sock.sent)
  {
    hide Masked, Pending, LengthAt;
    f := None;
    var b1, b2 := buf[0], buf[1];
    var l;
    l, buf', got := ReadLength(sock, buf);
    if l.None? {
      return;
    }
    var (plen, idx) := l.value;
    var at := idx + MaskSize(b2);
    var ok: bool;
    ghost var more: bytes;
    ghost var buf1, got1 := buf', got;
    ok, buf', more := Need(sock, buf', at);
    Assoc(old(sock.received), got1, more);
    Assoc(buf, got1, more);
    got := got1 + more;
    LengthStable(buf1, more);
    if !ok {
      return;
    }
    ghost var buf2, got2 := buf', got;
    var mask := buf'[idx..at];
    ok, buf', more := Need(sock, buf', at + plen);
    Assoc(old(sock.received), got2, more);
    Assoc(buf, got2, more);
    got := got2 + more;
    LengthStable(buf2, more);
    if !ok {
      return;
    }
    SameWindow(buf2, more, idx, at);
    var payload := buf'[at..at + plen];
    if b2 >= 128 {
      payload := Masked(payload, mask);
    }
    f := Some(Frame(b1 % 16, payload, at + plen));
  }

  lemma LengthStable(s: bytes, t: bytes)
    requires LengthAt(s).Some?
    ensures LengthAt(s + t) == LengthAt(s)
  {
    SameWindow(s, t, 2, LengthAt(s).value.1);
  }

  /** How a call ended: on a close frame, full, or with nothing complete left to decode. */
  ghost predicate Outcome(stream: bytes, k: nat, out: bytes, rest: bytes, closed: bool, maxBytes: nat) {
    && Take(stream, k).Some? && Take(stream, k).value.0 == out
    && var r := Take(stream, k).value.1;
       if closed then IsClose(r) && rest == []
       else rest == r && (Drained(r) || |out| >= maxBytes)
  }

  lemma AdvanceBuffer(stream: bytes, k: nat, out: bytes, buf: bytes, got: bytes)
    requires Take(stream, k) == Some((out, buf))
    ensures Take(stream + got, k) == Some((out, buf + got))
  {
    TakeStable(stream, got, k);
  }

  lemma AdvanceFrame(stream: bytes, k: nat, out: bytes, buf: bytes)
    requires Take(stream, k) == Some((out, buf)) && FrameAt(buf).Some? && !IsClose(buf)
    ensures var f := FrameAt(buf).value; Take(stream, k + 1) == Some((out + Data(f), buf[f.size..]))
  {
    hide FrameAt, Data, Take;
    TakeOne(buf);
    TakeMore(stream, k, 1);
  }

  /** The receive at the top of each pass; nothing at all and nothing buffered ends the call. */
  method Pull(sock: Socket, buf: bytes) returns (go: bool, buf': bytes, ghost got: bytes)
    modifies sock
    ensures sock.received == old(sock.received) + got && buf' == buf + got
    ensures sock.Stream() == old(sock.Stream())
    ensures go <==> buf' != []
    ensures sock.sent == old(sock.sent)
  {
    var chunk := sock.Recv();
    assert buf + [] == buf;
    if chunk.Chunk? {
      buf', got := buf + chunk.data, chunk.data;
    } else {
      buf', got := buf, [];
    }
    go := buf' != [];
  }

  /**
    ws_recv_all_available. The call hands out the data of exactly the frames it consumed, in order, and keeps the
    rest, which starts on a frame boundary; a close frame drops what is left.
   */
  method RecvAllAvailable(sock: Socket, leftover: bytes, maxBytes: nat := 65536)
    returns (out: bytes, rest: bytes, ghost got: bytes, ghost k: nat, ghost closed: bool)
    modifies sock
    ensures sock.received == old(sock.received) + got && sock.sent == old(sock.sent)
    ensures sock.Stream() == old(sock.Stream())
    ensures Outcome(leftover + got, k, out, rest, closed, maxBytes)
  {
    hide FrameAt, Take, Pending;
    var buf := leftover;
    out, rest, got, k, closed := [], [], [], 0, false;
    assert leftover + [] == leftover && sock.received + [] == sock.received;
    TakeNone(leftover);
    while true
      invariant sock.received == old(sock.received) + got && sock.sent == old(sock.sent)
      invariant Take(leftover + got, k) == Some((out, buf)) && sock.Stream() == old(sock.Stream())
      decreases |Pending(sock.events)| + |buf|
    {
      var go, f;
      ghost var more: bytes;
      ghost var before, data := buf, out;
      go, buf, more := Pull(sock, buf);
      Assoc(old(sock.received), got, more);
      Assoc(leftover, got, more);
      AdvanceBuffer(leftover + got, k, out, before, more);
      got := got + more;
      if !go || |buf| < 2 {
        ShortIsDrained(buf);
        break;
      }
      before := buf;
      f, buf, more := ReadFrame(sock, buf);
      Assoc(old(sock.received), got, more);
      Assoc(leftover, got, more);
      AdvanceBuffer(leftover + got, k, out, before, more);
      got := got + more;
      if f.None? {
        break;
      }
      if IsData(f.value) {
        out := out + f.value.payload;
      } else if f.value.opcode == CLOSE {
        closed := true;
        return out, [], got, k, closed;
      }
      AdvanceFrame(leftover + got, k, data, buf);
      assert data + [] == data;
      buf := buf[f.value.size..];
      k := k + 1;
      if |out| >= maxBytes {
        break;
      }
    }
    rest := buf;
  }

  lemma TakeNone(s: bytes)
    ensures Take(s, 0) == Some(([], s))
  {
  }

  lemma ShortIsDrained(s: bytes)
    ensures |s| < 2 ==> Drained(s)
  {
  }

  // ------------------------------------------------------------- streaming

  /** On a stream without close frames no call ends on one. */
  lemma NeverClosed(stream: bytes, future: bytes, k: nat, out: bytes, rest: bytes, closed: bool, maxBytes: nat)
    requires CloseFree(stream + future) && Outcome(stream, k, out, rest, closed, maxBytes)
    ensures !closed && Take(stream, k) == Some((out, rest))
  {
    CloseFreePrefix(stream, future, k);
  }

  /**
    Any number of calls, each with its own limit, feeding every leftover into the next: on a close-free stream the
    data handed out and the last leftover make up batch decoding of all that was received, however it arrived.
   */
  method Session(sock: Socket, leftover: bytes, limits: seq<nat>, ghost future: bytes)
    returns (out: bytes, rest: bytes, ghost got: bytes, ghost k: nat)
    requires CloseFree(leftover + Pending(sock.events) + future)
    modifies sock
    ensures sock.received == old(sock.received) + got
    ensures Take(leftover + got, k) == Some((out, rest))
    ensures Batch(leftover + got) == (out + Batch(rest).0, Batch(rest).1)
    ensures Drained(rest) ==> (out, rest) == Batch(leftover + got)
    ensures forall ms :: AllWellSent(ms) && leftover + got == ServerStream(ms) ==>
              k <= |ms| && out == Wanted(ms[..k]) && rest == ServerStream(ms[k..])
  {
    hide FrameAt, Take, Pending, Outcome, CloseFree, Batch, Wanted, Octets;
    ghost var start := Pending(sock.events);
    out, rest, got, k := [], leftover, [], 0;
    assert sock.received + [] == sock.received && leftover + [] == leftover;
    TakeNone(leftover);
    for i := 0 to |limits|
      invariant sock.received == old(sock.received) + got && sock.Stream() == old(sock.Stream())
      invariant Take(leftover + got, k) == Some((out, rest))
    {
      ghost var before, had := rest, got;
      var data;
      ghost var more, l, closed;
      data, rest, more, l, closed := RecvAllAvailable(sock, rest, limits[i]);
      Assoc(old(sock.received), had, more);
      Assoc(leftover, had, more);
      got := had + more;
      TakeStable(leftover + had, more, k);
      Cancel(old(sock.received), got + Pending(sock.events), start);
      NothingCloses(leftover, had, more, Pending(sock.events), start, future, k, before);
      NeverClosed(before + more, Pending(sock.events) + future, l, data, rest, closed, limits[i]);
      TakeMore(leftover + got, k, l);
      out := out + data;
      k := k + l;
    }
    TakeIsBatch(leftover + got, k);
    if Drained(rest) {
      DrainedIsBatch(leftover + got, k);
    }
    forall ms | AllWellSent(ms) && leftover + got == ServerStream(ms)
      ensures k <= |ms| && out == Wanted(ms[..k]) && rest == ServerStream(ms[k..])
    {
      ServerStreamTakes(ms, k);
    }
  }

  lemma Cancel(a: bytes, b: bytes, c: bytes)
    requires a + b == a + c
    ensures b == c
  {
    assert (a + b)[|a|..] == b && (a + c)[|a|..] == c;
  }

  /** What is left of a close-free stream is close-free. */
  lemma NothingCloses(leftover: bytes, had: bytes, more: bytes, pending: bytes, start: bytes, future: bytes, k: nat,
                      before: bytes)
    requires had + more + pending == start && CloseFree(leftover + start + future)
    requires Take(leftover + had, k).Some? && Take(leftover + had, k).value.1 == before
    ensures CloseFree(before + more + (pending + future))
  {
    hide FrameAt, Data, Take;
    var tail := more + (pending + future);
    assert leftover + start + future == (leftover + had) + tail;
    TakeStable(leftover + had, tail, k);
    assert before + tail == before + more + (pending + future);
    forall l: nat | Take(before + tail, l).Some?
      ensures !IsClose(Take(before + tail, l).value.1)
    {
      TakeMore((leftover + had) + tail, k, l);
    }
  }
}
