/** Bytes, fixed-width integers, padding and Python-style slicing: the layer under every file format here. */
module Bytes {
  type byte = b: int | 0 <= b < 256
  type bytes = seq<byte>

  const U32 := 0x1_0000_0000
  const U64 := 0x1_0000_0000_0000_0000

  /** What went wrong, named after the exception the program raises. */
  datatype Error = AssertionError | AvbError | IndexError | LookupError | OSError | RuntimeError | StructError
                 | TypeError | UnicodeError | ValueError

  datatype Result<+T> = Ok(value: T) | Err(error: Error) {
    predicate IsFailure() { Err? }

    function PropagateFailure<U>(): Result<U>
      requires Err?
    {
      Err(error)
    }

    function Extract(): T
      requires Ok?
    {
      value
    }
  }

  datatype Option<+T> = None | Some(value: T)

  function Min(a: int, b: int): int {
    if a <= b then a else b
  }

  function Max(a: int, b: int): int {
    if a >= b then a else b
  }

  /** n NUL bytes. */
  function Zeros(n: nat): (r: bytes)
    ensures |r| == n
    ensures forall i :: 0 <= i < n ==> r[i] == 0
  {
    seq(n, _ => 0)
  }

  /** s[lo:hi] for non-negative bounds: bounds past the end are clamped. */
  function Slice<T>(s: seq<T>, lo: nat, hi: nat): (r: seq<T>)
    ensures |r| <= |s|
    ensures lo <= hi <= |s| ==> r == s[lo..hi]
  {
    var l := if lo <= |s| then lo else |s|;
    var h := if hi <= |s| then hi else |s|;
    if l <= h then s[l..h] else []
  }

  lemma SliceNothing<T>(s: seq<T>, p: nat)
    ensures Slice(s, p, p) == []
    ensures p >= |s| ==> Slice(s, p, |s|) == []
  {
  }

  lemma ConsConcat<T>(a: seq<T>, b: seq<T>)
    requires a != []
    ensures a + b == [a[0]] + (a[1..] + b)
  {
  }

  lemma SubSlice<T>(e: seq<T>, x: nat, y: nat, p: nat, q: nat)
    requires x <= y <= |e| && p <= q <= y - x
    ensures e[x..y][p..q] == e[x + p..x + q]
  {
    var l, r := e[x..y][p..q], e[x + p..x + q];
    assert forall i :: 0 <= i < q - p ==> l[i] == e[x..y][p + i] == e[x + p + i] == r[i];
  }

  /** Taking apart what is left of a sequence behind position a. */
  lemma DropSplit<T>(s: seq<T>, a: nat, n: nat)
    requires a + n <= |s|
    ensures s[a..][..n] == s[a..a + n]
    ensures s[a..][n..] == s[a + n..]
  {
    assert forall i :: 0 <= i < n ==> s[a..][..n][i] == s[a + i];
    assert forall i :: 0 <= i < |s| - a - n ==> s[a..][n..][i] == s[a..][n + i] == s[a + n + i];
  }

  lemma Assoc<T>(a: seq<T>, b: seq<T>, c: seq<T>)
    ensures a + (b + c) == (a + b) + c
  {
  }

  lemma Distribute(a: int, b: int, d: int)
    ensures (a + b) * d == a * d + b * d
  {
  }

  /** Writing d at offset off of a file; a gap past the end of the file reads back as NUL bytes. */
  function WriteAt(f: bytes, off: nat, d: bytes): (r: bytes)
    ensures off <= |f| ==> |r| == if off + |d| <= |f| then |f| else off + |d|
  {
    if |d| == 0 then f
    else if off > |f| then f + Zeros(off - |f|) + d
    else f[..off] + d + (if off + |d| <= |f| then f[off + |d|..] else [])
  }

  /** The content of a file cut or NUL-extended to n bytes. */
  function Resize(f: bytes, n: nat): (r: bytes)
    ensures |r| == n
  {
    if n <= |f| then f[..n] else f + Zeros(n - |f|)
  }

  lemma ResizeSame(f: bytes)
    ensures Resize(f, |f|) == f
  {
  }

  lemma ResizeShorter(f: bytes, n: nat)
    requires n <= |f|
    ensures Resize(f, n) == f[..n]
  {
  }

  lemma WriteAtEnd(f: bytes, d: bytes)
    ensures WriteAt(f, |f|, d) == f + d
  {
  }

  /** The octets of ASCII text. */
  function Chars(s: string): bytes
    requires forall i :: 0 <= i < |s| ==> s[i] as int < 128
  {
    seq(|s|, i requires 0 <= i < |s| => s[i] as int)
  }

  predicate Ascii(s: bytes) {
    forall i :: 0 <= i < |s| ==> s[i] < 128
  }

  /** Where b first occurs in s. */
  function Find(s: bytes, b: byte): (i: Option<nat>)
    ensures i.None? <==> b !in s
    ensures i.Some? ==> i.value < |s| && s[i.value] == b && b !in s[..i.value]
  {
    if s == [] then None
    else if s[0] == b then Some(0)
    else
      var r := Find(s[1..], b);
      if r.None? then None
      else
        assert s[..r.value + 1] == [s[0]] + s[1..][..r.value];
        Some(r.value + 1)
  }

  // ------------------------------------------------------------- integers

  /** 2^n; shifting right by n bits divides by it. */
  function Pow2(n: nat): (p: nat)
    ensures p > 0
  {
    if n == 0 then 1 else 2 * Pow2(n - 1)
  }

  predicate IsPow2(n: nat) {
    n == 1 || (n > 1 && n % 2 == 0 && IsPow2(n / 2))
  }

  /** The smallest power of two that is at least n. */
  function RoundToPow2(n: nat): (r: nat)
    requires n > 0
    ensures n <= r < 2 * n && IsPow2(r)
  {
    if n == 1 then 1 else 2 * RoundToPow2((n + 1) / 2)
  }

  function Pow256(n: nat): (p: nat)
    ensures p >= 1
  {
    if n == 0 then 1 else 256 * Pow256(n - 1)
  }

  lemma Pow256Values()
    ensures Pow256(1) == 0x100
    ensures Pow256(2) == 0x1_0000
    ensures Pow256(4) == 0x1_0000_0000
    ensures Pow256(8) == 0x1_0000_0000_0000_0000
  {
    assert Pow256(4) == 256 * Pow256(3);
    assert Pow256(6) == 256 * Pow256(5);
    assert Pow256(8) == 256 * Pow256(7);
  }

  /** The n low octets of v, least significant first. */
  function LE(v: nat, n: nat): (r: bytes)
    ensures |r| == n
  {
    if n == 0 then [] else [v % 256] + LE(v / 256, n - 1)
  }

  function FromLE(s: bytes): nat {
    if s == [] then 0 else s[0] + 256 * FromLE(s[1..])
  }

  /** The n low octets of v, most significant first. */
  function BE(v: nat, n: nat): (r: bytes)
    ensures |r| == n
  {
    if n == 0 then [] else BE(v / 256, n - 1) + [v % 256]
  }

  function FromBE(s: bytes): nat {
    if s == [] then 0 else 256 * FromBE(s[..|s| - 1]) + s[|s| - 1]
  }

  lemma {:induction false} LERoundTrip(v: nat, n: nat)
    requires v < Pow256(n)
    ensures FromLE(LE(v, n)) == v
  {
    if n > 0 {
      LERoundTrip(v / 256, n - 1);
      assert LE(v, n)[1..] == LE(v / 256, n - 1);
    }
  }

  lemma {:induction false} BERoundTrip(v: nat, n: nat)
    requires v < Pow256(n)
    ensures FromBE(BE(v, n)) == v
  {
    if n > 0 {
      BERoundTrip(v / 256, n - 1);
      assert BE(v, n)[..n - 1] == BE(v / 256, n - 1);
    }
  }

  lemma DivMod256(q: nat, r: byte)
    ensures (256 * q + r) / 256 == q && (256 * q + r) % 256 == r
  {
  }

  lemma {:induction false} FromLERoundTrip(s: bytes)
    ensures FromLE(s) < Pow256(|s|)
    ensures LE(FromLE(s), |s|) == s
  {
    if s != [] {
      FromLERoundTrip(s[1..]);
      DivMod256(FromLE(s[1..]), s[0]);
      assert s == [s[0]] + s[1..];
    }
  }

  lemma {:induction false} FromBERoundTrip(s: bytes)
    ensures FromBE(s) < Pow256(|s|)
    ensures BE(FromBE(s), |s|) == s
  {
    if s != [] {
      var k := |s| - 1;
      FromBERoundTrip(s[..k]);
      DivMod256(FromBE(s[..k]), s[k]);
      assert s == s[..k] + [s[k]];
    }
  }

  /** Dividing twice divides by the product. */
  lemma DivDiv(v: nat, p: nat)
    requires p > 0
    ensures (v / 256) / p == v / (256 * p)
  {
    var q, r := (v / 256) / p, (v / 256) % p;
    var l := v % 256;
    assert v / 256 == p * q + r;
    assert v == (256 * p) * q + (256 * r + l) by {
      assert 256 * (p * q) == (256 * p) * q;
    }
    assert (256 * p) * q == q * (256 * p);
    DivUnique(v, 256 * p, q, 256 * r + l);
  }

  /** Octet i of the little-endian form is digit i to the base 256. */
  lemma {:induction false} LEAt(v: nat, n: nat, i: nat)
    requires i < n
    ensures LE(v, n)[i] == (v / Pow256(i)) % 256
  {
    if i > 0 {
      LEAt(v / 256, n - 1, i - 1);
      DivDiv(v, Pow256(i - 1));
    }
  }

  /** In the big-endian form it is octet i from the end. */
  lemma {:induction false} BEAt(v: nat, n: nat, i: nat)
    requires i < n
    ensures BE(v, n)[n - 1 - i] == (v / Pow256(i)) % 256
  {
    if i > 0 {
      BEAt(v / 256, n - 1, i - 1);
      DivDiv(v, Pow256(i - 1));
    }
  }

  lemma {:induction false} ZerosAreZero(n: nat)
    ensures FromBE(Zeros(n)) == 0
  {
    if n > 0 {
      assert Zeros(n)[..n - 1] == Zeros(n - 1);
      ZerosAreZero(n - 1);
    }
  }

  // ------------------------------------------------------------- rounding

  /** number rounded up to the next multiple of size. */
  function RoundToMultiple(number: nat, size: nat): (r: nat)
    requires size > 0
    ensures r % size == 0
    ensures number <= r < number + size
    ensures number % size == 0 ==> r == number
  {
    var remainder := number % size;
    if remainder == 0 then number
    else
      MultipleStep(number, size);
      number + size - remainder
  }

  lemma MultipleStep(number: nat, size: nat)
    requires size > 0
    ensures (number + size - number % size) % size == 0
  {
    var q := number / size;
    assert number + size - number % size == (q + 1) * size;
    MulMod(q + 1, size);
  }

  lemma MulMod(q: nat, size: nat)
    requires size > 0
    ensures (q * size) % size == 0
    ensures (q * size) / size == q
  {
    DivUnique(q * size, size, q, 0);
  }

  lemma {:induction false} MulGrows(a: int, b: int, d: nat)
    requires a <= b
    ensures a * d <= b * d
    ensures a < b ==> a * d + d <= b * d
    decreases b - a
  {
    if a < b {
      MulGrows(a, b - 1, d);
      assert b * d == (b - 1) * d + d;
    }
  }

  /** Euclidean division is unique. */
  lemma DivUnique(n: nat, d: nat, q: nat, r: nat)
    requires d > 0 && r < d && n == q * d + r
    ensures n / d == q && n % d == r
  {
    var q', r' := n / d, n % d;
    assert n == q' * d + r';
    if q' < q {
      MulGrows(q', q, d);
    } else if q' > q {
      MulGrows(q, q', d);
    }
  }

  lemma MultipleAsProduct(n: nat, d: nat) returns (q: nat)
    requires d > 0 && n % d == 0
    ensures n == q * d && q == n / d
  {
    q := n / d;
  }

  /** Sums and differences of multiples are multiples. */
  lemma MultiplesClosed(a: nat, b: nat, d: nat)
    requires d > 0 && a % d == 0 && b % d == 0
    ensures (a + b) % d == 0 && (a + b) / d == a / d + b / d
    ensures a >= b ==> (a - b) % d == 0 && (a - b) / d == a / d - b / d
  {
    var p := MultipleAsProduct(a, d);
    var q := MultipleAsProduct(b, d);
    assert a + b == (p + q) * d;
    MulMod(p + q, d);
    if a >= b {
      if p < q {
        MulGrows(p, q, d);
        assert false;
      }
      assert a - b == (p - q) * d;
      MulMod(p - q, d);
    }
  }

  /** Two multiples less than d apart are ordered. */
  lemma MultiplesGap(a: nat, b: nat, d: nat)
    requires d > 0 && a % d == 0 && b % d == 0 && a < b + d
    ensures a <= b
  {
    var p := MultipleAsProduct(a, d);
    var q := MultipleAsProduct(b, d);
    if p <= q {
      MulGrows(p, q, d);
    } else {
      MulGrows(q, p, d);
    }
  }

  lemma DivMonotone(a: nat, b: nat, d: nat)
    requires d > 0 && a <= b
    ensures a / d <= b / d
  {
    var p, q := a / d, b / d;
    assert a == p * d + a % d && b == q * d + b % d;
    if q < p {
      MulGrows(q, p, d);
    }
  }

  lemma RoundToMultipleMonotone(a: nat, b: nat, size: nat)
    requires size > 0 && a <= b
    ensures RoundToMultiple(a, size) <= RoundToMultiple(b, size)
  {
    MultiplesGap(RoundToMultiple(a, size), RoundToMultiple(b, size), size);
  }
}
