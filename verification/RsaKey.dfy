/** Arithmetic behind RSA public keys in vbmeta blobs: modular inverses and long integers. */
module RsaKey {
  import opened Bytes

  // ------------------------------------------------------------- products

  lemma MulDist(a: int, b: int, c: int)
    ensures a * (b + c) == a * b + a * c
    ensures a * (b - c) == a * b - a * c
  {
  }

  lemma MulSwap(a: int, b: int, c: int)
    ensures a * (b * c) == b * (a * c)
    ensures a * (b * c) == (a * b) * c
  {
  }

  lemma MulSign(d: int, k: int)
    requires d > 0 && k <= 0
    ensures d * k <= 0
  {
  }

  lemma NotOne(d: int, k: int)
    requires d > 1
    ensures d * k != 1
  {
    if k <= 0 { MulSign(d, k); } else { MulGrows(1, k, d); }
  }

  // ------------------------------------------------------------- greatest common divisors

  function Egcd(a: nat, b: nat): (r: (nat, int, int))
    ensures a * r.1 + b * r.2 == r.0
    ensures a > 0 || b > 0 ==> r.0 > 0
    decreases a
  {
    if a == 0 then (b, 0, 1)
    else
      var (g, y, x) := Egcd(b % a, a);
      EgcdStep(a, b, x, y);
      (g, x - (b / a) * y, y)
  }

  lemma EgcdStep(a: nat, b: nat, x: int, y: int)
    requires a > 0
    ensures a * (x - (b / a) * y) + b * y == (b % a) * y + a * x
  {
    var q, r := b / a, b % a;
    assert b == a * q + r;
    MulDist(a, x, q * y);
    MulSwap(a, q, y);
    MulDist(y, a * q, r);
  }

  ghost predicate Divides(d: int, n: int) {
    exists k: int :: d * k == n
  }

  lemma DividesSum(d: int, m: int, n: int, x: int, y: int)
    requires Divides(d, m) && Divides(d, n)
    ensures Divides(d, m * x + n * y)
  {
    var k :| d * k == m;
    var l :| d * l == n;
    assert d * (k * x + l * y) == m * x + n * y by {
      assert d * (k * x) == (d * k) * x && d * (l * y) == (d * l) * y;
    }
  }

  lemma DividesTrivially(b: int)
    ensures Divides(b, b) && Divides(b, 0)
  {
    assert b * 1 == b && b * 0 == 0;
  }

  lemma DividesDividend(g: int, a: nat, b: nat)
    requires a > 0 && Divides(g, a) && Divides(g, b % a)
    ensures Divides(g, b)
  {
    DividesSum(g, a, b % a, b / a, 1);
  }

  /** The first component divides both numbers, and every common divisor divides it. */
  lemma {:induction false} EgcdIsGreatest(a: nat, b: nat)
    ensures var g := Egcd(a, b).0;
            && Divides(g, a) && Divides(g, b)
            && forall d: int :: Divides(d, a) && Divides(d, b) ==> Divides(d, g)
    decreases a
  {
    hide Divides;
    var (g, s, t) := Egcd(a, b);
    if a == 0 {
      DividesTrivially(b);
    } else {
      EgcdIsGreatest(b % a, a);
      DividesDividend(g, a, b);
    }
    forall d: int | Divides(d, a) && Divides(d, b)
      ensures Divides(d, g)
    {
      DividesSum(d, a, b, s, t);
    }
  }

  ghost predicate Coprime(a: int, b: int) {
    forall d: int :: d > 0 && Divides(d, a) && Divides(d, b) ==> d == 1
  }

  lemma CoprimeIffGcdIsOne(a: nat, b: nat)
    requires a > 0 || b > 0
    ensures Coprime(a, b) <==> Egcd(a, b).0 == 1
  {
    EgcdIsGreatest(a, b);
    var g := Egcd(a, b).0;
    if g == 1 {
      forall d: int | d > 0 && Divides(d, a) && Divides(d, b)
        ensures d == 1
      {
        var k :| d * k == 1;
        if d > 1 { NotOne(d, k); }
      }
    }
  }

  // ------------------------------------------------------------- modular inverses

  function ModInv(a: nat, m: nat): Option<nat>
    requires m > 0
  {
    var (gcd, x, _) := Egcd(a, m);
    if gcd != 1 then None else Some(x % m)
  }

  /** There is an inverse exactly when the numbers are coprime, and it is one. */
  lemma ModInvIff(a: nat, m: nat)
    requires m > 0
    ensures ModInv(a, m).Some? <==> Coprime(a, m)
    ensures ModInv(a, m).Some? ==> ModInv(a, m).value < m && (a * ModInv(a, m).value) % m == 1 % m
  {
    CoprimeIffGcdIsOne(a, m);
    var (g, x, y) := Egcd(a, m);
    if g == 1 {
      InverseOf(a, m, x, y);
    }
  }

  lemma InverseOf(a: nat, m: nat, x: int, y: int)
    requires m > 0 && a * x + m * y == 1
    ensures (a * (x % m)) % m == 1 % m
  {
    var q, r := x / m, x % m;
    assert x == m * q + r;
    MulDist(a, m * q, r);
    MulSwap(a, m, q);
    MulDist(m, y, a * q);
    SameResidue(a * r, 1, m, y + a * q);
  }

  /** Numbers that differ by a multiple of m have the same residue. */
  lemma SameResidue(n: int, c: int, m: nat, k: int)
    requires m > 0 && n == c - m * k
    ensures n % m == c % m
  {
    var q, r := c / m, c % m;
    assert c == m * q + r;
    MulDist(m, q, k);
    assert n == m * (q - k) + r;
    ResidueOf(n, m, q - k, r);
  }

  lemma ResidueOf(n: int, m: nat, q: int, r: nat)
    requires m > 0 && r < m && n == m * q + r
    ensures n % m == r
  {
    var q', r' := n / m, n % m;
    assert n == m * q' + r';
    MulDist(m, q, q');
    if q - q' >= 1 { MulGrows(1, q - q', m); }
    if q - q' <= -1 { MulGrows(q - q', -1, m); }
  }

  lemma {:induction false} OddIsCoprime(a: nat, n: nat)
    requires a % 2 == 1
    ensures Coprime(a, Pow2(n))
  {
    forall d: int | d > 0 && Divides(d, a) && Divides(d, Pow2(n))
      ensures d == 1
    {
      var k :| d * k == a;
      EvenTimes(d, k);
      OddDivisorOfPow2(d, n);
    }
  }

  lemma {:induction false} OddDivisorOfPow2(d: int, n: nat)
    requires d > 0 && d % 2 == 1 && Divides(d, Pow2(n))
    ensures d == 1
  {
    var l :| d * l == Pow2(n);
    if n == 0 {
      if d > 1 { NotOne(d, l); }
    } else {
      OddTimes(d, l);
      var h := l / 2;
      MulSwap(d, 2, h);
      assert d * h == Pow2(n - 1);
      OddDivisorOfPow2(d, n - 1);
    }
  }

  lemma EvenTimes(d: int, l: int)
    ensures d % 2 == 0 ==> (d * l) % 2 == 0
  {
    MulSwap(2, d / 2, l);
  }

  lemma OddExpand(a: int, l: int)
    ensures (2 * a + 1) * l == 2 * (a * l) + l
  {
    MulDist(l, 2 * a, 1);
    MulSwap(2, a, l);
  }

  lemma Parity(n: int, p: int, l: int)
    requires n == 2 * p + l && n % 2 == 0
    ensures l % 2 == 0
  {
  }

  lemma OddTimes(d: int, l: int)
    requires d % 2 == 1 && (d * l) % 2 == 0
    ensures l % 2 == 0
  {
    OddExpand(d / 2, l);
    var p, n := (d / 2) * l, d * l;
    Parity(n, p, l);
  }

  function BitLength(n: nat): nat {
    if n == 0 then 0 else 1 + BitLength(n / 2)
  }

  /** n.bit_length() is where n lies between powers of two. */
  lemma {:induction false} BitLengthBounds(n: nat)
    ensures n < Pow2(BitLength(n))
    ensures n > 0 ==> BitLength(n) > 0 && Pow2(BitLength(n) - 1) <= n
  {
    if n > 0 {
      BitLengthBounds(n / 2);
    }
  }

  // ------------------------------------------------------------- long integers

  /** v without its n low octets. */
  function Drop(v: nat, n: nat): nat {
    if n == 0 then v else Drop(v, n - 1) / 256
  }

  lemma {:induction false} DropIsShift(v: nat, n: nat)
    ensures Drop(v, n) == v / Pow256(n)
  {
    if n > 0 {
      DropIsShift(v, n - 1);
      DivTwice(v, Pow256(n - 1));
    }
  }

  lemma DivTwice(v: nat, p: nat)
    requires p > 0
    ensures (v / p) / 256 == v / (256 * p)
  {
    var q, r := v / p, v % p;
    var a, b := q / 256, q % 256;
    assert v == q * p + r && q == 256 * a + b;
    SplitQuotient(p, a, b);
    MulGrows(b, 255, p);
    DivUnique(v, 256 * p, a, b * p + r);
  }

  lemma SplitQuotient(p: int, a: int, b: int)
    ensures (256 * a + b) * p == a * (256 * p) + b * p
  {
    MulDist(p, 256 * a, b);
    MulSwap(p, 256, a);
    MulSwap(256, p, a);
  }

  /** The octets of v from the top: one more octet on the right is the next lower one. */
  lemma {:induction false} BESplit(v: nat, k: nat, n: nat)
    requires k <= n
    ensures BE(v, n)[..k] == BE(Drop(v, n - k), k)
    decreases n - k
  {
    if k == n {
      assert BE(v, n)[..n] == BE(v, n);
    } else {
      BESplit(v, k + 1, n);
      SubSlice(BE(v, n), 0, k + 1, 0, k);
      BETop(Drop(v, n - k - 1), k);
    }
  }

  lemma BETop(v: nat, k: nat)
    ensures BE(v, k + 1)[..k] == BE(v / 256, k)
  {
  }

  /** encode_long: big-endian octets, most significant first; a size that is not whole octets is refused. */
  method EncodeLong(numBits: nat, value: nat) returns (r: Result<bytes>)
    ensures numBits % 8 == 0 ==> r == Ok(BE(value, numBits / 8))
    ensures numBits % 8 != 0 ==> r == Err(ValueError)
  {
    var ret: bytes := [];
    var bitPos: int := numBits;
    while bitPos > 0
      invariant bitPos == numBits - 8 * |ret| >= 0
      invariant numBits % 8 == 0 ==> ret == BE(value, numBits / 8)[..|ret|]
      decreases bitPos
    {
      if bitPos < 8 {
        return Err(ValueError);
      }
      var octet := (value / Pow2(bitPos - 8)) % 256;
      if numBits % 8 == 0 {
        var n := numBits / 8;
        assert bitPos - 8 == 8 * (n - |ret| - 1);
        ShiftIsPow256(n - |ret| - 1);
        DropIsShift(value, n - |ret| - 1);
        BESplit(value, |ret| + 1, n);
        BESplit(value, |ret|, n);
      }
      ret := ret + [octet];
      bitPos := bitPos - 8;
    }
    assert |ret| == numBits / 8 && BE(value, numBits / 8)[..numBits / 8] == BE(value, numBits / 8);
    return Ok(ret);
  }

  lemma {:induction false} ShiftIsPow256(n: nat)
    ensures Pow2(8 * n) == Pow256(n)
  {
    if n > 0 {
      ShiftIsPow256(n - 1);
      var m := 8 * n;
      assert Pow2(m) == 2 * Pow2(m - 1);
      assert Pow2(m - 1) == 2 * Pow2(m - 2);
      assert Pow2(m - 2) == 2 * Pow2(m - 3);
      assert Pow2(m - 3) == 2 * Pow2(m - 4);
      assert Pow2(m - 4) == 2 * Pow2(m - 5);
      assert Pow2(m - 5) == 2 * Pow2(m - 6);
      assert Pow2(m - 6) == 2 * Pow2(m - 7);
      assert Pow2(m - 7) == 2 * Pow2(m - 8);
    }
  }

  method DecodeLong(blob: bytes) returns (v: nat)
    ensures v == FromBE(blob)
  {
    v := 0;
    for i := 0 to |blob|
      invariant v == FromBE(blob[..i])
    {
      assert blob[..i + 1][..i] == blob[..i];
      v := v * 256 + blob[i];
    }
    assert blob[..|blob|] == blob;
  }

  /** Decoding what was encoded gives the value modulo two to the number of bits. */
  lemma {:induction false} LongRoundTrip(v: nat, n: nat)
    ensures FromBE(BE(v, n)) == v % Pow2(8 * n)
  {
    ShiftIsPow256(n);
    LongRoundTrip256(v, n);
  }

  lemma {:induction false} LongRoundTrip256(v: nat, n: nat)
    ensures FromBE(BE(v, n)) == v % Pow256(n)
  {
    if n > 0 {
      LongRoundTrip256(v / 256, n - 1);
      assert BE(v, n)[..n - 1] == BE(v / 256, n - 1);
      ModTwice(v, Pow256(n - 1));
    }
  }

  lemma ModTwice(v: nat, p: nat)
    requires p > 0
    ensures v % (256 * p) == 256 * ((v / 256) % p) + v % 256
  {
    var q, r := (v / 256) / p, (v / 256) % p;
    assert v / 256 == q * p + r;
    MulSwap(256, q, p);
    DivUnique(v, 256 * p, q, 256 * r + v % 256);
  }

  // ------------------------------------------------------------- public keys

  datatype RSAPublicKey = RSAPublicKey(exponent: nat, modulus: nat, numBits: nat)

  /** The exponent of n as a power of two, rounded up. */
  function CeilLog2(n: nat): nat
    requires n > 0
  {
    BitLength(n - 1)
  }

  /** What the constructor makes of a modulus; key sizes are rounded up to powers of two. */
  function KeyOf(modulus: nat): RSAPublicKey
    requires modulus > 1
  {
    RSAPublicKey(65537, modulus, RoundToPow2(CeilLog2(modulus)))
  }

  function N0inv(modulus: nat): Option<nat> {
    var i := ModInv(modulus, U32);
    if i.None? then None else Some(U32 - i.value)
  }

  /** r squared modulo N, where r is two to the modulus' own bit length. */
  function RR(modulus: nat): nat
    requires modulus > 0
  {
    var r := Pow2(BitLength(modulus));
    (r * r) % modulus
  }

  lemma {:induction false} Pow2Sum(a: nat, b: nat)
    ensures Pow2(a + b) == Pow2(a) * Pow2(b)
  {
    if a > 0 {
      Pow2Sum(a - 1, b);
      MulSwap(2, Pow2(a - 1), Pow2(b));
    }
  }

  /** A factor coprime to n can be dropped. */
  lemma CoprimeFactor(n: nat, a: nat, x: int)
    requires n > 0 && Coprime(n, a) && (a * x) % n == 0
    ensures x % n == 0
  {
    hide Egcd;
    CoprimeIffGcdIsOne(n, a);
    var (_, s, t) := Egcd(n, a);
    var k := (a * x) / n;
    assert a * x == n * k;
    Combine(n, a, x, s, t, k);
    ResidueOf(x, n, s * x + t * k, 0);
  }

  lemma Combine(n: int, a: int, x: int, s: int, t: int, k: int)
    requires n * s + a * t == 1 && a * x == n * k
    ensures x == n * (s * x + t * k)
  {
    MulDist(x, n * s, a * t);
    MulSwap(n, s, x);
    MulSwap(t, a, x);
    MulSwap(t, n, k);
    MulDist(n, s * x, t * k);
    assert x * (n * s) == n * (s * x) && x * (a * t) == t * (a * x);
  }

  /** Powers of two agree modulo an odd n exactly when n divides what is left of their quotient. */
  lemma ResiduesIff(n: nat, a: nat, b: nat)
    requires n > 0 && Coprime(n, a)
    ensures a % n == (a * b) % n <==> (b - 1) % n == 0
  {
    hide Coprime;
    MulDist(a, b, 1);
    var x := b - 1;
    assert a * x == a * b - a;
    if a % n == (a * b) % n {
      ResidueOf(a * x, n, (a * b) / n - a / n, 0) by { MulDist(n, (a * b) / n, a / n); }
      CoprimeFactor(n, a, x);
    }
    if x % n == 0 {
      var k := x / n;
      assert x == n * k;
      MulSwap(a, n, k);
      SameResidue(a, a * b, n, a * k);
    }
  }

  /** r squared as the comment has it, for a key of so many bits. */
  function KeySizeSquare(numBits: nat): nat {
    Pow2(numBits) * Pow2(numBits)
  }

  function Distance(a: nat, b: nat): nat {
    if a < b then b - a else a - b
  }

  /**
    The code squares two to the modulus' own bit length where the comment speaks of the key size. For the odd moduli
    that can be encoded the two agree exactly when the modulus divides 2^(2d) - 1, where d is how far bit length and
    key size are apart; so always when they are the same.
   */
  lemma RRIff(modulus: nat, numBits: nat)
    requires modulus % 2 == 1
    ensures RR(modulus) == KeySizeSquare(numBits) % modulus
            <==> (Pow2(2 * Distance(numBits, BitLength(modulus))) - 1) % modulus == 0
    ensures numBits == BitLength(modulus) ==> RR(modulus) == KeySizeSquare(numBits) % modulus
  {
    hide BitLength, Pow2, Coprime;
    var l := BitLength(modulus);
    var lo, d := if numBits < l then numBits else l, Distance(numBits, l);
    Pow2Sum(l, l);
    Pow2Sum(numBits, numBits);
    Pow2Sum(2 * lo, 2 * d);
    OddIsCoprime(modulus, 2 * lo);
    ResiduesIff(modulus, Pow2(2 * lo), Pow2(2 * d));
  }

  lemma U32IsPow2()
    ensures Pow2(32) == U32
  {
    ShiftIsPow256(4);
    Pow256Values();
  }

  lemma EvenIsNot(a: nat)
    requires a % 2 == 0
    ensures !Coprime(a, U32)
  {
    assert 2 * (a / 2) == a && 2 * 0x8000_0000 == U32;
    assert Divides(2, a) && Divides(2, U32);
  }

  /** n0inv exists exactly for odd moduli; it then fits 32 bits and is the negated inverse of the modulus. */
  lemma N0invIff(n: nat)
    ensures N0inv(n).Some? <==> n % 2 == 1
    ensures N0inv(n).Some? ==> 0 < N0inv(n).value < U32 && (n * N0inv(n).value + 1) % U32 == 0
  {
    ModInvIff(n, U32);
    U32IsPow2();
    if n % 2 == 1 {
      OddIsCoprime(n, 32);
      var i := ModInv(n, U32).value;
      var q := (n * i) / U32;
      assert n * i == U32 * q + 1;
      assert n * 0 == 0;
      MulDist(n, U32, i);
      ResidueOf(n * (U32 - i) + 1, U32, n - q, 0);
    } else {
      EvenIsNot(n);
    }
  }

  /** What n0inv is for: adding a multiple of the modulus clears the low 32 bits of any number. */
  lemma MontgomeryStep(n: nat, t: nat)
    requires n % 2 == 1
    ensures N0inv(n).Some?
    ensures (t + ((t * N0inv(n).value) % U32) * n) % U32 == 0
  {
    N0invIff(n);
    var k := N0inv(n).value;
    var q, m := (t * k) / U32, (t * k) % U32;
    assert t * k == U32 * q + m;
    var c := (n * k + 1) / U32;
    assert n * k + 1 == U32 * c;
    MontgomeryProduct(n, t, k, q, m, c);
    ResidueOf(t + m * n, U32, t * c - q * n, 0);
  }

  lemma MontgomeryProduct(n: int, t: int, k: int, q: int, m: int, c: int)
    requires t * k == U32 * q + m && n * k + 1 == U32 * c
    ensures t + m * n == U32 * (t * c - q * n)
  {
    MulDist(n, t * k, U32 * q);
    MulSwap(n, U32, q);
    MulSwap(n, t, k);
    MulDist(t, n * k, 1);
    MulSwap(t, U32, c);
    MulDist(U32, t * c, q * n);
  }

  /** AvbRSAPublicKeyHeader, then the modulus and r squared. */
  function EncodedKey(key: RSAPublicKey): bytes
    requires key.modulus % 2 == 1 && key.numBits < U32
  {
    N0invIff(key.modulus);
    BE(key.numBits, 4) + BE(N0inv(key.modulus).value, 4)
    + BE(key.modulus, key.numBits / 8) + BE(RR(key.modulus), key.numBits / 8)
  }

  /** RSAPublicKey.encode: even moduli have no n0inv, which raises before anything else can. */
  method EncodeKey(key: RSAPublicKey) returns (r: Result<bytes>)
    ensures r.Ok? <==> Encodable(key)
    ensures key.exponent != 65537 ==> r == Err(AvbError)
    ensures key.exponent == 65537 && key.modulus % 2 == 0 ==> r == Err(TypeError)
    ensures key.exponent == 65537 && key.modulus % 2 == 1 && key.numBits >= U32 ==> r == Err(StructError)
    ensures key.exponent == 65537 && key.modulus % 2 == 1 && key.numBits < U32 ==>
              r == if key.numBits % 8 != 0 then Err(ValueError) else Ok(EncodedKey(key))
  {
    if key.exponent != 65537 {
      return Err(AvbError);
    }
    N0invIff(key.modulus);
    var n0inv := N0inv(key.modulus);
    if n0inv.None? {
      return Err(TypeError);
    }
    var rrmodn := RR(key.modulus);
    if key.numBits >= U32 {
      return Err(StructError);
    }
    var ret := BE(key.numBits, 4) + BE(n0inv.value, 4);
    var m := EncodeLong(key.numBits, key.modulus);
    if m.Err? {
      return m;
    }
    ret := ret + m.value;
    var rr := EncodeLong(key.numBits, rrmodn);
    if rr.Err? {
      return rr;
    }
    return Ok(ret + rr.value);
  }

  /** All four parts can be read back, whenever the modulus fits the number of bits it is said to have. */
  lemma KeyRoundTrip(key: RSAPublicKey)
    requires key.modulus % 2 == 1 && key.numBits < U32 && key.numBits % 8 == 0 && key.modulus < Pow2(key.numBits)
    ensures var e, n := EncodedKey(key), key.numBits / 8;
            && |e| == 8 + 2 * n
            && FromBE(e[..4]) == key.numBits
            && Some(FromBE(e[4..8])) == N0inv(key.modulus)
            && FromBE(e[8..8 + n]) == key.modulus
            && FromBE(e[8 + n..]) == RR(key.modulus)
  {
    N0invIff(key.modulus);
    Pow256Values();
    BERoundTrip(key.numBits, 4);
    BERoundTrip(N0inv(key.modulus).value, 4);
    ShiftIsPow256(key.numBits / 8);
    BERoundTrip(key.modulus, key.numBits / 8);
    BERoundTrip(RR(key.modulus), key.numBits / 8);
    var n := key.numBits / 8;
    hide BE, FromBE, N0inv, RR;
    var a, b, c, d := BE(key.numBits, 4), BE(N0inv(key.modulus).value, 4), BE(key.modulus, n), BE(RR(key.modulus), n);
    Four(a, b, c, d);
  }

  lemma Four(a: bytes, b: bytes, c: bytes, d: bytes)
    ensures var e := a + b + c + d;
            && e[..|a|] == a && e[|a|..|a| + |b|] == b && e[|a| + |b|..|a| + |b| + |c|] == c
            && e[|a| + |b| + |c|..] == d
  {
  }

  // ------------------------------------------------------------- keys as they are read

  /** Keys that have an encoding. */
  predicate Encodable(key: RSAPublicKey) {
    key.exponent == 65537 && key.modulus % 2 == 1 && key.numBits < U32 && key.numBits % 8 == 0
  }

  /** r squared as found in the encoding of a key. */
  function EncodedRR(key: RSAPublicKey): nat
    requires Encodable(key)
  {
    FromBE(EncodedKey(key)[8 + key.numBits / 8..])
  }

  /** The size of an odd modulus is its bit length rounded up; it can be encoded from five bits on. */
  lemma OwnSize(modulus: nat)
    requires modulus % 2 == 1 && modulus > 1
    ensures var key, l := KeyOf(modulus), BitLength(modulus);
            && key.numBits == RoundToPow2(l) && modulus < Pow2(key.numBits)
            && (5 <= l <= 0x8000_0000 ==> Encodable(key))
  {
    var key, l := KeyOf(modulus), BitLength(modulus);
    assert BitLength(modulus - 1) == l by { assert (modulus - 1) / 2 == modulus / 2; }
    BitLengthBounds(modulus);
    Pow2Monotone(l, key.numBits);
    if l >= 5 {
      EightDivides(key.numBits);
    }
  }

  lemma {:induction false} Pow2Monotone(a: nat, b: nat)
    requires a <= b
    ensures Pow2(a) <= Pow2(b)
  {
    if a < b {
      Pow2Monotone(a, b - 1);
    }
  }

  lemma EightDivides(n: nat)
    requires IsPow2(n) && n >= 5
    ensures n % 8 == 0
  {
    assert IsPow2(n / 2) && IsPow2(n / 2 / 2);
  }

  /** What is encoded for a key as read is the square of its size exactly when the modulus divides 2^(2d) - 1. */
  lemma OwnRRIff(modulus: nat)
    requires modulus % 2 == 1 && modulus > 1 && Encodable(KeyOf(modulus))
    ensures var key := KeyOf(modulus);
            EncodedRR(key) == KeySizeSquare(key.numBits) % modulus
            <==> (Pow2(2 * Distance(key.numBits, BitLength(modulus))) - 1) % modulus == 0
  {
    hide BitLength, EncodedRR, KeySizeSquare, RR, Pow2, RoundToPow2, CeilLog2;
    OwnSize(modulus);
    EncodesRR(KeyOf(modulus));
    RRIff(modulus, KeyOf(modulus).numBits);
  }

  lemma EncodesRR(key: RSAPublicKey)
    requires Encodable(key) && key.modulus < Pow2(key.numBits)
    ensures EncodedRR(key) == RR(key.modulus)
  {
    hide EncodedKey, RR, Pow2, FromBE, N0inv;
    KeyRoundTrip(key);
  }

  /** It is when the bit length is a power of two, and never when it lies in the upper third of those rounded to one. */
  lemma OwnRRDiffers(modulus: nat)
    requires modulus % 2 == 1 && modulus > 1 && Encodable(KeyOf(modulus))
    ensures var key, l := KeyOf(modulus), BitLength(modulus);
            && (l == key.numBits ==> EncodedRR(key) == KeySizeSquare(key.numBits) % modulus)
            && (l < key.numBits && 2 * key.numBits < 3 * l ==>
                  EncodedRR(key) != KeySizeSquare(key.numBits) % modulus)
  {
    hide BitLength, EncodedRR, KeySizeSquare, Pow2, RoundToPow2, CeilLog2, Encodable;
    var n, l := KeyOf(modulus).numBits, BitLength(modulus);
    OwnSize(modulus);
    OwnRRIff(modulus);
    BitLengthBounds(modulus);
    PowersBelow(0, modulus);
    if l < n && 2 * n < 3 * l {
      Pow2Monotone(2 * (n - l), l - 1);
      PowersBelow(2 * (n - l), modulus);
    }
  }

  lemma PowersBelow(e: nat, modulus: nat)
    requires modulus > 1 && (e > 0 ==> Pow2(e) <= modulus)
    ensures (Pow2(e) - 1) % modulus == 0 <==> e == 0
  {
    PowerParts(e);
    hide Pow2;
    SmallResidue(Pow2(e) - 1, modulus);
  }

  lemma PowerParts(e: nat)
    ensures Pow2(0) == 1 && (e > 0 ==> Pow2(e) >= 2)
  {
    if e > 0 {
      assert Pow2(e) == 2 * Pow2(e - 1);
    }
  }

  lemma SmallResidue(x: nat, m: nat)
    requires x < m
    ensures x % m == x
  {
  }

  /** So every 1536-bit key, which is stored with 2048 bits. */
  lemma Keys1536Differ(modulus: nat)
    requires modulus % 2 == 1 && BitLength(modulus) == 1536
    ensures modulus > 1 && KeyOf(modulus).numBits == 2048 && Encodable(KeyOf(modulus))
    ensures EncodedRR(KeyOf(modulus)) != KeySizeSquare(2048) % modulus
  {
    hide BitLength, EncodedRR, KeySizeSquare, Pow2, RoundToPow2;
    SmallLengths();
    SmallPowers();
    OwnSize(modulus);
    OwnRRDiffers(modulus);
  }

  lemma SmallLengths()
    ensures BitLength(0) == 0 && BitLength(1) == 1 && BitLength(77) == 7
  {
  }

  lemma PowerStep(n: nat, r: nat)
    requires n > 0 && RoundToPow2(n) == r
    ensures RoundToPow2(2 * n) == 2 * r && (n > 1 ==> RoundToPow2(2 * n - 1) == 2 * r)
  {
  }

  lemma SmallPowers()
    ensures RoundToPow2(7) == 8 && RoundToPow2(1536) == 2048
  {
    PowerStep(1, 1);
    PowerStep(2, 2);
    PowerStep(4, 4);
    PowerStep(3, 4);
    PowerStep(6, 8);
    PowerStep(12, 16);
    PowerStep(24, 32);
    PowerStep(48, 64);
    PowerStep(96, 128);
    PowerStep(192, 256);
    PowerStep(384, 512);
    PowerStep(768, 1024);
  }

  /** And modulus 77 of seven bits, which is stored with eight. */
  lemma RRDiffers()
    ensures KeyOf(77) == RSAPublicKey(65537, 77, 8) && Encodable(KeyOf(77))
    ensures EncodedRR(KeyOf(77)) != KeySizeSquare(8) % 77
  {
    hide BitLength, EncodedRR, KeySizeSquare, Pow2, RoundToPow2;
    SmallLengths();
    SmallPowers();
    OwnSize(77);
    OwnRRDiffers(77);
  }
}
