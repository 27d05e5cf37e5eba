/** The Montgomery ladder and ECDSA over an abstract group of prime order (authlab/crypto/ec.py). */
module Ecdsa {
  import opened NumberTheory
  import opened BigEndian
  import opened Wrappers

  /** The curve as its users see it: the points, their addition, and the x-coordinate. */
  datatype Curve<!P> = Curve(
    infinity: P,
    add: (P, P) -> P,
    double: P -> P,
    negate: P -> P,
    x: P -> nat,
    n: nat,
    generator: P)

  ghost predicate Assoc<P>(c: Curve<P>, a: P, b: P, d: P) {
    c.add(c.add(a, b), d) == c.add(a, c.add(b, d))
  }

  ghost predicate Comm<P>(c: Curve<P>, a: P, b: P) {
    c.add(a, b) == c.add(b, a)
  }

  /** An abelian group of prime order n whose x-coordinate does not distinguish a point from its negation. */
  ghost predicate Lawful<P(!new)>(c: Curve<P>) {
    && (forall a, b, d :: Assoc(c, a, b, d))
    && (forall a, b :: Comm(c, a, b))
    && (forall a :: c.add(a, c.infinity) == a)
    && (forall a :: c.add(a, c.negate(a)) == c.infinity)
    && (forall a :: c.double(a) == c.add(a, a))
    && (forall a :: c.x(c.negate(a)) == c.x(a))
    && Prime(c.n) && c.n > 2
    && (forall a :: Times(c, c.n, a) == c.infinity)
    && c.generator != c.infinity
  }

  /** k * p by repeated addition: what the ladder must compute. */
  function Times<P>(c: Curve<P>, k: nat, p: P): P {
    if k == 0 then c.infinity else c.add(p, Times(c, k - 1, p))
  }

  lemma {:induction false} TimesAdd<P(!new)>(c: Curve<P>, j: nat, k: nat, p: P)
    requires Lawful(c)
    ensures Times(c, j + k, p) == c.add(Times(c, j, p), Times(c, k, p))
  {
    if j == 0 {
      assert Comm(c, c.infinity, Times(c, k, p));
    } else {
      TimesAdd(c, j - 1, k, p);
      assert Assoc(c, p, Times(c, j - 1, p), Times(c, k, p));
    }
  }

  lemma {:induction false} TimesInfinity<P(!new)>(c: Curve<P>, k: nat)
    requires Lawful(c)
    ensures Times(c, k, c.infinity) == c.infinity
  {
    if k == 0 {
    } else {
      TimesInfinity(c, k - 1);
    }
  }

  lemma {:induction false} TimesMul<P(!new)>(c: Curve<P>, j: nat, k: nat, p: P)
    requires Lawful(c)
    ensures 0 <= j * k && Times(c, j * k, p) == Times(c, j, Times(c, k, p))
  {
    if j == 0 {
    } else {
      TimesMul(c, j - 1, k, p);
      assert j * k == k + (j - 1) * k;
      TimesAdd(c, k, (j - 1) * k, p);
    }
  }

  /** Scalars only matter modulo the group order. */
  lemma TimesMod<P(!new)>(c: Curve<P>, k: nat, p: P)
    requires Lawful(c)
    ensures Times(c, k, p) == Times(c, k % c.n, p)
  {
    var q, r := k / c.n, k % c.n;
    TimesMul(c, q, c.n, p);
    TimesInfinity(c, q);
    assert k == r + q * c.n;
    TimesAdd(c, r, q * c.n, p);
  }

  lemma TimesCong<P(!new)>(c: Curve<P>, j: nat, k: nat, p: P)
    requires Lawful(c) && Cong(j, k, c.n)
    ensures Times(c, j, p) == Times(c, k, p)
  {
    TimesMod(c, j, p);
    TimesMod(c, k, p);
  }

  lemma TimesOne<P(!new)>(c: Curve<P>, p: P)
    requires Lawful(c)
    ensures Times(c, 1, p) == p
  {
    assert Times(c, 1, p) == c.add(p, Times(c, 0, p));
  }

  /** Only multiples of the order take a finite point to infinity. */
  lemma TimesZero<P(!new)>(c: Curve<P>, k: nat, p: P)
    requires Lawful(c) && p != c.infinity
    ensures Times(c, k, p) == c.infinity <==> k % c.n == 0
  {
    TimesMod(c, k, p);
    if k % c.n != 0 && Times(c, k, p) == c.infinity {
      var r := k % c.n;
      CongMod(k, c.n);
      CoprimeToPrime(c.n, r);
      var i := ModInverse(r, c.n);
      TimesMul(c, i, r, p);
      TimesInfinity(c, i);
      assert i * r == r * i;
      TimesCong(c, i * r, 1, p);
      TimesOne(c, p);
    }
  }

  /** What sums with a to infinity is the negation of a. */
  lemma NegationUnique<P(!new)>(c: Curve<P>, a: P, b: P)
    requires Lawful(c) && c.add(a, b) == c.infinity
    ensures b == c.negate(a)
  {
    // b == b + (a - a) == (b + a) - a == -a
    assert c.add(a, c.negate(a)) == c.infinity;
    assert Assoc(c, b, a, c.negate(a));
    assert Comm(c, a, b);
    assert Comm(c, c.infinity, c.negate(a));
  }

  /** n - k and k give opposite points. */
  lemma TimesNegate<P(!new)>(c: Curve<P>, k: nat, p: P)
    requires Lawful(c) && k <= c.n
    ensures Times(c, c.n - k, p) == c.negate(Times(c, k, p))
  {
    TimesAdd(c, k, c.n - k, p);
    NegationUnique(c, Times(c, k, p), Times(c, c.n - k, p));
  }

  /** k >> bit */
  function Shift(k: nat, bit: nat): nat {
    PowPositive(2, bit);
    k / Pow(2, bit)
  }

  lemma ShiftStep(k: nat, bit: nat)
    ensures Shift(k, bit + 1) == Shift(k, bit) / 2
  {
    var b := Pow(2, bit);
    PowPositive(2, bit);
    var q := k / b;
    assert k == b * q + k % b;
    assert q == 2 * (q / 2) + q % 2;
    assert Pow(2, bit + 1) == 2 * b;
    HalfStep(k, b, q / 2, q % 2, k % b);
  }

  lemma HalfStep(k: int, b: int, h: int, parity: int, r: int)
    requires b > 0 && 0 <= r < b && 0 <= parity < 2
    requires k == b * (2 * h + parity) + r
    ensures k / (2 * b) == h
  {
    assert k == (2 * b) * h + (b * parity + r);
    MulMonotone(b, parity, 1);
    MulMonotone(b, 0, parity);
    ModUnique(k, 2 * b, h, b * parity + r);
  }

  /**
   scalar_mult: one addition and one doubling per bit, whatever the bit. The invariant is r1 == r0 + p.
   */
  method ScalarMult<P(!new, ==)>(c: Curve<P>, scalar: int, p: P) returns (r0: P)
    requires Lawful(c)
    ensures r0 == Times(c, scalar % c.n, p)
  {
    var k := scalar % c.n;
    if k == 0 || p == c.infinity {
      TimesInfinity(c, k);
      return c.infinity;
    }
    var r1: P;
    r0, r1 := c.infinity, p;
    var bit := BitLength(k);
    BitLengthBounds(k);
    ModUnique(k, Pow(2, bit), 0, k);
    assert Comm(c, c.infinity, p);
    while bit > 0
      invariant r0 == Times(c, Shift(k, bit), p)
      invariant r1 == c.add(r0, p)
    {
      bit := bit - 1;
      ShiftStep(k, bit);
      var high := Shift(k, bit + 1);
      LadderStep(c, high, p);
      if Shift(k, bit) % 2 == 1 {
        r0, r1 := c.add(r0, r1), c.double(r1);
      } else {
        r1, r0 := c.add(r0, r1), c.double(r0);
      }
    }
    assert Pow(2, 0) == 1;
  }

  lemma LadderStep<P(!new)>(c: Curve<P>, k: nat, p: P)
    requires Lawful(c)
    ensures var r0 := Times(c, k, p); var r1 := c.add(r0, p);
      && c.double(r0) == Times(c, 2 * k, p)
      && c.add(r0, r1) == c.add(c.double(r0), p) == Times(c, 2 * k + 1, p)
      && c.double(r1) == c.add(c.add(r0, r1), p)
  {
    var r0 := Times(c, k, p);
    var r1 := c.add(r0, p);
    TimesAdd(c, k, k, p);
    assert Times(c, 2 * k + 1, p) == c.add(p, Times(c, 2 * k, p));
    assert Comm(c, p, c.double(r0));
    assert Assoc(c, r0, r0, p);
    assert Assoc(c, r1, r0, p);
    assert Comm(c, r0, r1);
  }

  // ----- ECDSA -----

  /** _bits2int: the leftmost bits of the digest, as many as the group order has. */
  function BitsToInt(digest: seq<byte>, n: nat): nat {
    var value := ToInt(digest);
    var excess := |digest| * 8 - BitLength(n);
    if excess > 0 then Shift(value, excess) else value
  }

  /** z is what the digest's leftmost bits say: all of a short digest, and of a long one as many bits as n has. */
  predicate IsLeftmost(z: nat, digest: seq<byte>, n: nat) {
    if 8 * |digest| <= BitLength(n) then z == ToInt(digest)
    else
      var unit := Pow(2, 8 * |digest| - BitLength(n));
      z * unit <= ToInt(digest) < (z + 1) * unit
  }

  lemma QuotientIff(v: nat, unit: int, z: nat)
    requires unit > 0
    ensures z * unit <= v < (z + 1) * unit <==> z == v / unit
  {
    var q, r := v / unit, v % unit;
    assert v == unit * q + r;
    assert z * unit == unit * z && (z + 1) * unit == unit * z + unit;
    if unit * z <= v < unit * z + unit {
      ModUnique(v, unit, z, v - unit * z);
    }
  }

  /** There is exactly one such number. */
  lemma LeftmostIff(digest: seq<byte>, n: nat, z: nat)
    ensures IsLeftmost(z, digest, n) <==> z == BitsToInt(digest, n)
  {
    if 8 * |digest| > BitLength(n) {
      hide ToInt, BitLength, Pow;
      PowPositive(2, 8 * |digest| - BitLength(n));
      QuotientIff(ToInt(digest), Pow(2, 8 * |digest| - BitLength(n)), z);
    }
  }

  /** The bits of a digest, the most significant of each byte first. */
  function Bit(digest: seq<byte>, i: nat): nat
    requires i < 8 * |digest|
  {
    Shift(digest[i / 8], 7 - i % 8) % 2
  }

  lemma ShiftTwice(v: nat, a: nat, b: nat)
    ensures Shift(Shift(v, a), b) == Shift(v, a + b)
    decreases b
  {
    if b > 0 {
      ShiftTwice(v, a, b - 1);
      ShiftStep(Shift(v, a), b - 1);
      ShiftStep(v, a + b - 1);
    } else {
      assert Pow(2, 0) == 1;
    }
  }

  lemma DropLow(h: nat, l: nat, unit: int)
    requires l < unit
    ensures (h * unit + l) / unit == h
  {
    assert h * unit == unit * h;
    ModUnique(h * unit + l, unit, h, l);
  }

  // Shifting by whole bytes drops them.
  lemma ShiftBytes(digest: seq<byte>, keep: nat)
    requires keep <= |digest|
    ensures Shift(ToInt(digest), 8 * (|digest| - keep)) == ToInt(digest[..keep])
  {
    hide ToInt, Pow;
    var high, low := digest[..keep], digest[keep..];
    assert digest == high + low;
    ToIntConcat(high, low);
    PowOf256(|low|);
    DropLow(ToInt(high), ToInt(low), Pow(256, |low|));
  }

  lemma Halve(a: int, h: int, l: int)
    ensures (2 * a * h + l) / 2 == a * h + l / 2 && (2 * a * h + l) % 2 == l % 2
  {
    assert 2 * a * h == 2 * (a * h);
  }

  lemma {:induction false} ShiftByte(high: nat, b: nat, t: nat)
    requires t <= 8
    ensures Shift(256 * high + b, t) == Pow(2, 8 - t) * high + Shift(b, t)
  {
    if t == 0 {
      PowOf256(1);
      assert Pow(256, 1) == 256 * Pow(256, 0) == 256;
      assert Pow(2, 0) == 1;
    } else {
      assert Pow(2, 8 - (t - 1)) == 2 * Pow(2, 8 - t);
      hide Pow;
      ShiftByte(high, b, t - 1);
      ShiftStep(256 * high + b, t - 1);
      ShiftStep(b, t - 1);
      hide Shift;
      Halve(Pow(2, 8 - t), high, Shift(b, t - 1));
    }
  }

  lemma BitOfByte(high: nat, b: nat, t: nat)
    requires t < 8
    ensures Shift(256 * high + b, t) % 2 == Shift(b, t) % 2
  {
    ShiftByte(high, b, t);
    assert Pow(2, 8 - t) == 2 * Pow(2, 7 - t);
    hide Shift, Pow;
    Halve(Pow(2, 7 - t), high, Shift(b, t));
  }

  /** The bits are those of the integer the digest stands for. */
  lemma BitIsShift(digest: seq<byte>, i: nat)
    requires i < 8 * |digest|
    ensures Bit(digest, i) == Shift(ToInt(digest), 8 * |digest| - 1 - i) % 2
  {
    var m, t := i / 8, 7 - i % 8;
    ShiftBytes(digest, m + 1);
    ShiftTwice(ToInt(digest), 8 * (|digest| - m - 1), t);
    assert digest[..m + 1][..m] == digest[..m];
    BitOfByte(ToInt(digest[..m]), digest[m], t);
  }

  ghost predicate SameBits(a: seq<byte>, b: seq<byte>, count: nat)
    requires |a| == |b| && count <= 8 * |a|
  {
    forall i :: 0 <= i < count ==> Bit(a, i) == Bit(b, i)
  }

  lemma {:induction false} SameTopBits(a: seq<byte>, b: seq<byte>, count: nat)
    requires |a| == |b| && count <= 8 * |a|
    ensures Shift(ToInt(a), 8 * |a| - count) == Shift(ToInt(b), 8 * |a| - count) <==> SameBits(a, b, count)
  {
    hide Shift, Bit;
    if count == 0 {
      AllShiftedOut(a);
      AllShiftedOut(b);
    } else {
      SameTopBits(a, b, count - 1);
      ShiftStep(ToInt(a), 8 * |a| - count);
      ShiftStep(ToInt(b), 8 * |a| - count);
      BitIsShift(a, count - 1);
      BitIsShift(b, count - 1);
      assert SameBits(a, b, count) <==> SameBits(a, b, count - 1) && Bit(a, count - 1) == Bit(b, count - 1);
    }
  }

  lemma AllShiftedOut(a: seq<byte>)
    ensures Shift(ToInt(a), 8 * |a|) == 0
  {
    ShiftBytes(a, 0);
    assert a[..0] == [];
  }

  /** Two digests of one length give one number exactly when their leftmost bits, as many as n has, agree. */
  lemma SameNumberIff(a: seq<byte>, b: seq<byte>, n: nat, z: nat)
    requires |a| == |b| && IsLeftmost(z, a, n)
    ensures IsLeftmost(z, b, n) <==> SameBits(a, b, if 8 * |a| <= BitLength(n) then 8 * |a| else BitLength(n))
  {
    hide IsLeftmost, SameBits;
    LeftmostIff(a, n, z);
    LeftmostIff(b, n, z);
    SameTopBits(a, b, if 8 * |a| <= BitLength(n) then 8 * |a| else BitLength(n));
    assert Pow(2, 0) == 1;
  }

  datatype Signature = Signature(r: nat, s: nat)

  /** pow(a, -1, n) for the prime n. */
  function Inverse<P>(c: Curve<P>, a: nat): (i: nat)
    requires c.n > 0 && Gcd(a, c.n) == 1
    ensures IsInverse(i, a, c.n)
  {
    ModInverse(a, c.n)
  }

  lemma UnitsAreCoprime<P(!new)>(c: Curve<P>, a: nat)
    requires Lawful(c) && 1 <= a < c.n
    ensures Gcd(a, c.n) == 1 && a % c.n == a
  {
    ModUnique(a, c.n, 0, a);
    CoprimeToPrime(c.n, a);
  }

  /** The s of a signature with nonce k, before low-S normalisation. */
  ghost predicate IsRawSignature<P(!new)>(c: Curve<P>, d: nat, z: nat, k: nat, sig: Signature)
    requires Lawful(c)
  {
    && 1 <= k < c.n
    && Gcd(k, c.n) == 1
    && 1 <= sig.r < c.n && sig.r == c.x(Times(c, k, c.generator)) % c.n
    && 1 <= sig.s < c.n && sig.s == (Inverse(c, k) * (z + sig.r * d)) % c.n
  }

  /** The result of one turn for the number z: the signature in its low form, or nothing when there is none. */
  ghost predicate SignedWith<P(!new)>(c: Curve<P>, d: nat, z: nat, k: nat, r: Option<Signature>)
    requires Lawful(c)
  {
    match r
    case Some(sig) =>
      sig.s <= c.n / 2 && (IsRawSignature(c, d, z, k, sig) || IsRawSignature(c, d, z, k, Signature(sig.r, c.n - sig.s)))
    case None => forall sig :: !IsRawSignature(c, d, z, k, sig)
  }

  /** One turn of the loop of ecdsa_sign with nonce k; None is each of its `continue`s. */
  method Sign<P(!new, ==)>(c: Curve<P>, d: nat, digest: seq<byte>, k: nat) returns (r: Option<Signature>)
    requires Lawful(c) && 1 <= k < c.n
    ensures exists z :: IsLeftmost(z, digest, c.n) && SignedWith(c, d, z, k, r)
  {
    LeftmostIff(digest, c.n, BitsToInt(digest, c.n));
    var z := BitsToInt(digest, c.n);
    UnitsAreCoprime(c, k);
    var point := ScalarMult(c, k, c.generator);
    var x := c.x(point) % c.n;
    if x == 0 {
      return None;
    }
    var s := (Inverse(c, k) * (z + x * d)) % c.n;
    if s == 0 {
      return None;
    }
    assert IsRawSignature(c, d, z, k, Signature(x, s));
    if s > c.n / 2 {
      return Some(Signature(x, c.n - s));
    }
    return Some(Signature(x, s));
  }

  /** The point ecdsa_verify compares with r. */
  function VerifyPoint<P>(c: Curve<P>, key: P, z: nat, sig: Signature): P
    requires c.n > 0 && Gcd(sig.s, c.n) == 1
  {
    var w := Inverse(c, sig.s);
    c.add(Times(c, (z * w) % c.n, c.generator), Times(c, (sig.r * w) % c.n, key))
  }

  ghost predicate Accepts<P(!new)>(c: Curve<P>, key: P, z: nat, sig: Signature)
    requires Lawful(c)
  {
    && 1 <= sig.r < c.n && 1 <= sig.s < c.n
    && Gcd(sig.s, c.n) == 1
    && VerifyPoint(c, key, z, sig) != c.infinity
    && c.x(VerifyPoint(c, key, z, sig)) % c.n == sig.r
  }

  /** A public key as it arrives: coordinates that need not lie on the curve. */
  datatype Coordinates = Infinity | Affine(x: int, y: int)

  /** The field size and the constant of y^2 == x^3 - 3 * x + b. */
  datatype Field = Field(p: nat, b: int)

  /** is_on_curve. */
  predicate IsOnCurve(f: Field, key: Coordinates)
    requires f.p > 0
  {
    key.Infinity? || (0 <= key.x < f.p && 0 <= key.y < f.p
                      && (key.y * key.y - (key.x * key.x * key.x + (f.p - 3) * key.x + f.b)) % f.p == 0)
  }

  /** ecdsa_verify; `at` gives the group element of coordinates that lie on the curve. */
  method Verify<P(!new, ==)>(c: Curve<P>, f: Field, at: Coordinates -> P, key: Coordinates, digest: seq<byte>, sig: Signature)
    returns (ok: bool)
    requires Lawful(c) && f.p > 0
    ensures exists z :: IsLeftmost(z, digest, c.n) && (ok <==> IsOnCurve(f, key) && Accepts(c, at(key), z, sig))
  {
    hide IsOnCurve;
    LeftmostIff(digest, c.n, BitsToInt(digest, c.n));
    if !(1 <= sig.r < c.n && 1 <= sig.s < c.n) {
      return false;
    }
    if !IsOnCurve(f, key) {
      return false;
    }
    UnitsAreCoprime(c, sig.s);
    var z := BitsToInt(digest, c.n);
    var w := Inverse(c, sig.s);
    CongMod(z * w, c.n);
    CongMod(sig.r * w, c.n);
    var a := ScalarMult(c, (z * w) % c.n, c.generator);
    var b := ScalarMult(c, (sig.r * w) % c.n, at(key));
    var point := c.add(a, b);
    if point == c.infinity {
      return false;
    }
    return c.x(point) % c.n == sig.r;
  }

  /** For the key d * G the compared point is ((z + r * d) / s) * G. */
  lemma VerifyPointIs<P(!new)>(c: Curve<P>, d: nat, z: nat, sig: Signature)
    requires Lawful(c) && 1 <= sig.s < c.n && Gcd(sig.s, c.n) == 1
    ensures 0 <= (z + sig.r * d) * Inverse(c, sig.s)
    ensures VerifyPoint(c, Times(c, d, c.generator), z, sig)
      == Times(c, (z + sig.r * d) * Inverse(c, sig.s), c.generator)
  {
    var w := Inverse(c, sig.s);
    var u1, u2 := (z * w) % c.n, (sig.r * w) % c.n;
    TimesMul(c, u2, d, c.generator);
    TimesAdd(c, u1, u2 * d, c.generator);
    CongMod(z * w, c.n);
    CongMod(sig.r * w, c.n);
    CongMul(u2, sig.r * w, d, d, c.n);
    CongAdd(u1, z * w, u2 * d, sig.r * w * d, c.n);
    Regroup(z, sig.r, d, w);
    TimesCong(c, u1 + u2 * d, (z + sig.r * d) * w, c.generator);
  }

  lemma Regroup(z: nat, r: nat, d: nat, w: nat)
    ensures 0 <= (z + r * d) * w == z * w + r * w * d
  {
    assert r * d * w == r * w * d;
    assert (z + r * d) * w == z * w + r * d * w;
    MulMonotone(w, 0, z + r * d);
  }

  // s == e / k and k == e / s say the same modulo n.
  lemma SwapInverse(n: nat, k: nat, i: nat, s: nat, j: nat, e: nat)
    requires IsInverse(i, k, n) && IsInverse(j, s, n)
    ensures Cong(s, i * e, n) <==> Cong(k, j * e, n)
  {
    if Cong(s, i * e, n) {
      SolveFor(n, k, i, s, e);
      assert k * s == s * k;
      DivideBy(n, s, j, k, e);
    }
    if Cong(k, j * e, n) {
      SolveFor(n, s, j, k, e);
      assert k * s == s * k;
      DivideBy(n, k, i, s, e);
    }
  }

  lemma DivideBy(n: nat, s: nat, j: nat, k: nat, e: nat)
    requires IsInverse(j, s, n) && Cong(e, s * k, n)
    ensures Cong(k, j * e, n)
  {
    CongMul(j, j, e, s * k, n);
    CongMul(s * j, 1, k, k, n);
    assert j * (s * k) == s * j * k;
  }

  lemma SolveFor(n: nat, k: nat, i: nat, s: nat, e: nat)
    requires n > 0 && IsInverse(i, k, n) && Cong(s, i * e, n)
    ensures Cong(e, k * s, n)
  {
    CongMul(k, k, s, i * e, n);
    CongMul(k * i, 1, e, e, n);
    assert k * (i * e) == k * i * e;
  }

  /**
   ecdsa_verify accepts exactly the pairs that signing with some nonce produces: for the key d * G,
   (r, s) is accepted if and only if a nonce k exists with r the x-coordinate of k * G and s = (z + r d) / k.
   */
  lemma AcceptsIffSigned<P(!new)>(c: Curve<P>, d: nat, z: nat, sig: Signature)
    requires Lawful(c)
    ensures Accepts(c, Times(c, d, c.generator), z, sig) <==> exists k :: IsRawSignature(c, d, z, k, sig)
  {
    if Accepts(c, Times(c, d, c.generator), z, sig) {
      NonceOfAccepted(c, d, z, sig);
    }
    if k :| IsRawSignature(c, d, z, k, sig) {
      SignedIsAccepted(c, d, z, k, sig);
    }
  }

  lemma NonceOfAccepted<P(!new)>(c: Curve<P>, d: nat, z: nat, sig: Signature)
    requires Lawful(c) && Accepts(c, Times(c, d, c.generator), z, sig)
    ensures exists k :: IsRawSignature(c, d, z, k, sig)
  {
    var k := AcceptedNonce(c, d, z, sig);
    var e := z + sig.r * d;
    UnitsAreCoprime(c, k);
    NonceSolves(c.n, sig.s, Inverse(c, sig.s), e, k, Inverse(c, k));
    assert IsRawSignature(c, d, z, k, sig);
  }

  lemma AcceptedNonce<P(!new)>(c: Curve<P>, d: nat, z: nat, sig: Signature) returns (k: nat)
    requires Lawful(c) && Accepts(c, Times(c, d, c.generator), z, sig)
    ensures 1 <= k < c.n && k == ((z + sig.r * d) * Inverse(c, sig.s)) % c.n
    ensures c.x(Times(c, k, c.generator)) % c.n == sig.r
  {
    VerifyPointIs(c, d, z, sig);
    var m := (z + sig.r * d) * Inverse(c, sig.s);
    TimesMod(c, m, c.generator);
    k := m % c.n;
    assert Times(c, 0, c.generator) == c.infinity;
  }

  lemma NonceSolves(n: nat, s: nat, w: nat, e: nat, k: nat, i: nat)
    requires s < n && IsInverse(w, s, n) && IsInverse(i, k, n) && k == (e * w) % n
    ensures s == (i * e) % n
  {
    CongMod(e * w, n);
    assert e * w == w * e;
    SwapInverse(n, k, i, s, w, e);
    ModUnique(s, n, 0, s);
  }

  lemma SignedIsAccepted<P(!new)>(c: Curve<P>, d: nat, z: nat, k: nat, sig: Signature)
    requires Lawful(c) && IsRawSignature(c, d, z, k, sig)
    ensures Accepts(c, Times(c, d, c.generator), z, sig)
  {
    UnitsAreCoprime(c, sig.s);
    UnitsAreCoprime(c, k);
    var e, w := z + sig.r * d, Inverse(c, sig.s);
    SwapInverse(c.n, k, Inverse(c, k), sig.s, w, e);
    assert e * w == w * e;
    VerifyPointIs(c, d, z, sig);
    TimesCong(c, k, e * w, c.generator);
    TimesZero(c, k, c.generator);
  }

  /** Low-S normalisation is harmless: for any key, (r, s) and (r, n - s) are accepted together. */
  lemma AcceptsNegatedS<P(!new)>(c: Curve<P>, key: P, z: nat, sig: Signature)
    requires Lawful(c) && 1 <= sig.s < c.n
    ensures Accepts(c, key, z, sig) <==> Accepts(c, key, z, Signature(sig.r, c.n - sig.s))
  {
    var t := Signature(sig.r, c.n - sig.s);
    UnitsAreCoprime(c, sig.s);
    UnitsAreCoprime(c, t.s);
    NegatedPoint(c, key, z, sig);
    var a := VerifyPoint(c, key, z, sig);
    assert Comm(c, c.infinity, c.negate(c.infinity));
    assert c.add(a, c.negate(a)) == c.infinity;
  }

  lemma NegatedPoint<P(!new)>(c: Curve<P>, key: P, z: nat, sig: Signature)
    requires Lawful(c) && 1 <= sig.s < c.n
    requires Gcd(sig.s, c.n) == 1 && Gcd(c.n - sig.s, c.n) == 1
    ensures VerifyPoint(c, key, z, Signature(sig.r, c.n - sig.s)) == c.negate(VerifyPoint(c, key, z, sig))
  {
    var n := c.n;
    var w, v := Inverse(c, sig.s), Inverse(c, n - sig.s);
    InverseOfNegation(n, sig.s, w, v);
    NegatedMultiple(c, z, w, v, c.generator);
    NegatedMultiple(c, sig.r, w, v, key);
    var a, b := Times(c, (z * w) % n, c.generator), Times(c, (sig.r * w) % n, key);
    NegateSum(c, a, b);
  }

  lemma NegateSum<P(!new)>(c: Curve<P>, a: P, b: P)
    requires Lawful(c)
    ensures c.add(c.negate(a), c.negate(b)) == c.negate(c.add(a, b))
  {
    // (a + b) + (-a - b) == a + (b + (-b - a)) == a + (-a) == 0
    var na, nb := c.negate(a), c.negate(b);
    assert Comm(c, na, nb);
    assert Assoc(c, a, b, c.add(nb, na));
    assert Assoc(c, b, nb, na);
    assert Comm(c, c.infinity, na);
    NegationUnique(c, c.add(a, b), c.add(na, nb));
  }

  lemma InverseOfNegation(n: nat, s: nat, w: nat, v: nat)
    requires Prime(n) && 1 <= s < n && IsInverse(w, s, n) && IsInverse(v, n - s, n)
    ensures Cong(v + w, 0, n)
  {
    // s * (v + w) is a multiple of n, because (n - s) * v == 1 == s * w.
    CongIff((n - s) * v, s * w, n);
    NegatedProduct(n, s, w, v);
    ModShift((n - s) * v - s * w, n, 0 - v);
    CongSub(0, 0, -(s * (v + w)), 0, n);
    Euclid(n, s, v + w);
    ModUnique(s, n, 0, s);
  }

  lemma NegatedProduct(n: int, s: int, w: int, v: int)
    ensures (n - s) * v - s * w + n * (0 - v) == -(s * (v + w))
  {
    assert (n - s) * v == n * v - s * v;
    assert s * (v + w) == s * v + s * w;
  }

  lemma NegatedMultiple<P(!new)>(c: Curve<P>, z: nat, w: nat, v: nat, p: P)
    requires Lawful(c) && Cong(v + w, 0, c.n)
    ensures Times(c, (z * v) % c.n, p) == c.negate(Times(c, (z * w) % c.n, p))
  {
    var n := c.n;
    var a, b := (z * w) % n, (z * v) % n;
    CongMul(z, z, v + w, 0, n);
    assert z * (v + w) == z * v + z * w;
    CongMod(z * w, n);
    CongMod(z * v, n);
    CongAdd(b, z * v, a, z * w, n);
    CongSub(b + a, 0, a, a, n);
    ModShift(-a, n, 1);
    TimesCong(c, b, n - a, p);
    TimesNegate(c, a, p);
  }

  /** Every signature ecdsa_sign returns, low-S replacement included, is accepted for the signer's key. */
  lemma SignatureAccepted<P(!new)>(c: Curve<P>, d: nat, z: nat, k: nat, sig: Signature)
    requires Lawful(c) && 1 <= sig.s < c.n
    requires IsRawSignature(c, d, z, k, sig) || IsRawSignature(c, d, z, k, Signature(sig.r, c.n - sig.s))
    ensures Accepts(c, Times(c, d, c.generator), z, sig)
  {
    AcceptsIffSigned(c, d, z, sig);
    AcceptsIffSigned(c, d, z, Signature(sig.r, c.n - sig.s));
    AcceptsNegatedS(c, Times(c, d, c.generator), z, sig);
  }
}
