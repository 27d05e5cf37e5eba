/** Modular arithmetic, extended Euclid and Fermat's little theorem: what the RSA, Miller-Rabin and
    ECDSA proofs share. */
module NumberTheory {

  // ----- Division with remainder -----

  lemma MulMonotone(n: int, a: int, b: int)
    requires 0 <= n && a <= b
    ensures n * a <= n * b
  {
  }

  lemma ModUnique(a: int, n: int, q: int, r: int)
    requires 0 <= r < n && a == n * q + r
    ensures a / n == q && a % n == r
  {
    var q', r' := a / n, a % n;
    assert a == n * q' + r';
    assert n * (q - q') == r' - r;
    if q > q' {
      MulMonotone(n, 1, q - q');
    } else if q < q' {
      MulMonotone(n, q - q', -1);
    }
  }

  lemma ModShift(a: int, n: int, k: int)
    requires n > 0
    ensures (a + n * k) % n == a % n
  {
    assert a + n * k == n * (a / n + k) + a % n by {
      assert a == n * (a / n) + a % n;
    }
    ModUnique(a + n * k, n, a / n + k, a % n);
  }

  lemma ModOfMultiple(n: int, k: int)
    requires n > 0
    ensures (n * k) % n == 0 && (k * n) % n == 0
  {
    ModUnique(n * k, n, k, 0);
  }

  function DivisorOf(a: int, n: int): (k: int)
    requires n > 0 && a % n == 0
    ensures a == n * k
  {
    a / n
  }

  /** Congruent modulo n. */
  predicate Cong(a: int, b: int, n: int)
    requires n > 0
  {
    a % n == b % n
  }

  lemma CongIff(a: int, b: int, n: int)
    requires n > 0
    ensures Cong(a, b, n) <==> (a - b) % n == 0
  {
    if Cong(a, b, n) {
      assert a - b == n * (a / n - b / n) by {
        assert a == n * (a / n) + a % n;
        assert b == n * (b / n) + b % n;
      }
      ModOfMultiple(n, a / n - b / n);
    }
    if (a - b) % n == 0 {
      var k := DivisorOf(a - b, n);
      ModShift(b, n, k);
    }
  }

  lemma CongAdd(a: int, b: int, c: int, d: int, n: int)
    requires n > 0 && Cong(a, b, n) && Cong(c, d, n)
    ensures Cong(a + c, b + d, n)
  {
    CongIff(a, b, n);
    CongIff(c, d, n);
    var k := DivisorOf(a - b, n);
    var l := DivisorOf(c - d, n);
    ModShift(b + d, n, k);
    ModShift(b + d + n * k, n, l);
  }

  lemma CongSub(a: int, b: int, c: int, d: int, n: int)
    requires n > 0 && Cong(a, b, n) && Cong(c, d, n)
    ensures Cong(a - c, b - d, n)
  {
    CongIff(a, b, n);
    CongIff(c, d, n);
    var k := DivisorOf(a - b, n);
    var l := DivisorOf(c - d, n);
    ModShift(b - d, n, k);
    ModShift(a - c, n, l);
  }

  lemma CongMul(a: int, b: int, c: int, d: int, n: int)
    requires n > 0 && Cong(a, b, n) && Cong(c, d, n)
    ensures Cong(a * c, b * d, n)
  {
    CongIff(a, b, n);
    CongIff(c, d, n);
    var k := DivisorOf(a - b, n);
    var l := DivisorOf(c - d, n);
    calc {
      a * c;
      (b + n * k) * c;
      b * c + n * k * c;
      b * (d + n * l) + n * k * c;
      b * d + n * l * b + n * k * c;
      b * d + n * (l * b + k * c);
    }
    ModShift(b * d, n, l * b + k * c);
  }

  lemma CongMod(a: int, n: int)
    requires n > 0
    ensures Cong(a % n, a, n)
  {
    ModUnique(a % n, n, 0, a % n);
  }

  lemma CongSmall(a: int, b: int, n: int)
    requires 0 <= a < n && 0 <= b < n && Cong(a, b, n)
    ensures a == b
  {
    ModUnique(a, n, 0, a);
    ModUnique(b, n, 0, b);
  }

  // A congruence modulo n also holds modulo every divisor of n.
  lemma CongDivisor(a: int, b: int, n: int, m: int)
    requires n > 0 && m > 0 && Cong(a, b, n * m)
    ensures Cong(a, b, n)
  {
    CongIff(a, b, n * m);
    var k := DivisorOf(a - b, n * m);
    assert a == b + n * (m * k) by {
      assert (n * m) * k == n * (m * k);
    }
    ModShift(b, n, m * k);
  }

  // ----- Powers -----

  function Pow(b: int, e: nat): int {
    if e == 0 then 1 else b * Pow(b, e - 1)
  }

  /** Python's three-argument pow for a nonnegative exponent. */
  function PowMod(b: int, e: nat, n: int): int
    requires n > 0
  {
    Pow(b, e) % n
  }

  lemma {:induction false} PowAdd(b: int, e: nat, f: nat)
    ensures Pow(b, e + f) == Pow(b, e) * Pow(b, f)
  {
    if e == 0 {
    } else {
      PowAdd(b, e - 1, f);
      assert Pow(b, e + f) == b * (Pow(b, e - 1) * Pow(b, f));
    }
  }

  lemma {:induction false} PowMul(b: int, e: nat, f: nat)
    ensures 0 <= e * f
    ensures Pow(b, e * f) == Pow(Pow(b, e), f)
  {
    if f == 0 {
      assert e * f == 0;
    } else {
      PowMul(b, e, f - 1);
      assert e * f == e + e * (f - 1);
      PowAdd(b, e, e * (f - 1));
    }
  }

  lemma {:induction false} PowCong(a: int, b: int, e: nat, n: int)
    requires n > 0 && Cong(a, b, n)
    ensures Cong(Pow(a, e), Pow(b, e), n)
  {
    if e == 0 {
    } else {
      PowCong(a, b, e - 1, n);
      CongMul(a, b, Pow(a, e - 1), Pow(b, e - 1), n);
    }
  }

  lemma {:induction false} PowOne(e: nat)
    ensures Pow(1, e) == 1
  {
    if e == 0 {
    } else {
      PowOne(e - 1);
    }
  }

  lemma {:induction false} PowPositive(b: int, e: nat)
    requires b > 0
    ensures Pow(b, e) > 0
  {
    if e == 0 {
    } else {
      PowPositive(b, e - 1);
    }
  }

  lemma {:induction false} PowMonotone(b: int, e: nat, f: nat)
    requires b > 0 && e <= f
    ensures Pow(b, e) <= Pow(b, f)
  {
    if e == f {
    } else {
      PowMonotone(b, e, f - 1);
      PowPositive(b, f - 1);
      MulMonotone(Pow(b, f - 1), 1, b);
    }
  }

  // ----- Extended Euclid -----

  /** The greatest common divisor, by the recursion the source's loop unrolls. */
  function Gcd(a: nat, b: nat): nat
    decreases b
  {
    if b == 0 then a else Gcd(b, a % b)
  }

  ghost predicate DividesBoth(g: int, a: int, b: int) {
    g > 0 && a % g == 0 && b % g == 0
  }

  /** Extended Euclid: the coefficients of a and b that combine to their gcd. */
  function ExtendedGcd(a: nat, b: nat): (int, int)
    decreases b
  {
    if b == 0 then (1, 0)
    else
      var (x, y) := ExtendedGcd(b, a % b);
      (y, x - a / b * y)
  }

  /** Bezout: the gcd is a combination of its arguments and divides both. */
  lemma {:induction false} Bezout(a: nat, b: nat)
    requires a > 0 || b > 0
    ensures Gcd(a, b) > 0
    ensures var (x, y) := ExtendedGcd(a, b); a * x + b * y == Gcd(a, b)
    ensures a % Gcd(a, b) == 0 && b % Gcd(a, b) == 0
    decreases b
  {
    if b == 0 {
      ModOfMultiple(a, 1);
      ModOfMultiple(a, 0);
    } else {
      Bezout(b, a % b);
      var (x, y) := ExtendedGcd(b, a % b);
      var g := Gcd(a, b);
      var q := a / b;
      assert a == b * q + a % b;
      BezoutStep(a, b, q, a % b, x, y);
      DividesStep(a, b, q, a % b, g);
    }
  }

  lemma DividesStep(a: int, b: int, q: int, r: int, g: int)
    requires g > 0 && a == b * q + r && b % g == 0 && r % g == 0
    ensures a % g == 0
  {
    var k := DivisorOf(b, g);
    ModShift(r, g, k * q);
    assert b * q == g * (k * q);
  }

  lemma BezoutStep(a: int, b: int, q: int, r: int, x: int, y: int)
    requires a == b * q + r
    ensures a * y + b * (x - q * y) == b * x + r * y
  {
    assert a * y == (b * q) * y + r * y;
    assert b * (x - q * y) == b * x - (b * q) * y;
  }

  lemma GcdGreatest(a: nat, b: nat, d: nat)
    requires a > 0 || b > 0
    requires DividesBoth(d, a, b)
    ensures Gcd(a, b) % d == 0 && d <= Gcd(a, b)
  {
    Bezout(a, b);
    var (x, y) := ExtendedGcd(a, b);
    var k := DivisorOf(a, d);
    var l := DivisorOf(b, d);
    Combination(d, k, x, l, y);
    MultipleBound(d, k * x + l * y);
  }

  lemma Combination(d: int, k: int, x: int, l: int, y: int)
    ensures d * k * x + d * l * y == d * (k * x + l * y)
  {
  }

  // A positive multiple is divisible and no smaller than its divisor.
  lemma MultipleBound(d: int, k: int)
    requires d > 0 && d * k > 0
    ensures (d * k) % d == 0 && d <= d * k
  {
    ModOfMultiple(d, k);
    if k <= 0 {
      MulMonotone(d, k, 0);
    } else {
      MulMonotone(d, 1, k);
    }
  }

  /** x is Python's pow(a, -1, n). */
  predicate IsInverse(x: int, a: int, n: int) {
    n > 0 && 0 <= x < n && (a * x) % n == 1 % n
  }

  /** Python's pow(a, -1, n), which raises unless gcd(a, n) is 1. */
  function ModInverse(a: nat, n: nat): (x: int)
    requires n > 0 && Gcd(a, n) == 1
    ensures IsInverse(x, a, n)
  {
    InverseExists(a, n);
    ExtendedGcd(a, n).0 % n
  }

  lemma InverseExists(a: nat, n: nat)
    requires n > 0 && Gcd(a, n) == 1
    ensures IsInverse(ExtendedGcd(a, n).0 % n, a, n)
  {
    Bezout(a, n);
    var (u, v) := ExtendedGcd(a, n);
    CongMod(u, n);
    CongMul(a, a, u % n, u, n);
    ModShift(a * u, n, v);
  }

  // ----- Primes -----

  ghost predicate Prime(p: int) {
    p >= 2 && forall d :: 2 <= d < p ==> p % d != 0
  }

  lemma CoprimeToPrime(p: int, a: nat)
    requires Prime(p) && a % p != 0
    ensures Gcd(a, p) == 1
  {
    Bezout(a, p);
    var (x, y) := ExtendedGcd(a, p);
    var g := Gcd(a, p);
    var k := DivisorOf(p, g);
    MultipleBound(g, k);
  }

  /** Euclid's lemma. */
  lemma Euclid(p: int, a: int, b: int)
    requires Prime(p) && (a * b) % p == 0
    ensures a % p == 0 || b % p == 0
  {
    if a % p != 0 {
      CongMod(a, p);
      CoprimeToPrime(p, a % p);
      var x := ModInverse(a % p, p);
      // b == (x * a) * b modulo p, and p divides a * b.
      CongMul(a % p, a, x, x, p);
      assert Cong(a * x, 1, p);
      CongMul(a * x, 1, b, b, p);
      var k := DivisorOf(a * b, p);
      assert (a * x) * b == p * (k * x) by {
        assert (a * x) * b == (a * b) * x;
      }
      ModOfMultiple(p, k * x);
    }
  }

  lemma {:induction false} PrimeDividesPow(p: int, a: int, e: nat)
    requires Prime(p) && Pow(a, e) % p == 0
    ensures a % p == 0
  {
    if e == 0 {
      ModUnique(1, p, 0, 1);
    } else {
      Euclid(p, a, Pow(a, e - 1));
      if a % p != 0 {
        PrimeDividesPow(p, a, e - 1);
      }
    }
  }

  lemma CancelPrime(p: int, a: int, b: int, c: int)
    requires Prime(p) && a % p != 0 && Cong(a * b, a * c, p)
    ensures Cong(b, c, p)
  {
    CongIff(a * b, a * c, p);
    assert a * b - a * c == a * (b - c);
    Euclid(p, a, b - c);
    CongIff(b, c, p);
  }

  /** Modulo a prime only 1 and -1 square to 1. */
  lemma SquareRootsOfOne(p: int, x: int)
    requires Prime(p) && Cong(x * x, 1, p)
    ensures Cong(x, 1, p) || Cong(x, -1, p)
  {
    CongIff(x * x, 1, p);
    assert x * x - 1 == (x - 1) * (x + 1);
    Euclid(p, x - 1, x + 1);
    CongIff(x, 1, p);
    CongIff(x, -1, p);
  }

  // ----- Fermat's little theorem, through the binomial theorem -----

  function Choose(n: nat, k: nat): nat {
    if k == 0 then 1
    else if n == 0 then 0
    else Choose(n - 1, k - 1) + Choose(n - 1, k)
  }

  lemma {:induction false} ChooseAbove(n: nat, k: nat)
    requires k > n
    ensures Choose(n, k) == 0
  {
    if n == 0 {
    } else {
      ChooseAbove(n - 1, k - 1);
      ChooseAbove(n - 1, k);
    }
  }

  lemma {:induction false} ChooseAll(n: nat)
    ensures Choose(n, n) == 1
  {
    if n == 0 {
    } else {
      ChooseAll(n - 1);
      ChooseAbove(n - 1, n);
    }
  }

  lemma {:induction false} ChooseAbsorb(n: nat, k: nat)
    requires n >= 1 && k >= 1
    ensures k * Choose(n, k) == n * Choose(n - 1, k - 1)
  {
    if n == 1 {
      if k >= 2 {
        ChooseAbove(1, k);
        ChooseAbove(0, k - 1);
      }
    } else if k == 1 {
      ChooseAbsorb(n - 1, 1);
      assert Choose(n, 1) == 1 + Choose(n - 1, 1);
    } else {
      ChooseAbsorb(n - 1, k);
      ChooseAbsorb(n - 1, k - 1);
      AbsorbStep(n, k, Choose(n - 1, k - 1), Choose(n - 1, k), Choose(n - 2, k - 2), Choose(n - 2, k - 1));
    }
  }

  lemma AbsorbStep(n: int, k: int, c: int, d: int, a: int, b: int)
    requires c == a + b && k * d == (n - 1) * b && (k - 1) * c == (n - 1) * a
    ensures k * (c + d) == n * c
  {
    assert k * (c + d) == (k - 1) * c + c + k * d;
    assert (n - 1) * a + (n - 1) * b == (n - 1) * (a + b);
  }

  /** The terms of (a + 1)^n from degree k upwards. */
  function Terms(a: int, n: nat, k: nat): int
    decreases n + 1 - k
  {
    if k > n then 0 else Choose(n, k) * Pow(a, k) + Terms(a, n, k + 1)
  }

  lemma {:induction false} TermsStep(a: int, n: nat, k: nat)
    requires 1 <= k <= n + 2
    ensures Terms(a, n + 1, k) == a * Terms(a, n, k - 1) + Terms(a, n, k)
    decreases n + 2 - k
  {
    if k == n + 2 {
    } else {
      TermsStep(a, n, k + 1);
      var c, d := Choose(n, k - 1), Choose(n, k);
      if k == n + 1 {
        ChooseAbove(n, n + 1);
      }
      assert Choose(n + 1, k) == c + d;
      TermsAlgebra(a, c, d, Pow(a, k - 1), Pow(a, k), Terms(a, n, k), Terms(a, n, k + 1),
                   Terms(a, n + 1, k + 1), Terms(a, n, k - 1));
    }
  }

  lemma TermsAlgebra(a: int, c: int, d: int, q: int, r: int, t: int, u: int, next: int, prev: int)
    requires r == a * q && t == d * r + u && next == a * t + u && prev == c * q + t
    ensures (c + d) * r + next == a * prev + t
  {
    assert (c + d) * r == c * r + d * r;
    assert c * r == a * (c * q);
    assert a * prev == a * (c * q) + a * t;
  }

  lemma TermsHead(a: int, n: nat)
    ensures Terms(a, n, 0) == 1 + Terms(a, n, 1)
  {
    assert Choose(n, 0) * Pow(a, 0) == 1;
  }

  lemma Distribute(a: int, t: int)
    ensures (a + 1) * t == a * t + t
  {
  }

  /** The binomial theorem for (a + 1)^n. */
  lemma {:induction false} Binomial(a: int, n: nat)
    ensures Pow(a + 1, n) == Terms(a, n, 0)
  {
    if n == 0 {
      assert Terms(a, 0, 1) == 0;
    } else {
      Binomial(a, n - 1);
      TermsStep(a, n - 1, 1);
      TermsHead(a, n - 1);
      TermsHead(a, n);
      Distribute(a, Terms(a, n - 1, 0));
    }
  }

  lemma PrimeDividesChoose(p: int, k: nat)
    requires Prime(p) && 1 <= k < p
    ensures Choose(p, k) % p == 0
  {
    ChooseAbsorb(p, k);
    ModOfMultiple(p, Choose(p - 1, k - 1));
    Euclid(p, k, Choose(p, k));
    ModUnique(k, p, 0, k);
  }

  lemma {:induction false} MiddleTerms(a: int, p: int, k: nat)
    requires Prime(p) && 1 <= k <= p
    ensures Cong(Terms(a, p, k), Pow(a, p), p)
    decreases p - k
  {
    hide Pow, Choose, Prime;
    if k == p {
      ChooseAll(p);
      assert Terms(a, p, p + 1) == 0;
    } else {
      MiddleTerms(a, p, k + 1);
      PrimeDividesChoose(p, k);
      AtLeastTwo(p);
      MultipleDrops(Terms(a, p, k + 1), Choose(p, k), Pow(a, k), p);
    }
  }

  lemma AtLeastTwo(p: int)
    requires Prime(p)
    ensures p >= 2
  {
  }

  lemma MultipleDrops(rest: int, choose: int, power: int, p: int)
    requires p > 0 && choose % p == 0
    ensures Cong(choose * power + rest, rest, p)
  {
    var c := DivisorOf(choose, p);
    assert choose * power == p * (c * power);
    ModShift(rest, p, c * power);
  }

  /** Fermat's little theorem. */
  lemma {:induction false} Fermat(a: nat, p: int)
    requires Prime(p)
    ensures Cong(Pow(a, p), a, p)
  {
    if a == 0 {
    } else {
      Fermat(a - 1, p);
      Binomial(a - 1, p);
      MiddleTerms(a - 1, p, 1);
      assert Terms(a - 1, p, 0) == 1 + Terms(a - 1, p, 1);
      CongAdd(Terms(a - 1, p, 1), Pow(a - 1, p), 1, 1, p);
      CongAdd(Pow(a - 1, p), a - 1, 1, 1, p);
    }
  }

  lemma FermatUnit(a: nat, p: int)
    requires Prime(p) && a % p != 0
    ensures Cong(Pow(a, p - 1), 1, p)
  {
    Fermat(a, p);
    CancelPrime(p, a, Pow(a, p - 1), 1);
  }

  // ----- Two distinct primes -----

  lemma DistinctPrimes(p: int, q: int)
    requires Prime(p) && Prime(q) && p != q
    ensures q % p != 0
  {
    if q % p == 0 {
      if p < q {
        assert false;
      }
      ModUnique(q, p, 0, q);
    }
  }

  /** Congruent modulo two distinct primes means congruent modulo their product. */
  lemma CongProduct(a: int, b: int, p: int, q: int)
    requires Prime(p) && Prime(q) && p != q
    requires Cong(a, b, p) && Cong(a, b, q)
    ensures p * q > 0 && Cong(a, b, p * q)
  {
    CongIff(a, b, p);
    CongIff(a, b, q);
    var k := DivisorOf(a - b, p);
    DistinctPrimes(q, p);
    Euclid(q, p, k);
    var l := DivisorOf(k, q);
    MulMonotone(p, 1, q);
    assert a == b + (p * q) * l by {
      assert p * (q * l) == (p * q) * l;
    }
    ModShift(b, p * q, l);
  }

  // ----- Bits -----

  /** The bit of weight 2^k. */
  function BitOf(x: nat, k: nat): nat {
    PowPositive(2, k);
    x / Pow(2, k) % 2
  }

  lemma NextBit(x: nat, k: nat)
    ensures BitOf(x, k + 1) == BitOf(x / 2, k)
  {
    var p := Pow(2, k);
    PowPositive(2, k);
    var q, r := x / 2 / p, x / 2 % p;
    assert x / 2 == p * q + r;
    assert Pow(2, k + 1) == 2 * p;
    assert x == 2 * (p * q + r) + x % 2 == (2 * p) * q + (2 * r + x % 2);
    ModUnique(x, 2 * p, q, 2 * r + x % 2);
  }

  /** Multiples of a higher power of two leave the bit alone. */
  lemma {:induction false} BitBelow(h: nat, x: nat, j: nat, k: nat)
    requires k < j && h * Pow(2, j) + x >= 0
    ensures BitOf(h * Pow(2, j) + x, k) == BitOf(x, k)
  {
    var p := Pow(2, j - 1);
    assert Pow(2, j) == 2 * p;
    PowPositive(2, j - 1);
    MulMonotone(p, 0, h);
    HalfOfSum(h, p, x);
    if k == 0 {
      assert Pow(2, 0) == 1;
    } else {
      NextBit(h * Pow(2, j) + x, k - 1);
      NextBit(x, k - 1);
      BitBelow(h, x / 2, j - 1, k - 1);
    }
  }

  lemma HalfOfSum(h: nat, p: nat, x: nat)
    ensures 0 <= h * p && h * (2 * p) == 2 * (h * p)
    ensures (h * (2 * p) + x) / 2 == h * p + x / 2 && (h * (2 * p) + x) % 2 == x % 2
  {
    MulMonotone(p, 0, h);
    assert h * p == p * h;
    assert h * (2 * p) == 2 * (h * p);
  }
}
