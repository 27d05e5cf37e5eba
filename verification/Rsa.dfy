/** RSASSA-PKCS1-v1_5 with Chinese-remainder signing (authlab/crypto/rsa.py). */
module Rsa {
  import opened NumberTheory
  import opened BigEndian
  import Primes
  import opened Wrappers

  datatype Error = UnsupportedHash | BlockTooShort | OutOfRange | Overflow | KeyTooSmall | NotInvertible

  datatype Result<+T> = Ok(value: T) | Err(error: Error)

  datatype PublicKey = PublicKey(n: nat, e: nat) {
    function KeySize(): nat { ByteLength(n) }
  }

  datatype PrivateKey = PrivateKey(n: nat, e: nat, d: nat, p: nat, q: nat, dp: nat, dq: nat, qinv: nat) {
    function Public(): PublicKey { PublicKey(n, e) }

    function KeySize(): nat { ByteLength(n) }
  }

  // ----- Key generation -----

  /** _lcm. */
  function Lcm(a: nat, b: nat): (r: nat)
    requires a > 0 && b > 0
    ensures r > 0 && r % a == 0 && r % b == 0
  {
    LcmIsMultiple(a, b);
    a / Gcd(a, b) * b
  }

  lemma LcmIsMultiple(a: nat, b: nat)
    requires a > 0 && b > 0
    ensures Gcd(a, b) > 0
    ensures var r := a / Gcd(a, b) * b; r > 0 && r % a == 0 && r % b == 0
  {
    Bezout(a, b);
    var g := Gcd(a, b);
    var k := DivisorOf(a, g);
    var l := DivisorOf(b, g);
    ModUnique(a, g, k, 0);
    PositiveFactor(g, k);
    MulMonotone(b, 1, k);
    ModOfMultiple(b, k);
    ModOfMultiple(a, l);
    Associate(k, g, l);
  }

  lemma PositiveFactor(g: int, k: int)
    requires g > 0 && g * k > 0
    ensures k > 0
  {
    if k <= 0 {
      MulMonotone(g, k, 0);
    }
  }

  lemma Associate(k: int, g: int, l: int)
    ensures k * (g * l) == (g * k) * l
  {
  }

  /** No common multiple is smaller. */
  lemma LcmIsLeast(a: nat, b: nat, m: nat)
    requires a > 0 && b > 0 && m > 0 && m % a == 0 && m % b == 0
    ensures Lcm(a, b) <= m
  {
    Bezout(a, b);
    var g := Gcd(a, b);
    var (x, y) := ExtendedGcd(a, b);
    var k, u, v := DivisorOf(a, g), DivisorOf(m, a), DivisorOf(m, b);
    ModUnique(a, g, k, 0);
    assert Lcm(a, b) == k * b;
    var t := x * v + y * u;
    CommonMultiple(a, b, g, x, y, k, u, v, m);
    if t <= 0 {
      MulMonotone(Lcm(a, b), t, 0);
    }
    MulMonotone(Lcm(a, b), 1, t);
  }

  lemma CommonMultiple(a: int, b: int, g: int, x: int, y: int, k: int, u: int, v: int, m: int)
    requires g > 0 && g == a * x + b * y && a == g * k && m == a * u && m == b * v
    ensures m == (k * b) * (x * v + y * u)
  {
    calc {
      g * m;
      a * x * m + b * y * m;
      a * x * (b * v) + b * y * (a * u);
      (a * b) * (x * v + y * u);
      g * ((k * b) * (x * v + y * u));
    }
    CancelFactor(g, m, (k * b) * (x * v + y * u));
  }

  lemma CancelFactor(g: int, a: int, b: int)
    requires g > 0 && g * a == g * b
    ensures a == b
  {
    if a < b {
      MulMonotone(g, a + 1, b);
    } else if b < a {
      MulMonotone(g, b + 1, a);
    }
  }

  /** What one drawn pair comes to: the loop continues, pow raises because p and q share a factor, or a key. */
  datatype Drawn = Again | Raises | Key(key: PrivateKey)

  /** What generate_rsa_keypair computes from one pair. */
  function KeypairFrom(bits: nat, e: nat, p: nat, q: nat): Drawn
    requires p >= 2 && q >= 2 && bits >= 512
  {
    var gap := if p > q then p - q else q - p;
    if p == q || gap < Pow(2, bits / 2 - 100) then Again
    else if BitLength(p * q) != bits then Again
    else
      var lambda := Lcm(p - 1, q - 1);
      if Gcd(e, lambda) != 1 then Again
      else
        var d := ModInverse(e, lambda);
        if BitLength(d) <= bits / 4 then Again
        else if Gcd(q, p) != 1 then Raises
        else Key(PrivateKey(p * q, e, d, p, q, d % (p - 1), d % (q - 1), ModInverse(q, p)))
  }

  /** d is the private exponent of a pair that the loop does not reject. */
  ghost predicate Admits(bits: nat, e: nat, p: nat, q: nat, d: nat) {
    && bits >= 512 && p >= 2 && q >= 2 && p != q && (p - q >= Pow(2, bits / 2 - 100) || q - p >= Pow(2, bits / 2 - 100)) && BitLength(p * q) == bits
    && IsInverse(d, e, Lcm(p - 1, q - 1)) && BitLength(d) > bits / 4
  }

  /** The key of a pair: it has two distant primes, the asked length, a long private exponent and the CRT parameters. */
  ghost predicate IsKeyOf(bits: nat, e: nat, p: nat, q: nat, k: PrivateKey) {
    && k.p == p && k.q == q && k.n == p * q && k.e == e && Admits(bits, e, p, q, k.d)
    && k.dp == k.d % (p - 1) && k.dq == k.d % (q - 1) && IsInverse(k.qinv, q, p)
  }

  /** A pair gives a key exactly when it has one, and the loop goes on exactly when there is no private exponent. */
  lemma KeypairIff(bits: nat, e: nat, p: nat, q: nat, k: PrivateKey)
    requires p >= 2 && q >= 2 && bits >= 512
    ensures KeypairFrom(bits, e, p, q) == Key(k) <==> IsKeyOf(bits, e, p, q, k)
    ensures KeypairFrom(bits, e, p, q) == Again <==> forall d: nat :: !Admits(bits, e, p, q, d)
  {
    hide Pow, BitLength, Lcm, Gcd, ModInverse;
    var lambda := Lcm(p - 1, q - 1);
    forall d: nat | IsInverse(d, e, lambda)
      ensures Gcd(e, lambda) == 1 && d == ModInverse(e, lambda)
    {
      InverseMeansCoprime(d, e, lambda);
      InverseIsUnique(d, ModInverse(e, lambda), e, lambda);
    }
    if IsInverse(k.qinv, q, p) {
      InverseMeansCoprime(k.qinv, q, p);
      InverseIsUnique(k.qinv, ModInverse(q, p), q, p);
    }
    if KeypairFrom(bits, e, p, q) != Again {
      assert Admits(bits, e, p, q, ModInverse(e, lambda));
    }
  }

  lemma InverseMeansCoprime(x: nat, a: nat, n: nat)
    requires IsInverse(x, a, n)
    ensures Gcd(a, n) == 1
  {
    Bezout(a, n);
    var g := Gcd(a, n);
    var l := DivisorOf(n, g);
    PositiveFactor(g, l);
    CongDivisor(a * x, 1, g, l);
    CongMod(0, g);
    CongMul(a, 0, x, x, g);
    if g >= 2 {
      ModUnique(1, g, 0, 1);
    }
  }

  lemma InverseIsUnique(x: nat, y: nat, a: nat, n: nat)
    requires IsInverse(x, a, n) && IsInverse(y, a, n)
    ensures x == y
  {
    CongMul(x, x, a * y, 1, n);
    CongMul(y, y, a * x, 1, n);
    assert x * (a * y) == y * (a * x);
    CongSmall(x, y, n);
  }

  /** The loop of _gcd. */
  method ComputeGcd(a: nat, b: nat) returns (g: nat)
    ensures g == Gcd(a, b)
    ensures a > 0 || b > 0 ==> DividesBoth(g, a, b) && forall d :: DividesBoth(d, a, b) ==> d <= g
  {
    var x, y := a, b;
    while y != 0
      invariant Gcd(x, y) == Gcd(a, b)
      decreases y
    {
      x, y := y, x % y;
    }
    g := x;
    if a > 0 || b > 0 {
      Bezout(a, b);
      forall d | DividesBoth(d, a, b)
        ensures d <= g
      {
        GcdGreatest(a, b, d);
      }
    }
  }

  /** The loop of generate_rsa_keypair over the prime pairs it draws; None when the draws run out. */
  method GenerateKeypair(bits: nat, e: nat, draws: seq<(nat, nat)>) returns (r: Result<Option<PrivateKey>>)
    requires bits >= 512 ==> forall i :: 0 <= i < |draws| ==>
      Primes.FullSize(draws[i].0, bits / 2) && Primes.FullSize(draws[i].1, bits / 2)
    ensures r == Err(KeyTooSmall) <==> bits < 512
    ensures r.Err? ==> r.error in {KeyTooSmall, NotInvertible}
    ensures bits >= 512 ==> (r == Ok(None) <==> forall i :: 0 <= i < |draws| ==> NoExponent(bits, e, draws[i]))
    ensures bits >= 512 && r != Ok(None) ==> exists i :: 0 <= i < |draws| && FirstToStop(bits, e, draws, i, r)
    ensures r.Ok? && r.value.Some? && Prime(r.value.value.p) && Prime(r.value.value.q) ==>
      ValidKey(r.value.value) && OddPrimes(r.value.value)
    ensures bits % 2 == 1 && bits >= 512 ==> r == Ok(None)
  {
    hide KeypairFrom, ValidKey, Prime, BitLength, Pow, Admits, IsKeyOf;
    if bits < 512 {
      return Err(KeyTooSmall);
    }
    for i := 0 to |draws|
      invariant forall j :: 0 <= j < i ==> NoExponent(bits, e, draws[j])
    {
      var (p, q) := draws[i];
      FullSizeIsLarge(p, bits);
      FullSizeIsLarge(q, bits);
      var drawn := KeypairFrom(bits, e, p, q);
      DrawnMeans(bits, e, p, q);
      if bits % 2 == 1 {
        OddSizeNeverFits(bits, e, p, q);
      }
      if drawn.Raises? {
        r := Err(NotInvertible);
        assert FirstToStop(bits, e, draws, i, r);
        return;
      }
      if drawn.Key? {
        if Prime(p) && Prime(q) {
          KeypairIsValid(bits, e, p, q);
        }
        r := Ok(Some(drawn.key));
        assert r.value.value.p == p && r.value.value.q == q;
        assert FirstToStop(bits, e, draws, i, r);
        return;
      }
    }
    return Ok(None);
  }

  ghost predicate NoExponent(bits: nat, e: nat, pair: (nat, nat)) {
    forall d: nat :: !Admits(bits, e, pair.0, pair.1, d)
  }

  /** The first pair with a private exponent decides: its key, or the error when q has no inverse modulo p. */
  ghost predicate FirstToStop(bits: nat, e: nat, draws: seq<(nat, nat)>, i: nat, r: Result<Option<PrivateKey>>)
    requires i < |draws|
  {
    && (forall j :: 0 <= j < i ==> NoExponent(bits, e, draws[j]))
    && !NoExponent(bits, e, draws[i])
    && (match r
        case Ok(Some(k)) => IsKeyOf(bits, e, draws[i].0, draws[i].1, k)
        case Ok(None) => false
        case Err(error) => error == NotInvertible && forall x :: !IsInverse(x, draws[i].1, draws[i].0))
  }

  lemma DrawnMeans(bits: nat, e: nat, p: nat, q: nat)
    requires p >= 2 && q >= 2 && bits >= 512
    ensures var drawn := KeypairFrom(bits, e, p, q);
      && (drawn.Again? <==> NoExponent(bits, e, (p, q)))
      && (drawn.Key? ==> IsKeyOf(bits, e, p, q, drawn.key) && drawn.key.p == p && drawn.key.q == q)
      && (drawn.Raises? ==> forall x :: !IsInverse(x, q, p))
  {
    hide Pow, BitLength, Lcm, Gcd, ModInverse;
    var drawn := KeypairFrom(bits, e, p, q);
    KeypairIff(bits, e, p, q, PrivateKey(0, 0, 0, 0, 0, 0, 0, 0));
    if drawn.Key? {
      KeypairIff(bits, e, p, q, drawn.key);
    }
    forall x | IsInverse(x, q, p)
      ensures Gcd(q, p) == 1
    {
      InverseMeansCoprime(x, q, p);
    }
  }

  lemma FullSizeIsLarge(p: nat, bits: nat)
    requires bits >= 512 && Primes.FullSize(p, bits / 2)
    ensures p > 2
  {
    PowPositive(2, bits / 2 - 2);
  }

  /** What generate_rsa_keypair guarantees of the key it returns. */
  ghost predicate ValidKey(k: PrivateKey) {
    && Prime(k.p) && Prime(k.q) && k.p != k.q
    && k.n == k.p * k.q
    && (k.e * k.d) % Lcm(k.p - 1, k.q - 1) == 1 % Lcm(k.p - 1, k.q - 1)
    && k.dp == k.d % (k.p - 1) && k.dq == k.d % (k.q - 1)
    && IsInverse(k.qinv, k.q, k.p)
  }

  /** generate_prime forces two top bits, so neither prime is 2. */
  ghost predicate OddPrimes(k: PrivateKey) {
    k.p > 2 && k.q > 2
  }

  lemma KeypairIsValid(bits: nat, e: nat, p: nat, q: nat)
    requires Prime(p) && Prime(q) && bits >= 512
    requires KeypairFrom(bits, e, p, q).Key?
    ensures ValidKey(KeypairFrom(bits, e, p, q).key)
  {
  }

  /** Two primes below 2^(bits // 2) never multiply to an odd number of bits: that loop cannot end. */
  lemma OddSizeNeverFits(bits: nat, e: nat, p: nat, q: nat)
    requires bits % 2 == 1 && bits >= 512 && p >= 2 && q >= 2
    requires Primes.FullSize(p, bits / 2) && Primes.FullSize(q, bits / 2)
    ensures KeypairFrom(bits, e, p, q) == Again
  {
    ProductBits(bits / 2, p, q);
  }

  /** The length test can be met exactly for even sizes, and then every pair of the drawn size meets it. */
  lemma LengthFitsIffEven(bits: nat, p: nat, q: nat)
    requires bits >= 512 && Primes.FullSize(p, bits / 2) && Primes.FullSize(q, bits / 2)
    ensures BitLength(p * q) == bits <==> bits % 2 == 0
  {
    PowPositive(2, bits / 2 - 2);
    ProductBits(bits / 2, p, q);
    Primes.ProductHasFullLength(p, q, bits / 2);
  }

  lemma ProductBits(h: nat, p: nat, q: nat)
    requires 0 < p < Pow(2, h) && 0 < q < Pow(2, h)
    ensures BitLength(p * q) != h + h + 1
  {
    PowAdd(2, h, h);
    ProductBelowSquare(p, q, Pow(2, h));
    BitLengthBounds(p * q);
  }

  lemma ProductBelowSquare(p: nat, q: nat, b: nat)
    requires 0 < p < b && 0 < q < b
    ensures 0 < p * q < b * b
  {
    MulMonotone(p, 1, q);
    MulMonotone(p, q, b);
    MulMonotone(b, p, b - 1);
  }

  // ----- The primitives -----

  /** _rsasp1: m^d mod n through the Chinese remainder theorem. */
  function PrivatePower(k: PrivateKey, m: int): Result<int>
    requires k.p > 0 && k.q > 0
  {
    if !(0 <= m < k.n) then Err(OutOfRange)
    else
      var m1 := PowMod(m, k.dp, k.p);
      var m2 := PowMod(m, k.dq, k.q);
      var h := (k.qinv * (m1 - m2)) % k.p;
      Ok(m2 + h * k.q)
  }

  /** _rsavp1: s^e mod n. */
  function PublicPower(k: PublicKey, s: int): Result<int> {
    if !(0 <= s < k.n) then Err(OutOfRange)
    else Ok(PowMod(s, k.e, k.n))
  }

  // The exponents cancel modulo each prime, and no exponent is zero when the prime is odd.
  lemma ExponentFacts(e: nat, d: nat, p: int, lambda: nat)
    requires p >= 2 && lambda > 0 && (e * d) % lambda == 1 % lambda
    requires lambda % (p - 1) == 0
    ensures Cong(e * d, 1, p - 1)
    ensures p > 2 ==> e > 0 && d > 0 && d % (p - 1) > 0
  {
    var k := DivisorOf(lambda, p - 1);
    if k <= 0 {
      MulMonotone(p - 1, k, 0);
    }
    CongDivisor(e * d, 1, p - 1, k);
    if p > 2 {
      ModUnique(1, p - 1, 0, 1);
      ModUnique(0, p - 1, 0, 0);
      if d % (p - 1) == 0 {
        CongMul(e, e, d, 0, p - 1);
      }
    }
  }

  // Modulo an odd prime, exponents matter only modulo p - 1, also when p divides the base.
  lemma ReduceExponent(m: nat, x: nat, y: nat, p: int)
    requires Prime(p) && x > 0 && y > 0 && Cong(x, y, p - 1)
    ensures Cong(Pow(m, x), Pow(m, y), p)
    decreases x > y
  {
    if x > y {
      ReduceExponent(m, y, x, p);
    } else {
      CongIff(y, x, p - 1);
      var t := DivisorOf(y - x, p - 1);
      if t < 0 {
        MulMonotone(p - 1, t, -1);
      }
      PowAdd(m, x, (p - 1) * t);
      if m % p == 0 {
        CongMod(0, p);
        CongMul(m, 0, Pow(m, x - 1), Pow(m, x - 1), p);
        CongMul(Pow(m, x), 0, Pow(m, (p - 1) * t), Pow(m, (p - 1) * t), p);
      } else {
        FermatUnit(m, p);
        PowMul(m, p - 1, t);
        PowCong(Pow(m, p - 1), 1, t, p);
        PowOne(t);
        CongMul(Pow(m, x), Pow(m, x), Pow(m, (p - 1) * t), 1, p);
      }
    }
  }

  // Raising to d and then to e is the identity modulo each odd prime of the key.
  lemma RoundTripModulo(m: nat, e: nat, d: nat, p: int)
    requires Prime(p) && p > 2 && e > 0 && d > 0 && Cong(e * d, 1, p - 1)
    ensures Cong(Pow(Pow(m, d), e), m, p)
  {
    MulMonotone(e, 1, d);
    assert d * e == e * d;
    PowMul(m, d, e);
    ReduceExponent(m, e * d, 1, p);
    assert Pow(m, 1) == m;
  }

  // Garner's recombination is the unique residue below p * q that is m1 modulo p and m2 modulo q.
  lemma Garner(p: nat, q: nat, qinv: nat, m1: int, m2: int)
    requires p > 0 && q > 0 && IsInverse(qinv, q, p) && 0 <= m2 < q
    ensures var h := (qinv * (m1 - m2)) % p;
      0 <= m2 + h * q < p * q && Cong(m2 + h * q, m1, p) && Cong(m2 + h * q, m2, q)
  {
    var h := (qinv * (m1 - m2)) % p;
    GarnerRange(p, q, h, m2);
    ModShift(m2, q, h);
    GarnerFactor(p, q, qinv, m1 - m2);
    CongMod(m2, p);
    CongAdd(m2, m2, h * q, m1 - m2, p);
  }

  lemma GarnerRange(p: nat, q: nat, h: nat, m2: int)
    requires h < p && 0 <= m2 < q
    ensures 0 <= m2 + h * q < p * q
  {
    MulMonotone(q, h, p - 1);
    MulMonotone(q, 0, h);
    assert q * (p - 1) == p * q - q;
  }

  lemma GarnerFactor(p: nat, q: nat, qinv: nat, x: int)
    requires IsInverse(qinv, q, p)
    ensures Cong((qinv * x) % p * q, x, p)
  {
    CongMod(qinv * x, p);
    CongMul((qinv * x) % p, qinv * x, q, q, p);
    CongMul(q * qinv, 1, x, x, p);
    assert qinv * x * q == (q * qinv) * x;
  }

  lemma KeyFacts(k: PrivateKey)
    requires ValidKey(k) && OddPrimes(k)
    ensures k.n > 0 && k.e > 0 && k.d > 0 && k.dp > 0 && k.dq > 0
    ensures Cong(k.e * k.d, 1, k.p - 1) && Cong(k.e * k.d, 1, k.q - 1)
  {
    ExponentFacts(k.e, k.d, k.p, Lcm(k.p - 1, k.q - 1));
    ExponentFacts(k.e, k.d, k.q, Lcm(k.p - 1, k.q - 1));
    MulMonotone(k.p, 1, k.q);
  }

  lemma ReducedExponentModulo(m: nat, d: nat, dp: nat, p: int)
    requires Prime(p) && d > 0 && dp > 0 && dp == d % (p - 1)
    ensures Cong(PowMod(m, dp, p), Pow(m, d), p)
  {
    CongMod(d, p - 1);
    ReduceExponent(m, dp, d, p);
    CongMod(Pow(m, dp), p);
  }

  /** The CRT result is m^d mod n, for every representative, also when p or q divides m. */
  lemma CrtIsExponentiation(k: PrivateKey, m: int)
    requires ValidKey(k) && OddPrimes(k) && 0 <= m < k.n
    ensures PrivatePower(k, m) == Ok(PowMod(m, k.d, k.n))
  {
    KeyFacts(k);
    var m1, m2 := PowMod(m, k.dp, k.p), PowMod(m, k.dq, k.q);
    var s := PrivatePower(k, m).value;
    ReducedExponentModulo(m, k.d, k.dp, k.p);
    ReducedExponentModulo(m, k.d, k.dq, k.q);
    Garner(k.p, k.q, k.qinv, m1, m2);
    CongProduct(s, Pow(m, k.d), k.p, k.q);
    CongMod(Pow(m, k.d), k.n);
    CongSmall(s, PowMod(m, k.d, k.n), k.n);
  }

  lemma {:induction false} PowOfZero(e: nat)
    ensures Pow(0, e) == if e == 0 then 1 else 0
  {
  }

  // With p = 2 the reduced exponent is 0 and 0^0 is 1, so 0 is "signed" as q.
  lemma CrtFailsWithFirstTwo(k: PrivateKey)
    requires ValidKey(k) && k.p == 2
    ensures PrivatePower(k, 0) == Ok(k.q) && PowMod(0, k.d, k.n) == 0
  {
    ExponentFacts(k.e, k.d, k.q, Lcm(k.p - 1, k.q - 1));
    assert k.dp == 0;
    PowOfZero(0);
    PowOfZero(k.dq);
    PowOfZero(k.d);
    ModUnique(0, k.q, 0, 0);
    ModUnique(0, k.n, 0, 0);
  }

  // With q = 2 the representative 0 is "signed" as an odd number.
  lemma CrtFailsWithSecondTwo(k: PrivateKey)
    requires ValidKey(k) && k.q == 2
    ensures PrivatePower(k, 0) != Ok(PowMod(0, k.d, k.n))
  {
    ExponentFacts(k.e, k.d, k.p, Lcm(k.p - 1, k.q - 1));
    assert k.dq == 0;
    PowOfZero(0);
    PowOfZero(k.dp);
    PowOfZero(k.d);
    ModUnique(0, k.p, 0, 0);
    ModUnique(0, k.n, 0, 0);
    assert PrivatePower(k, 0).value == 1 + 2 * ((k.qinv * (0 - 1)) % k.p);
  }

  /** With p or q equal to 2 the shortcut gets the representative 0 wrong. */
  lemma CrtFailsWithTwo(k: PrivateKey)
    requires ValidKey(k) && !OddPrimes(k)
    ensures k.n > 0 && PrivatePower(k, 0) != Ok(PowMod(0, k.d, k.n))
  {
    MulMonotone(k.p, 1, k.q);
    if k.p == 2 {
      CrtFailsWithFirstTwo(k);
    } else {
      CrtFailsWithSecondTwo(k);
    }
  }

  /** For a generated key the CRT shortcut is exponentiation on every input exactly when neither prime is 2. */
  lemma CrtCorrectIff(k: PrivateKey)
    requires ValidKey(k)
    ensures k.n > 0
    ensures (forall m :: 0 <= m < k.n ==> PrivatePower(k, m) == Ok(PowMod(m, k.d, k.n))) <==> OddPrimes(k)
  {
    MulMonotone(k.p, 1, k.q);
    if OddPrimes(k) {
      forall m | 0 <= m < k.n
        ensures PrivatePower(k, m) == Ok(PowMod(m, k.d, k.n))
      {
        CrtIsExponentiation(k, m);
      }
    } else {
      CrtFailsWithTwo(k);
    }
  }

  lemma PowRoundTrip(m: nat, x: nat, y: nat, p: int, q: int)
    requires Prime(p) && Prime(q) && p != q && p > 2 && q > 2 && x > 0 && y > 0
    requires Cong(y * x, 1, p - 1) && Cong(y * x, 1, q - 1)
    requires 0 < p * q && m < p * q
    ensures PowMod(PowMod(m, x, p * q), y, p * q) == m
  {
    var n := p * q;
    RoundTripModulo(m, y, x, p);
    RoundTripModulo(m, y, x, q);
    CongProduct(Pow(Pow(m, x), y), m, p, q);
    CongMod(Pow(m, x), n);
    PowCong(PowMod(m, x, n), Pow(m, x), y, n);
    CongMod(Pow(PowMod(m, x, n), y), n);
    CongSmall(PowMod(PowMod(m, x, n), y, n), m, n);
  }

  /** The two primitives undo each other, in both directions, on all of [0, n). */
  lemma PrimitivesInvert(k: PrivateKey, m: int)
    requires ValidKey(k) && OddPrimes(k) && 0 <= m < k.n
    ensures var s := PrivatePower(k, m); s.Ok? && 0 <= s.value < k.n && PublicPower(k.Public(), s.value) == Ok(m)
    ensures var c := PublicPower(k.Public(), m); c.Ok? && 0 <= c.value < k.n && PrivatePower(k, c.value) == Ok(m)
  {
    KeyFacts(k);
    CrtIsExponentiation(k, m);
    PowRoundTrip(m, k.d, k.e, k.p, k.q);
    assert k.d * k.e == k.e * k.d;
    PowRoundTrip(m, k.e, k.d, k.p, k.q);
    CrtIsExponentiation(k, PowMod(m, k.e, k.n));
  }

  // ----- EMSA-PKCS1-v1_5 -----

  /** hashlib.new(name, message).digest(): only its determinism matters. */
  type Hash = (string, seq<byte>) -> seq<byte>

  const SHA256_PREFIX: seq<byte> :=
    [0x30, 0x31, 0x30, 0x0d, 0x06, 0x09, 0x60, 0x86, 0x48, 0x01, 0x65, 0x03, 0x04, 0x02, 0x01, 0x05, 0x00, 0x04, 0x20]
  const SHA384_PREFIX: seq<byte> :=
    [0x30, 0x41, 0x30, 0x0d, 0x06, 0x09, 0x60, 0x86, 0x48, 0x01, 0x65, 0x03, 0x04, 0x02, 0x02, 0x05, 0x00, 0x04, 0x30]
  const SHA512_PREFIX: seq<byte> :=
    [0x30, 0x51, 0x30, 0x0d, 0x06, 0x09, 0x60, 0x86, 0x48, 0x01, 0x65, 0x03, 0x04, 0x02, 0x03, 0x05, 0x00, 0x04, 0x40]

  function DigestInfoPrefix(name: string): Option<seq<byte>> {
    if name == "sha256" then Some(SHA256_PREFIX)
    else if name == "sha384" then Some(SHA384_PREFIX)
    else if name == "sha512" then Some(SHA512_PREFIX)
    else None
  }

  function Repeat(b: byte, count: nat): (s: seq<byte>)
    ensures |s| == count
  {
    seq(count, i => b)
  }

  /** emsa_pkcs1_v15_encode, section 9.2 of RFC 8017. */
  function Encode(hash: Hash, message: seq<byte>, emLen: nat, name: string): (r: Result<seq<byte>>)
    ensures r.Ok? ==> |r.value| == emLen && emLen >= 11
  {
    var prefix := DigestInfoPrefix(name);
    if prefix.None? then Err(UnsupportedHash)
    else
      var t := prefix.value + hash(name, message);
      if emLen < |t| + 11 then Err(BlockTooShort)
      else Ok([0x00, 0x01] + Repeat(0xff, emLen - |t| - 3) + [0x00] + t)
  }

  function Sign(hash: Hash, k: PrivateKey, message: seq<byte>, name: string): Result<seq<byte>>
    requires k.p > 0 && k.q > 0
  {
    var em := Encode(hash, message, k.KeySize(), name);
    if em.Err? then Err(em.error)
    else
      var s := PrivatePower(k, ToInt(em.value));
      if s.Err? then Err(s.error)
      else if s.value < 0 then Err(Overflow)
      else
        var out := ToBytes(s.value, k.KeySize());
        if out.None? then Err(Overflow) else Ok(out.value)
  }

  predicate Verify(hash: Hash, k: PublicKey, message: seq<byte>, signature: seq<byte>, name: string) {
    |signature| == k.KeySize() &&
    var m := PublicPower(k, ToInt(signature));
    m.Ok? &&
    var em := ToBytes(m.value, k.KeySize());
    var expected := Encode(hash, message, k.KeySize(), name);
    em.Some? && expected.Ok? && em.value == expected.value
  }

  /** The two leading bytes 00 01 keep the padded block below every modulus of its own byte length. */
  lemma BlockBelowModulus(hash: Hash, message: seq<byte>, n: nat, name: string)
    requires n > 0
    requires Encode(hash, message, ByteLength(n), name).Ok?
    ensures ToInt(Encode(hash, message, ByteLength(n), name).value) < n
  {
    var k := ByteLength(n);
    ByteLengthBounds(n);
    LeadingBytes(Encode(hash, message, k, name).value);
    assert Pow(256, k - 1) == 256 * Pow(256, k - 2);
    PowPositive(256, k - 2);
  }

  lemma LeadingBytes(em: seq<byte>)
    requires |em| >= 2 && em[0] == 0 && em[1] == 1
    ensures ToInt(em) < 2 * Pow(256, |em| - 2)
  {
    assert em == em[..2] + em[2..];
    ToIntConcat(em[..2], em[2..]);
    assert em[..2] == [0, 1];
    assert [0, 1][..1] == [0] && [0][..0] == [];
    assert ToInt([0]) == 0;
    assert ToInt([0, 1]) == 1;
  }

  /** Every signature this module makes is accepted, and signing fails only for a bad hash name or a short key. */
  lemma SignatureVerifies(hash: Hash, k: PrivateKey, message: seq<byte>, name: string)
    requires ValidKey(k) && OddPrimes(k)
    ensures Sign(hash, k, message, name).Ok? <==> Encode(hash, message, k.KeySize(), name).Ok?
    ensures var s := Sign(hash, k, message, name);
      s.Ok? ==> |s.value| == k.KeySize() && Verify(hash, k.Public(), message, s.value, name)
  {
    KeyFacts(k);
    var em := Encode(hash, message, k.KeySize(), name);
    if em.Ok? {
      BlockBelowModulus(hash, message, k.n, name);
      PrimitivesInvert(k, ToInt(em.value));
      ByteLengthBounds(k.n);
      ToBytesToInt(em.value);
    }
  }

  /** RSA signatures are unique: the verifier accepts exactly the one byte string the signer returns. */
  lemma VerifyAcceptsOnlySigned(hash: Hash, k: PrivateKey, message: seq<byte>, signature: seq<byte>, name: string)
    requires ValidKey(k) && OddPrimes(k)
    ensures Verify(hash, k.Public(), message, signature, name) <==> Sign(hash, k, message, name) == Ok(signature)
  {
    SignatureVerifies(hash, k, message, name);
    if Verify(hash, k.Public(), message, signature, name) {
      var s := ToInt(signature);
      PrimitivesInvert(k, s);
      ToBytesToInt(signature);
      var em := Encode(hash, message, k.KeySize(), name).value;
      assert ToInt(em) == PublicPower(k.Public(), s).value;
    }
  }

  // ----- What a signature says -----

  /** A DER value of fewer than 128 bytes. */
  function Der(tag: byte, content: seq<byte>): seq<byte>
    requires |content| < 128
  {
    [tag, |content|] + content
  }

  /** The object identifiers 2.16.840.1.101.3.4.2.1 to 3. */
  function HashOid(name: string): seq<byte> {
    OidOf(if name == "sha256" then 1 else if name == "sha384" then 2 else 3)
  }

  function OidOf(last: byte): seq<byte> {
    [0x60, 0x86, 0x48, 0x01, 0x65, 0x03, 0x04, 0x02, last]
  }

  function HashLength(name: string): nat {
    if name == "sha256" then 32 else if name == "sha384" then 48 else 64
  }

  lemma DigestInfoBytes(last: byte, digest: seq<byte>)
    requires |digest| <= 64
    ensures Der(0x30, Der(0x30, Der(0x06, OidOf(last)) + Der(0x05, [])) + Der(0x04, digest))
      == [0x30, |digest| + 17, 0x30, 0x0d, 0x06, 0x09, 0x60, 0x86, 0x48, 0x01, 0x65, 0x03, 0x04, 0x02, last, 0x05, 0x00, 0x04, |digest|] + digest
  {
    var algorithm: seq<byte> := [0x06, 0x09, 0x60, 0x86, 0x48, 0x01, 0x65, 0x03, 0x04, 0x02, last, 0x05, 0x00];
    assert Der(0x06, OidOf(last)) + Der(0x05, []) == algorithm;
    assert Der(0x30, algorithm) == [0x30, 0x0d] + algorithm;
  }

  /** The prefix constants: with the digest they are the DigestInfo of section 9.2 of RFC 8017. */
  lemma PrefixMeansDigestInfo(name: string, digest: seq<byte>)
    requires name in {"sha256", "sha384", "sha512"} && |digest| == HashLength(name)
    ensures DigestInfoPrefix(name).Some?
    ensures DigestInfoPrefix(name).value + digest
      == Der(0x30, Der(0x30, Der(0x06, HashOid(name)) + Der(0x05, [])) + Der(0x04, digest))
  {
    hide Der;
    NamesDiffer();
    DigestInfoBytes(if name == "sha256" then 1 else if name == "sha384" then 2 else 3, digest);
  }

  lemma NamesDiffer()
    ensures "sha256" != "sha384" && "sha256" != "sha512" && "sha384" != "sha512"
  {
    assert "sha256"[3] == '2' && "sha384"[3] == '3' && "sha512"[3] == '5';
  }

  /** 00 01, then so many bytes FF, then 00, then the rest. */
  ghost predicate Layout(em: seq<byte>, count: nat, rest: seq<byte>) {
    && |em| == count + 3 + |rest|
    && em[0] == 0x00 && em[1] == 0x01 && (forall i :: 2 <= i < count + 2 ==> em[i] == 0xff) && em[count + 2] == 0x00
    && em[count + 3..] == rest
  }

  /** The block that section 9.2 of RFC 8017 asks for: at least eight bytes FF, and the digest behind its prefix. */
  ghost predicate IsPadded(em: seq<byte>, name: string, digest: seq<byte>) {
    DigestInfoPrefix(name).Some? && exists count: nat :: count >= 8 && Layout(em, count, DigestInfoPrefix(name).value + digest)
  }

  /** The encoding is the one padded block of the asked length. */
  lemma EncodeIff(hash: Hash, message: seq<byte>, emLen: nat, name: string, em: seq<byte>)
    ensures Encode(hash, message, emLen, name) == Ok(em) <==> |em| == emLen && IsPadded(em, name, hash(name, message))
  {
    hide DigestInfoPrefix;
    var prefix := DigestInfoPrefix(name);
    if prefix.Some? {
      var t := prefix.value + hash(name, message);
      if emLen >= |t| + 11 {
        var made := Encode(hash, message, emLen, name).value;
        var count := emLen - |t| - 3;
        assert made[count + 3..] == t;
        assert Layout(made, count, t);
        if f: nat :| f >= 8 && Layout(em, f, t) {
          if |em| == emLen {
            LayoutIsUnique(em, made, f, t);
          }
        }
      }
    }
  }

  lemma LayoutIsUnique(a: seq<byte>, b: seq<byte>, count: nat, rest: seq<byte>)
    requires Layout(a, count, rest) && Layout(b, count, rest)
    ensures a == b
  {
    forall i | 0 <= i < |a|
      ensures a[i] == b[i]
    {
      if i >= count + 3 {
        assert a[i] == a[count + 3..][i - count - 3] && b[i] == b[count + 3..][i - count - 3];
      }
    }
  }

  /** A padded block has one digest, under one hash name. */
  lemma PaddedOnce(em: seq<byte>, name: string, digest: seq<byte>, name': string, digest': seq<byte>)
    requires IsPadded(em, name, digest) && IsPadded(em, name', digest')
    ensures name == name' && digest == digest'
  {
    var p, p' := DigestInfoPrefix(name).value, DigestInfoPrefix(name').value;
    var f: nat :| f >= 8 && Layout(em, f, p + digest);
    var f': nat :| f' >= 8 && Layout(em, f', p' + digest');
    assert em[f + 2] == 0x00 && em[f' + 2] == 0x00;
    assert p == (p + digest)[..19] && p' == (p' + digest')[..19];
    assert digest == (p + digest)[19..] && digest' == (p' + digest')[19..];
    NamesDiffer();
    assert SHA256_PREFIX[14] == 1 && SHA384_PREFIX[14] == 2 && SHA512_PREFIX[14] == 3;
  }

  /** The block that raising a signature to the public exponent gives. */
  function Opened(k: PublicKey, signature: seq<byte>): seq<byte>
    requires k.n > 0
  {
    ByteLengthBounds(k.n);
    ToBytes(Pow(ToInt(signature), k.e) % k.n, k.KeySize()).value
  }

  /** Verification, for any byte string: it has the length of the key and opens to the padded digest of the message. */
  lemma VerifyIff(hash: Hash, k: PublicKey, message: seq<byte>, signature: seq<byte>, name: string)
    requires k.n > 0
    ensures Verify(hash, k, message, signature, name) <==>
      |signature| == k.KeySize() && ToInt(signature) < k.n && IsPadded(Opened(k, signature), name, hash(name, message))
  {
    hide Encode, IsPadded, Pow;
    ByteLengthBounds(k.n);
    EncodeIff(hash, message, k.KeySize(), name, Opened(k, signature));
  }

  /** Signing succeeds exactly for the three hash names and keys with room for the padding. */
  lemma SignSucceedsIff(hash: Hash, k: PrivateKey, message: seq<byte>, name: string)
    requires ValidKey(k) && OddPrimes(k)
    ensures Sign(hash, k, message, name).Ok? <==>
      name in {"sha256", "sha384", "sha512"} && k.KeySize() >= |hash(name, message)| + 30
  {
    SignatureVerifies(hash, k, message, name);
    hide Sign, ValidKey, OddPrimes;
  }

  /** A signature opens to the padded digest of its message, and is accepted for those messages that share the digest. */
  lemma SignatureSaysDigest(hash: Hash, k: PrivateKey, message: seq<byte>, name: string, message': seq<byte>, name': string)
    requires ValidKey(k) && OddPrimes(k) && Sign(hash, k, message, name).Ok?
    ensures k.n > 0
    ensures var s := Sign(hash, k, message, name).value;
      && |s| == k.KeySize() && ToInt(s) < k.n
      && IsPadded(Opened(k.Public(), s), name, hash(name, message))
      && (Verify(hash, k.Public(), message', s, name') <==> name' == name && hash(name, message') == hash(name, message))
  {
    hide Sign, Verify, IsPadded, Opened, ValidKey;
    KeyFacts(k);
    SignatureVerifies(hash, k, message, name);
    var s := Sign(hash, k, message, name).value;
    VerifyIff(hash, k.Public(), message, s, name);
    VerifyIff(hash, k.Public(), message', s, name');
    if IsPadded(Opened(k.Public(), s), name', hash(name', message')) {
      PaddedOnce(Opened(k.Public(), s), name, hash(name, message), name', hash(name', message'));
    }
  }
}
