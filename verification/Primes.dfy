/** Miller-Rabin and prime generation (authlab/crypto/primes.py). */
module Primes {
  import opened NumberTheory
  import opened BigEndian
  import opened Wrappers

  /** Not divisible by a prime up to 23, except by itself. */
  predicate NoSmallFactor(n: int) {
    && (n == 2 || n % 2 != 0) && (n == 3 || n % 3 != 0) && (n == 5 || n % 5 != 0)
    && (n == 7 || n % 7 != 0) && (n == 11 || n % 11 != 0) && (n == 13 || n % 13 != 0)
    && (n == 17 || n % 17 != 0) && (n == 19 || n % 19 != 0) && (n == 23 || n % 23 != 0)
  }

  type SmallPrime = n: int | 2 <= n <= 541 && NoSmallFactor(n) witness 2

  const ROW0: seq<SmallPrime> := [2, 3, 5, 7, 11, 13, 17, 19, 23, 29, 31, 37, 41, 43, 47, 53, 59, 61, 67]
  const ROW1: seq<SmallPrime> := [71, 73, 79, 83, 89, 97, 101, 103, 107, 109, 113, 127, 131, 137, 139, 149]
  const ROW2: seq<SmallPrime> := [151, 157, 163, 167, 173, 179, 181, 191, 193, 197, 199, 211, 223, 227, 229]
  const ROW3: seq<SmallPrime> := [233, 239, 241, 251, 257, 263, 269, 271, 277, 281, 283, 293, 307, 311, 313]
  const ROW4: seq<SmallPrime> := [317, 331, 337, 347, 349, 353, 359, 367, 373, 379, 383, 389, 397, 401, 409]
  const ROW5: seq<SmallPrime> := [419, 421, 431, 433, 439, 443, 449, 457, 461, 463, 467, 479, 487, 491, 499]
  const ROW6: seq<SmallPrime> := [503, 509, 521, 523, 541]

  const SMALL_PRIMES := ROW0 + ROW1 + ROW2 + ROW3 + ROW4 + ROW5 + ROW6

  /** The bases secrets.randbelow(n - 3) + 2 can produce. */
  predicate IsBase(a: int, n: int) {
    2 <= a <= n - 2
  }

  /** n - 1 == d * 2^s with d odd. */
  predicate IsSplit(n: int, d: int, s: nat) {
    d > 0 && d % 2 == 1 && n - 1 == d * Pow(2, s)
  }

  /** a does not witness that n is composite. */
  ghost predicate StrongProbablePrime(n: int, d: int, s: nat, a: int)
    requires n > 0 && d > 0
  {
    || PowMod(a, d, n) == 1
    || exists r: nat :: r < s && Squared(n, d, a, r) == n - 1
  }

  /** a^(d * 2^r) modulo n. */
  ghost function Squared(n: int, d: int, a: int, r: nat): int
    requires n > 0 && d > 0
  {
    PowPositive(2, r);
    MulMonotone(d, 0, Pow(2, r));
    PowMod(a, d * Pow(2, r), n)
  }

  lemma SquaredStep(n: int, d: int, a: int, r: nat)
    requires n > 0 && d > 0
    ensures Squared(n, d, a, 0) == PowMod(a, d, n)
    ensures Squared(n, d, a, r + 1) == PowMod(Squared(n, d, a, r), 2, n)
  {
    PowPositive(2, r);
    MulMonotone(d, 0, Pow(2, r));
    var x := d * Pow(2, r);
    assert d * Pow(2, r + 1) == x * 2;
    PowMul(a, x, 2);
    CongMod(Pow(a, x), n);
    PowCong(PowMod(a, x, n), Pow(a, x), 2, n);
  }

  // From the square root of 1 downwards: if no earlier square is -1, the first one is already 1.
  lemma {:induction false} RootChain(n: int, d: int, a: int, r: nat)
    requires Prime(n) && d > 0 && Squared(n, d, a, r) == 1
    ensures Squared(n, d, a, 0) == 1 || exists i: nat :: i < r && Squared(n, d, a, i) == n - 1
  {
    if r == 0 {
    } else {
      var x := Squared(n, d, a, r - 1);
      SquaredStep(n, d, a, r - 1);
      assert Pow(x, 2) == x * Pow(x, 1) == x * x;
      ModUnique(1, n, 0, 1);
      SquareRootsOfOne(n, x);
      if Cong(x, 1, n) {
        CongSmall(x, 1, n);
        RootChain(n, d, a, r - 1);
      } else {
        ModUnique(-1, n, -1, n - 1);
        ModUnique(n - 1, n, 0, n - 1);
        CongSmall(x, n - 1, n);
      }
    }
  }

  /** No base can witness against a prime. */
  lemma PrimePasses(n: int, d: int, s: nat, a: int)
    requires Prime(n) && IsSplit(n, d, s) && IsBase(a, n)
    ensures StrongProbablePrime(n, d, s, a)
  {
    ModUnique(a, n, 0, a);
    FermatUnit(a, n);
    ModUnique(1, n, 0, 1);
    assert Squared(n, d, a, s) == 1;
    RootChain(n, d, a, s);
    SquaredStep(n, d, a, 0);
  }

  /** What one call of is_probable_prime decides, given its trial-division table and its random bases. */
  ghost predicate Accepts(n: int, bases: seq<int>, table: seq<SmallPrime>) {
    n >= 2 &&
    (n in table
     || ((forall p: SmallPrime :: p in table ==> n % p != 0)
         && forall d: int, s: nat, i: nat ::
              IsSplit(n, d, s) && i < |bases| ==> StrongProbablePrime(n, d, s, bases[i])))
  }

  lemma EvenSplit(d: int, s: nat)
    ensures s > 0 ==> d * Pow(2, s) % 2 == 0
  {
    if s > 0 {
      assert d * Pow(2, s) == (d * Pow(2, s - 1)) * 2;
    }
  }

  // The split of n - 1 is unique.
  lemma {:induction false} SplitUnique(m: int, d: int, s: nat, d': int, s': nat)
    requires d > 0 && d % 2 == 1 && m == d * Pow(2, s)
    requires d' > 0 && d' % 2 == 1 && m == d' * Pow(2, s')
    ensures d == d' && s == s'
    decreases s + s'
  {
    if s == 0 && s' == 0 {
    } else if s == 0 || s' == 0 {
      EvenSplit(d, s);
      EvenSplit(d', s');
    } else {
      assert m == (d' * Pow(2, s' - 1)) * 2;
      assert m == (d * Pow(2, s - 1)) * 2;
      SplitUnique(d * Pow(2, s - 1), d, s - 1, d', s' - 1);
    }
  }

  /** The loop that writes n - 1 as d * 2^s. */
  method SplitOddPart(n: int) returns (d: int, s: nat)
    requires n >= 2
    ensures IsSplit(n, d, s)
  {
    d, s := n - 1, 0;
    while d % 2 == 0
      invariant d > 0 && n - 1 == d * Pow(2, s)
      decreases d
    {
      assert d * Pow(2, s) == (d / 2) * Pow(2, s + 1);
      d, s := d / 2, s + 1;
    }
  }

  /** One round: the for-else over the squarings of a^d. */
  method Round(n: int, d: int, s: nat, a: int) returns (ok: bool)
    requires n >= 4 && IsSplit(n, d, s) && s >= 1
    ensures ok <==> StrongProbablePrime(n, d, s, a)
  {
    SquaredStep(n, d, a, 0);
    var x := PowMod(a, d, n);
    if x == 1 || x == n - 1 {
      return true;
    }
    for i := 0 to s - 1
      invariant x == Squared(n, d, a, i)
      invariant forall r: nat :: r <= i ==> Squared(n, d, a, r) != n - 1
    {
      SquaredStep(n, d, a, i);
      x := PowMod(x, 2, n);
      if x == n - 1 {
        return true;
      }
    }
    return false;
  }

  /** The trial-division loop: Some is an early return. */
  method TrialDivision(n: int, table: seq<SmallPrime>) returns (r: Option<bool>)
    requires n >= 2
    ensures r == Some(true) <==> n in table
    ensures r == Some(false) ==> !Prime(n) && exists p: SmallPrime :: p in table && n % p == 0
    ensures r == None ==> forall p: SmallPrime :: p in table ==> n % p != 0
  {
    for k := 0 to |table|
      invariant forall j :: 0 <= j < k ==> n != table[j] && n % table[j] != 0
    {
      var p := table[k];
      if n == p {
        return Some(true);
      }
      if n % p == 0 {
        assert p in table;
        DivisibleIsComposite(n, p);
        if n in table {
          TableEntryIsPrime(n);
        }
        return Some(false);
      }
    }
    return None;
  }

  lemma DivisibleIsComposite(n: int, p: int)
    requires n >= 2 && p >= 2 && n != p && n % p == 0
    ensures !Prime(n)
  {
    if n < p {
      ModUnique(n, p, 0, n);
    }
  }

  /** The rounds of Miller-Rabin after trial division. */
  method Rounds(n: int, bases: seq<int>) returns (ok: bool)
    requires n >= 4 && n % 2 == 1
    requires forall i :: 0 <= i < |bases| ==> IsBase(bases[i], n)
    ensures ok <==> forall d: int, s: nat, i: nat ::
      IsSplit(n, d, s) && i < |bases| ==> StrongProbablePrime(n, d, s, bases[i])
    ensures Prime(n) ==> ok
  {
    var d, s := SplitOddPart(n);
    for i := 0 to |bases|
      invariant forall j :: 0 <= j < i ==> StrongProbablePrime(n, d, s, bases[j])
    {
      var round := Round(n, d, s, bases[i]);
      if !round {
        if Prime(n) {
          PrimePasses(n, d, s, bases[i]);
        }
        return false;
      }
    }
    forall d': int, s': nat, i: nat | IsSplit(n, d', s') && i < |bases|
      ensures StrongProbablePrime(n, d', s', bases[i])
    {
      SplitUnique(n - 1, d, s, d', s');
    }
    return true;
  }

  /**
   is_probable_prime with the random bases as an argument. It never rejects a prime, so False is a
   proof that n is composite.
   */
  method IsProbablePrime(n: int, bases: seq<int>, table: seq<SmallPrime> := SMALL_PRIMES) returns (ok: bool)
    requires 2 in table && 3 in table
    requires n > 3 ==> forall i :: 0 <= i < |bases| ==> IsBase(bases[i], n)
    ensures ok <==> Accepts(n, bases, table)
    ensures Prime(n) ==> ok
  {
    if n < 2 {
      return false;
    }
    var small := TrialDivision(n, table);
    if small.Some? {
      return small.value;
    }
    assert n % 2 != 0 && n != 3;
    ok := Rounds(n, bases);
  }

  // ----- The trial-division table -----

  lemma FactorDivides(f: int, m: int, l: int)
    requires f > 0 && m % f == 0
    ensures (m * l) % f == 0
  {
    var k := DivisorOf(m, f);
    ModOfMultiple(f, k * l);
    assert m * l == f * (k * l);
  }

  lemma SmallMultiple(m: int, l: int)
    requires 2 <= m <= 23 && l > 1
    ensures !NoSmallFactor(m * l)
  {
    MulMonotone(m, 2, l);
    var f := PrimeFactor(m);
    FactorDivides(f, m, l);
  }

  // Every m from 2 to 23 has a prime factor in the list of NoSmallFactor.
  lemma PrimeFactor(m: int) returns (f: int)
    requires 2 <= m <= 23
    ensures 2 <= f <= m && m % f == 0
    ensures f == 2 || f == 3 || f == 5 || f == 7 || f == 11 || f == 13 || f == 17 || f == 19 || f == 23
  {
    f := if m % 2 == 0 then 2 else if m % 3 == 0 then 3 else m;
    ModOfMultiple(m, 1);
  }

  lemma BelowSquare(n: int, d: int, k: int, b: nat)
    requires n == d * k && d > 1 && 0 < n < b * b && k >= d
    ensures d < b
  {
    if d >= b {
      MulMonotone(d, b, k);
      MulMonotone(b, b, d);
    }
  }

  lemma CofactorLarge(n: int, d: int, k: int)
    requires n == d * k && 2 <= d < n
    ensures k > 1
  {
    if k <= 1 {
      MulMonotone(d, k, 1);
    }
  }

  lemma NoSmallFactorIsPrime(n: int)
    requires 2 <= n < 576 && NoSmallFactor(n)
    ensures Prime(n)
  {
    forall d | 2 <= d < n
      ensures n % d != 0
    {
      if n % d == 0 {
        var k := DivisorOf(n, d);
        CofactorLarge(n, d, k);
        if d <= k {
          BelowSquare(n, d, k, 24);
          SmallMultiple(d, k);
        } else {
          BelowSquare(n, k, d, 24);
          SmallMultiple(k, d);
        }
      }
    }
  }

  lemma TableEntryIsPrime(p: SmallPrime)
    ensures Prime(p)
  {
    NoSmallFactorIsPrime(p);
  }

  /** The least divisor above 1 of a composite. */
  lemma LeastDivisor(n: int, d: int) returns (least: int)
    requires n >= 2 && 2 <= d < n && n % d == 0
    ensures 2 <= least <= d && n % least == 0
    ensures forall c :: 2 <= c < least ==> n % c != 0
    decreases d
  {
    if c :| 2 <= c < d && n % c == 0 {
      least := LeastDivisor(n, c);
    } else {
      least := d;
    }
  }

  lemma LeastDivisorIsPrime(n: int, d: int)
    requires n >= 2 && 2 <= d && n % d == 0 && forall c :: 2 <= c < d ==> n % c != 0
    ensures Prime(d)
  {
    var k := DivisorOf(n, d);
    forall f | 2 <= f < d
      ensures d % f != 0
    {
      if d % f == 0 {
        FactorDivides(f, d, k);
      }
    }
  }

  ghost predicate HoldsPrimesBelow(table: seq<SmallPrime>, b: nat) {
    forall p :: Prime(p) && p < b ==> p in table
  }

  /**
   When the table holds every prime below b, trial division settles the question alone for n < b^2: the
   answer is exact whatever the bases are.
   */
  lemma ExactBelowTableSquare(n: int, bases: seq<int>, table: seq<SmallPrime>, b: nat)
    requires HoldsPrimesBelow(table, b) && b >= 4 && n < b * b
    requires n > 3 ==> forall i :: 0 <= i < |bases| ==> IsBase(bases[i], n)
    ensures Accepts(n, bases, table) <==> Prime(n)
  {
    assert Prime(2) && Prime(3);
    if n in table {
      TableEntryIsPrime(n);
    } else if n >= 2 && forall p: SmallPrime :: p in table ==> n % p != 0 {
      CoprimeToTableIsPrime(n, table, b);
      forall d: int, s: nat, i: nat | IsSplit(n, d, s) && i < |bases|
        ensures StrongProbablePrime(n, d, s, bases[i])
      {
        PrimePasses(n, d, s, bases[i]);
      }
    } else if n >= 2 {
      var p: SmallPrime :| p in table && n % p == 0;
      DivisibleIsComposite(n, p);
    }
  }

  // No prime is missing from the table, checked a few numbers at a time.

  lemma CompleteTo30(p: int)
    requires 2 <= p <= 30 && NoSmallFactor(p)
    ensures p in ROW0
  {
  }

  lemma CompleteTo50(p: int)
    requires 30 < p <= 50 && NoSmallFactor(p)
    ensures p in ROW0
  {
  }

  lemma CompleteTo70(p: int)
    requires 50 < p <= 70 && NoSmallFactor(p)
    ensures p in ROW0
  {
  }

  lemma CompleteTo90(p: int)
    requires 70 < p <= 90 && NoSmallFactor(p)
    ensures p in ROW1
  {
  }

  lemma CompleteTo110(p: int)
    requires 90 < p <= 110 && NoSmallFactor(p)
    ensures p in ROW1
  {
  }

  lemma CompleteTo130(p: int)
    requires 110 < p <= 130 && NoSmallFactor(p)
    ensures p in ROW1
  {
  }

  lemma CompleteTo149(p: int)
    requires 130 < p <= 149 && NoSmallFactor(p)
    ensures p in ROW1
  {
  }

  lemma CompleteTo169(p: int)
    requires 149 < p <= 169 && NoSmallFactor(p)
    ensures p in ROW2
  {
  }

  lemma CompleteTo189(p: int)
    requires 169 < p <= 189 && NoSmallFactor(p)
    ensures p in ROW2
  {
  }

  lemma CompleteTo199(p: int)
    requires 189 < p <= 199 && NoSmallFactor(p)
    ensures p in ROW2
  {
  }

  lemma CompleteTo219(p: int)
    requires 199 < p <= 219 && NoSmallFactor(p)
    ensures p in ROW2
  {
  }

  lemma CompleteTo229(p: int)
    requires 219 < p <= 229 && NoSmallFactor(p)
    ensures p in ROW2
  {
  }

  lemma CompleteTo249(p: int)
    requires 229 < p <= 249 && NoSmallFactor(p)
    ensures p in ROW3
  {
  }

  lemma CompleteTo269(p: int)
    requires 249 < p <= 269 && NoSmallFactor(p)
    ensures p in ROW3
  {
  }

  lemma CompleteTo289(p: int)
    requires 269 < p <= 289 && NoSmallFactor(p)
    ensures p in ROW3
  {
  }

  lemma CompleteTo313(p: int)
    requires 289 < p <= 313 && NoSmallFactor(p)
    ensures p in ROW3
  {
  }

  lemma CompleteTo333(p: int)
    requires 313 < p <= 333 && NoSmallFactor(p)
    ensures p in ROW4
  {
  }

  lemma CompleteTo353(p: int)
    requires 333 < p <= 353 && NoSmallFactor(p)
    ensures p in ROW4
  {
  }

  lemma CompleteTo373(p: int)
    requires 353 < p <= 373 && NoSmallFactor(p)
    ensures p in ROW4
  {
  }

  lemma CompleteTo393(p: int)
    requires 373 < p <= 393 && NoSmallFactor(p)
    ensures p in ROW4
  {
  }

  lemma CompleteTo409(p: int)
    requires 393 < p <= 409 && NoSmallFactor(p)
    ensures p in ROW4
  {
  }

  lemma CompleteTo429(p: int)
    requires 409 < p <= 429 && NoSmallFactor(p)
    ensures p in ROW5
  {
  }

  lemma CompleteTo449(p: int)
    requires 429 < p <= 449 && NoSmallFactor(p)
    ensures p in ROW5
  {
  }

  lemma CompleteTo469(p: int)
    requires 449 < p <= 469 && NoSmallFactor(p)
    ensures p in ROW5
  {
  }

  lemma CompleteTo489(p: int)
    requires 469 < p <= 489 && NoSmallFactor(p)
    ensures p in ROW5
  {
  }

  lemma CompleteTo499(p: int)
    requires 489 < p <= 499 && NoSmallFactor(p)
    ensures p in ROW5
  {
  }

  lemma CompleteTo519(p: int)
    requires 499 < p <= 519 && NoSmallFactor(p)
    ensures p in ROW6
  {
  }

  lemma CompleteTo546(p: int)
    requires 519 < p <= 546 && NoSmallFactor(p)
    ensures p in ROW6
  {
  }

  lemma CompleteRow0(p: int)
    requires 2 <= p <= 70 && NoSmallFactor(p)
    ensures p in ROW0
  {
    hide NoSmallFactor;
    if p <= 30 {
      CompleteTo30(p);
    } else if p <= 50 {
      CompleteTo50(p);
    } else {
      CompleteTo70(p);
    }
  }

  lemma CompleteRow1(p: int)
    requires 70 < p <= 149 && NoSmallFactor(p)
    ensures p in ROW1
  {
    hide NoSmallFactor;
    if p <= 90 {
      CompleteTo90(p);
    } else if p <= 110 {
      CompleteTo110(p);
    } else if p <= 130 {
      CompleteTo130(p);
    } else {
      CompleteTo149(p);
    }
  }

  lemma CompleteRow2(p: int)
    requires 149 < p <= 229 && NoSmallFactor(p)
    ensures p in ROW2
  {
    hide NoSmallFactor;
    if p <= 169 {
      CompleteTo169(p);
    } else if p <= 189 {
      CompleteTo189(p);
    } else if p <= 199 {
      CompleteTo199(p);
    } else if p <= 219 {
      CompleteTo219(p);
    } else {
      CompleteTo229(p);
    }
  }

  lemma CompleteRow3(p: int)
    requires 229 < p <= 313 && NoSmallFactor(p)
    ensures p in ROW3
  {
    hide NoSmallFactor;
    if p <= 249 {
      CompleteTo249(p);
    } else if p <= 269 {
      CompleteTo269(p);
    } else if p <= 289 {
      CompleteTo289(p);
    } else {
      CompleteTo313(p);
    }
  }

  lemma CompleteRow4(p: int)
    requires 313 < p <= 409 && NoSmallFactor(p)
    ensures p in ROW4
  {
    hide NoSmallFactor;
    if p <= 333 {
      CompleteTo333(p);
    } else if p <= 353 {
      CompleteTo353(p);
    } else if p <= 373 {
      CompleteTo373(p);
    } else if p <= 393 {
      CompleteTo393(p);
    } else {
      CompleteTo409(p);
    }
  }

  lemma CompleteRow5(p: int)
    requires 409 < p <= 499 && NoSmallFactor(p)
    ensures p in ROW5
  {
    hide NoSmallFactor;
    if p <= 429 {
      CompleteTo429(p);
    } else if p <= 449 {
      CompleteTo449(p);
    } else if p <= 469 {
      CompleteTo469(p);
    } else if p <= 489 {
      CompleteTo489(p);
    } else {
      CompleteTo499(p);
    }
  }

  lemma CompleteRow6(p: int)
    requires 499 < p <= 546 && NoSmallFactor(p)
    ensures p in ROW6
  {
    hide NoSmallFactor;
    if p <= 519 {
      CompleteTo519(p);
    } else {
      CompleteTo546(p);
    }
  }

  /** The table in the source holds every prime below 547. */
  lemma TableIsComplete()
    ensures HoldsPrimesBelow(SMALL_PRIMES, 547)
  {
    forall p | Prime(p) && p < 547
      ensures p in SMALL_PRIMES
    {
      InTable(p);
    }
  }

  lemma InTable(p: int)
    requires Prime(p) && p < 547
    ensures p in SMALL_PRIMES
  {
    hide SMALL_PRIMES;
    PrimeHasNoSmallFactor(p);
    hide NoSmallFactor, Prime;
    RowsAreInTable(p);
    if p <= 70 {
      CompleteRow0(p);
    } else if p <= 149 {
      CompleteRow1(p);
    } else if p <= 229 {
      CompleteRow2(p);
    } else if p <= 313 {
      CompleteRow3(p);
    } else if p <= 409 {
      CompleteRow4(p);
    } else if p <= 499 {
      CompleteRow5(p);
    } else {
      CompleteRow6(p);
    }
  }

  lemma PrimeHasNoSmallFactor(p: int)
    requires Prime(p)
    ensures p >= 2 && NoSmallFactor(p)
  {
  }

  lemma RowsAreInTable(p: SmallPrime)
    ensures p in ROW0 || p in ROW1 || p in ROW2 || p in ROW3 || p in ROW4 || p in ROW5 || p in ROW6 ==> p in SMALL_PRIMES
  {
    var a, b, c, d, e, f, g := ROW0, ROW1, ROW2, ROW3, ROW4, ROW5, ROW6;
    assert SMALL_PRIMES == a + b + c + d + e + f + g;
    JoinedRows(p, a, b, c, d, e, f, g);
  }

  lemma JoinedRows(p: SmallPrime, a: seq<SmallPrime>, b: seq<SmallPrime>, c: seq<SmallPrime>, d: seq<SmallPrime>,
                   e: seq<SmallPrime>, f: seq<SmallPrime>, g: seq<SmallPrime>)
    ensures p in a + b + c + d + e + f + g <==> p in a || p in b || p in c || p in d || p in e || p in f || p in g
  {
  }

  /** With that table every n below 547^2 = 299209 is decided exactly, whatever the bases. */
  lemma ExactBelow299209(n: int, bases: seq<int>)
    requires n < 547 * 547
    requires n > 3 ==> forall i :: 0 <= i < |bases| ==> IsBase(bases[i], n)
    ensures Accepts(n, bases, SMALL_PRIMES) <==> Prime(n)
  {
    hide Accepts, Prime, HoldsPrimesBelow;
    TableIsComplete();
    ExactBelowTableSquare(n, bases, SMALL_PRIMES, 547);
  }

  lemma SmallPrimeDivisor(n: int, d: int, b: nat) returns (c: int)
    requires 2 <= d < n < b * b && n % d == 0
    ensures Prime(c) && c < b && n % c == 0
  {
    c := LeastDivisor(n, d);
    LeastDivisorIsPrime(n, c);
    hide Prime;
    var k := DivisorOf(n, c);
    CofactorLarge(n, c, k);
    FactorDivides(k, k, c);
    LeastIsSmall(n, c, k);
    BelowSquare(n, c, k, b);
  }

  lemma LeastIsSmall(n: int, c: int, k: int)
    requires n == c * k && 2 <= c && k > 1 && forall f :: 2 <= f < c ==> n % f != 0
    ensures k >= c
  {
    assert n == k * c;
    ModOfMultiple(k, c);
  }

  lemma CoprimeToTableIsPrime(n: int, table: seq<SmallPrime>, b: nat)
    requires HoldsPrimesBelow(table, b) && 2 <= n < b * b
    requires forall p: SmallPrime :: p in table ==> n % p != 0
    ensures Prime(n)
  {
    forall d | 2 <= d < n
      ensures n % d != 0
    {
      if n % d == 0 {
        var c := SmallPrimeDivisor(n, d, b);
        hide Prime;
      }
    }
  }

  // ----- generate_prime -----

  /** Exactly `bits` bits with the two high bits set, as the candidate mask forces. */
  predicate FullSize(p: int, bits: nat) {
    bits >= 2 && 3 * Pow(2, bits - 2) <= p < Pow(2, bits)
  }

  /** randbits(bits) | 1 << (bits - 1) | 1 << (bits - 2) | 1 */
  function Candidate(random: nat, bits: nat): (c: nat)
    requires bits >= 16 && random < Pow(2, bits)
    ensures FullSize(c, bits) && c % 2 == 1
  {
    PowPositive(2, bits - 3);
    assert Pow(2, bits - 2) == 2 * Pow(2, bits - 3);
    var low := random % Pow(2, bits - 2);
    var lowOdd := low - low % 2 + 1;
    3 * Pow(2, bits - 2) + lowOdd
  }

  /** The mask sets the two high bits and the low one, and keeps every other bit of the draw. */
  lemma CandidateBits(random: nat, bits: nat, k: nat)
    requires bits >= 16 && random < Pow(2, bits) && k < bits
    ensures BitOf(Candidate(random, bits), k) == if k == 0 || k >= bits - 2 then 1 else BitOf(random, k)
  {
    hide *;
    CandidateTop(random, bits);
    if 0 < k < bits - 2 {
      CandidateLow(random, bits, k);
    }
  }

  lemma CandidateTop(random: nat, bits: nat)
    requires bits >= 16 && random < Pow(2, bits)
    ensures var c := Candidate(random, bits); BitOf(c, bits - 2) == 1 && BitOf(c, bits - 1) == 1 && BitOf(c, 0) == 1
  {
    hide *;
    CandidateIs(random, bits);
    CandidateParts(random, Pow(2, bits - 2), Candidate(random, bits), random % Pow(2, bits - 2));
    TopBits(Candidate(random, bits), bits);
  }

  lemma CandidateLow(random: nat, bits: nat, k: nat)
    requires bits >= 16 && random < Pow(2, bits) && 0 < k < bits - 2
    ensures BitOf(Candidate(random, bits), k) == BitOf(random, k)
  {
    hide *;
    CandidateIs(random, bits);
    var b := Pow(2, bits - 2);
    var high, low := DivideBack(random, b);
    LowBits(random, high, low, bits, k);
  }

  lemma DivideBack(x: nat, b: int) returns (high: nat, low: nat)
    requires b > 0
    ensures x == high * b + low && low == x % b
  {
    high, low := x / b, x % b;
    assert x == b * high + low;
  }

  lemma TopBits(c: nat, bits: nat)
    requires bits >= 2 && Pow(2, bits - 2) > 0 && c / Pow(2, bits - 2) == 3 && c / (2 * Pow(2, bits - 2)) == 1
    ensures BitOf(c, bits - 2) == 1 && BitOf(c, bits - 1) == 1 && BitOf(c, 0) == c % 2
  {
    assert Pow(2, bits - 1) == 2 * Pow(2, bits - 2) && Pow(2, 0) == 1;
    hide Pow;
  }

  lemma CandidateIs(random: nat, bits: nat)
    requires bits >= 16 && random < Pow(2, bits)
    ensures Pow(2, bits - 2) > 0
    ensures var b := Pow(2, bits - 2);
      b % 2 == 0 && Candidate(random, bits) == 3 * b + (random % b - random % b % 2 + 1)
  {
    PowPositive(2, bits - 2);
    assert Pow(2, bits - 2) == 2 * Pow(2, bits - 3);
  }

  lemma CandidateParts(random: nat, b: int, c: nat, low: nat)
    requires b > 0 && b % 2 == 0 && low == random % b && c == 3 * b + (low - low % 2 + 1)
    ensures c / b == 3 && c / (2 * b) == 1 && c % 2 == 1 && random == random / b * b + low
  {
    var lowOdd := low - low % 2 + 1;
    assert 0 <= low < b && 0 <= lowOdd < b;
    ModUnique(c, b, 3, lowOdd);
    ModUnique(c, 2 * b, 1, b + lowOdd);
    assert random == b * (random / b) + low;
  }

  lemma LowBits(random: nat, high: nat, low: nat, bits: nat, k: nat)
    requires 0 < k < bits - 2 && random == high * Pow(2, bits - 2) + low
    ensures var c := 3 * Pow(2, bits - 2) + (low - low % 2 + 1); c >= 0 && BitOf(c, k) == BitOf(random, k)
  {
    hide Pow, BitOf;
    PowPositive(2, bits - 2);
    var lowOdd := low - low % 2 + 1;
    BitBelow(3, lowOdd, bits - 2, k);
    BitBelow(high, low, bits - 2, k);
    NextBit(lowOdd, k - 1);
    NextBit(low, k - 1);
    assert lowOdd / 2 == low / 2;
  }

  /** TooSmall is the ValueError; Exhausted is a loop that still goes on when the draws run out. */
  datatype Generated = TooSmall | Exhausted | Found(value: int)

  /** generate_prime over its random draws. */
  method GeneratePrime(bits: nat, draws: seq<(nat, seq<int>)>, table: seq<SmallPrime> := SMALL_PRIMES)
    returns (r: Generated)
    requires 2 in table && 3 in table
    requires bits >= 16 ==> forall i :: 0 <= i < |draws| ==> draws[i].0 < Pow(2, bits)
    requires bits >= 16 ==> forall i, j :: 0 <= i < |draws| && 0 <= j < |draws[i].1| ==>
      IsBase(draws[i].1[j], Candidate(draws[i].0, bits))
    ensures r == TooSmall <==> bits < 16
    ensures r.Found? ==> FullSize(r.value, bits) && r.value % 2 == 1
    ensures r.Found? ==> exists i ::
      (0 <= i < |draws| && r.value == Candidate(draws[i].0, bits) && Accepts(r.value, draws[i].1, table)
       && forall j :: 0 <= j < i ==> !Prime(Candidate(draws[j].0, bits)))
    ensures r == Exhausted ==> forall i :: 0 <= i < |draws| ==> !Prime(Candidate(draws[i].0, bits))
  {
    if bits < 16 {
      return TooSmall;
    }
    for i := 0 to |draws|
      invariant forall j :: 0 <= j < i ==> !Prime(Candidate(draws[j].0, bits))
    {
      var c := Candidate(draws[i].0, bits);
      var ok := IsProbablePrime(c, draws[i].1, table);
      if ok {
        return Found(c);
      }
    }
    return Exhausted;
  }

  /** The two forced high bits make the product of two such primes exactly 2 * bits long. */
  lemma ProductHasFullLength(p: int, q: int, bits: nat)
    requires FullSize(p, bits) && FullSize(q, bits)
    ensures p * q > 0 && BitLength(p * q) == 2 * bits
  {
    var b := Pow(2, bits - 2);
    PowPositive(2, bits - 2);
    assert Pow(2, bits - 1) == 2 * b && Pow(2, bits) == 4 * b;
    ProductRange(p, q, b);
    PowAdd(2, bits - 2, bits - 2);
    var c := b * b;
    assert Pow(2, 2 * bits - 4) == c;
    assert Pow(2, 2 * bits - 3) == 2 * c;
    assert Pow(2, 2 * bits - 2) == 4 * c;
    assert Pow(2, 2 * bits - 1) == 8 * c;
    assert Pow(2, 2 * bits) == 16 * c;
    BitLengthUnique(p * q, 2 * bits - 1);
  }

  lemma ProductRange(p: int, q: int, b: int)
    requires 0 < b && 3 * b <= p < 4 * b && 3 * b <= q < 4 * b
    ensures 8 * (b * b) <= p * q < 16 * (b * b)
  {
    MulMonotone(p, 3 * b, q);
    MulMonotone(3 * b, 3 * b, p);
    MulMonotone(p, q, 4 * b);
    MulMonotone(4 * b, p, 4 * b - 1);
    MulMonotone(b, 0, b);
  }
}
