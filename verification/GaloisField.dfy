/** Arithmetic in GF(2^8) modulo x^8 + x^4 + x^3 + x + 1 (authlab/crypto/aes.py). */
module GaloisField {

  /** Addition is exclusive or. */
  function Add(a: bv8, b: bv8): bv8 { a ^ b }

  /** _xtime: multiplication by 2, that is, by x. */
  function XTime(a: bv8): bv8 {
    (a << 1) ^ (if a & 0x80 != 0 then 0x1b else 0)
  }

  /** a times the low bit of b. */
  function Low(a: bv8, b: bv8): bv8 {
    if b & 1 != 0 then a else 0
  }

  /** The product: a times each power of x in b, summed. */
  function Product(a: bv8, b: bv8): bv8
    decreases b
  {
    if b == 0 then 0 else Add(Low(a, b), Product(XTime(a), b >> 1))
  }

  /** _gmul. */
  method Multiply(x: bv8, y: bv8) returns (result: bv8)
    ensures result == Product(x, y)
  {
    var a, b := x, y;
    result := 0;
    AddZero(Product(x, y));
    while b != 0
      invariant Add(result, Product(a, b)) == Product(x, y)
      decreases b
    {
      hide XTime, Low, Add;
      AddAssoc(result, Low(a, b), Product(XTime(a), b >> 1));
      result := Add(result, Low(a, b));
      a := XTime(a);
      b := b >> 1;
    }
    AddZero(result);
  }

  // ----- Addition and the three building blocks -----

  lemma AddAssoc(p: bv8, q: bv8, r: bv8)
    ensures Add(Add(p, q), r) == Add(p, Add(q, r))
  {
  }

  lemma AddSwap(p: bv8, q: bv8, r: bv8, s: bv8)
    ensures Add(Add(p, q), Add(r, s)) == Add(Add(p, r), Add(q, s))
  {
    hide Add;
    AddAssoc(p, q, Add(r, s));
    AddAssoc(q, r, s);
    AddCommutes(q, r);
    AddAssoc(r, q, s);
    AddAssoc(p, r, Add(q, s));
  }

  lemma AddCommutes(p: bv8, q: bv8)
    ensures Add(p, q) == Add(q, p)
  {
  }

  lemma AddZero(p: bv8)
    ensures Add(0, p) == p == Add(p, 0) && Add(p, p) == 0
  {
  }

  lemma XTimeSum(a: bv8, b: bv8)
    ensures XTime(Add(a, b)) == Add(XTime(a), XTime(b))
  {
    XTimeParts(a);
    XTimeParts(b);
    XTimeParts(Add(a, b));
    DoubleSum(a, b);
    CarrySum(a, b);
    hide XTime, Double, Carry, Add;
    AddSwap(Double(a), Double(b), Carry(a), Carry(b));
  }

  function Double(a: bv8): bv8 { a << 1 }

  function Carry(a: bv8): bv8 { if a & 0x80 != 0 then 0x1b else 0 }

  lemma XTimeParts(a: bv8)
    ensures XTime(a) == Add(Double(a), Carry(a))
  {
  }

  lemma DoubleSum(a: bv8, b: bv8)
    ensures Double(Add(a, b)) == Add(Double(a), Double(b))
  {
  }

  lemma CarrySum(a: bv8, b: bv8)
    ensures Carry(Add(a, b)) == Add(Carry(a), Carry(b))
  {
  }

  lemma LowSum(a: bv8, c: bv8, b: bv8)
    ensures Low(Add(a, c), b) == Add(Low(a, b), Low(c, b))
  {
  }

  lemma LowXTime(a: bv8, b: bv8)
    ensures Low(XTime(a), b) == XTime(Low(a, b))
  {
  }

  // b is its low bit plus x times the rest.
  lemma LowBit(b: bv8)
    ensures b == Add(Low(1, b), XTime(b >> 1))
  {
  }

  // ----- Product is the multiplication of a commutative ring in which 2 * a is _xtime(a) -----

  lemma Unfold(a: bv8, b: bv8)
    ensures Product(a, b) == if b == 0 then 0 else Add(Low(a, b), Product(XTime(a), b >> 1))
  {
  }

  lemma {:induction false} SumLeft(a: bv8, c: bv8, b: bv8)
    ensures Product(Add(a, c), b) == Add(Product(a, b), Product(c, b))
    decreases b
  {
    hide *;
    Unfold(a, b);
    Unfold(c, b);
    Unfold(Add(a, c), b);
    if b == 0 {
      AddZero(0);
    } else {
      XTimeSum(a, c);
      SumLeft(XTime(a), XTime(c), b >> 1);
      LowSum(a, c, b);
      AddSwap(Low(a, b), Low(c, b), Product(XTime(a), b >> 1), Product(XTime(c), b >> 1));
    }
  }

  lemma {:induction false} XTimeMoves(a: bv8, b: bv8)
    ensures Product(XTime(a), b) == XTime(Product(a, b))
    decreases b
  {
    hide Product, Low, Add;
    Unfold(a, b);
    Unfold(XTime(a), b);
    if b == 0 {
    } else {
      hide XTime;
      XTimeMoves(XTime(a), b >> 1);
      XTimeSum(Low(a, b), Product(XTime(a), b >> 1));
      LowXTime(a, b);
    }
  }

  lemma {:induction false} ProductZero(b: bv8)
    ensures Product(0, b) == 0
    decreases b
  {
    if b == 0 {
    } else {
      ProductZero(b >> 1);
    }
  }

  lemma {:induction false} OneLeft(b: bv8)
    ensures Product(1, b) == b
    decreases b
  {
    hide Product, XTime, Low, Add;
    Unfold(1, b);
    if b == 0 {
    } else {
      OneLeft(b >> 1);
      XTimeMoves(1, b >> 1);
      LowBit(b);
    }
  }

  lemma LowLeft(a: bv8, b: bv8)
    ensures Product(Low(1, b), a) == Low(a, b)
  {
    OneLeft(a);
    ProductZero(a);
  }

  lemma {:induction false} Commutes(a: bv8, b: bv8)
    ensures Product(a, b) == Product(b, a)
    decreases b
  {
    hide Product, XTime, Low, Add;
    Unfold(a, b);
    if b == 0 {
      ProductZero(a);
    } else {
      Commutes(a, b >> 1);
      XTimeMoves(a, b >> 1);
      XTimeMoves(b >> 1, a);
      LowBit(b);
      SumLeft(Low(1, b), XTime(b >> 1), a);
      LowLeft(a, b);
    }
  }

  lemma SumRight(a: bv8, b: bv8, c: bv8)
    ensures Product(a, Add(b, c)) == Add(Product(a, b), Product(a, c))
  {
    hide *;
    Commutes(a, Add(b, c));
    Commutes(a, b);
    Commutes(a, c);
    SumLeft(b, c, a);
  }

  lemma XTimeRight(a: bv8, b: bv8)
    ensures Product(a, XTime(b)) == XTime(Product(a, b))
  {
    hide *;
    Commutes(a, XTime(b));
    XTimeMoves(b, a);
    Commutes(a, b);
  }

  lemma LowRight(a: bv8, b: bv8, c: bv8)
    ensures Product(a, Low(b, c)) == Low(Product(a, b), c)
  {
    Unfold(a, 0);
    hide Product;
  }

  lemma {:induction false} Associates(a: bv8, b: bv8, c: bv8)
    ensures Product(Product(a, b), c) == Product(a, Product(b, c))
    decreases c
  {
    hide *;
    var p := Product(a, b);
    Unfold(p, c);
    Unfold(b, c);
    if c == 0 {
      Unfold(a, 0);
    } else {
      Associates(a, XTime(b), c >> 1);
      XTimeRight(a, b);
      SumRight(a, Low(b, c), Product(XTime(b), c >> 1));
      LowRight(a, b, c);
    }
  }
}
