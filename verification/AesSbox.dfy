/** The AES S-box as FIPS 197 defines it: the inverse in the field, then an affine map (authlab/crypto/aes.py). */
module AesSbox {
  import opened GaloisField
  import opened AesTables

  /** 0 stands for its own inverse. */
  predicate IsFieldInverse(b: bv8, c: bv8) {
    if b == 0 then c == 0 else Product(b, c) == 1
  }

  function RotateLeft(x: bv8, n: nat): bv8
    requires n < 8
  {
    (x << n) | (x >> (8 - n))
  }

  /** The affine map of section 5.1.1 of FIPS 197: each bit is the sum of five bits, and 63 is added. */
  function Affine(x: bv8): bv8 {
    x ^ RotateLeft(x, 1) ^ RotateLeft(x, 2) ^ RotateLeft(x, 3) ^ RotateLeft(x, 4) ^ 0x63
  }

  function Unaffine(y: bv8): bv8 {
    RotateLeft(y, 1) ^ RotateLeft(y, 3) ^ RotateLeft(y, 6) ^ 0x05
  }

  lemma AffineUndone(y: bv8)
    ensures Affine(Unaffine(y)) == y
  {
  }

  // ----- Products of table entries -----

  function X2(a: bv8): bv8 { XTime(XTime(a)) }

  function X4(a: bv8): bv8 { X2(X2(a)) }

  /** The terms of two, of four and of all eight bits of b. */
  function TwoTerms(a: bv8, b: bv8): bv8 { Add(Low(a, b), Low(XTime(a), b >> 1)) }

  function FourTerms(a: bv8, b: bv8): bv8 { Add(TwoTerms(a, b), TwoTerms(X2(a), b >> 2)) }

  function Flat(a: bv8, b: bv8): bv8 { Add(FourTerms(a, b), FourTerms(X4(a), b >> 4)) }

  lemma OneStep(a: bv8, b: bv8)
    ensures Product(a, b) == Add(Low(a, b), Product(XTime(a), b >> 1))
  {
    if b == 0 {
      assert Product(XTime(a), 0) == 0;
    }
  }

  lemma TwoSteps(a: bv8, b: bv8)
    ensures Product(a, b) == Add(TwoTerms(a, b), Product(X2(a), b >> 2))
  {
    ShiftedOut(b);
    hide Product, XTime, Low, Add;
    OneStep(a, b);
    OneStep(XTime(a), b >> 1);
    AddAssoc(Low(a, b), Low(XTime(a), b >> 1), Product(X2(a), b >> 2));
  }

  lemma FourSteps(a: bv8, b: bv8)
    ensures Product(a, b) == Add(FourTerms(a, b), Product(X4(a), b >> 4))
  {
    ShiftedOut(b);
    hide Product, X2, TwoTerms, Add;
    TwoSteps(a, b);
    TwoSteps(X2(a), b >> 2);
    AddAssoc(TwoTerms(a, b), TwoTerms(X2(a), b >> 2), Product(X4(a), b >> 4));
  }

  lemma FlatIsProduct(a: bv8, b: bv8)
    ensures Product(a, b) == Flat(a, b)
  {
    ShiftedOut(b);
    ProductWithZero(X4(X4(a)));
    AddZero(FourTerms(X4(a), b >> 4));
    hide Product, X4, FourTerms, Add;
    FourSteps(a, b);
    FourSteps(X4(a), b >> 4);
  }

  lemma ShiftedOut(b: bv8)
    ensures (b >> 1) >> 1 == b >> 2 && (b >> 2) >> 2 == b >> 4 && (b >> 4) >> 4 == 0
  {
  }

  lemma ProductWithZero(a: bv8)
    ensures Product(a, 0) == 0
  {
  }

  lemma InverseRow0(b: bv8)
    requires b >> 4 == 0
    ensures Flat(b, Unaffine(Sbox(b))) == if b == 0 then 0 else 1
  {
  }

  lemma InverseRow1(b: bv8)
    requires b >> 4 == 1
    ensures Flat(b, Unaffine(Sbox(b))) == if b == 0 then 0 else 1
  {
  }

  lemma InverseRow2(b: bv8)
    requires b >> 4 == 2
    ensures Flat(b, Unaffine(Sbox(b))) == if b == 0 then 0 else 1
  {
  }

  lemma InverseRow3(b: bv8)
    requires b >> 4 == 3
    ensures Flat(b, Unaffine(Sbox(b))) == if b == 0 then 0 else 1
  {
  }

  lemma InverseRow4(b: bv8)
    requires b >> 4 == 4
    ensures Flat(b, Unaffine(Sbox(b))) == if b == 0 then 0 else 1
  {
  }

  lemma InverseRow5(b: bv8)
    requires b >> 4 == 5
    ensures Flat(b, Unaffine(Sbox(b))) == if b == 0 then 0 else 1
  {
  }

  lemma InverseRow6(b: bv8)
    requires b >> 4 == 6
    ensures Flat(b, Unaffine(Sbox(b))) == if b == 0 then 0 else 1
  {
  }

  lemma InverseRow7(b: bv8)
    requires b >> 4 == 7
    ensures Flat(b, Unaffine(Sbox(b))) == if b == 0 then 0 else 1
  {
  }

  lemma InverseRow8(b: bv8)
    requires b >> 4 == 8
    ensures Flat(b, Unaffine(Sbox(b))) == if b == 0 then 0 else 1
  {
  }

  lemma InverseRow9(b: bv8)
    requires b >> 4 == 9
    ensures Flat(b, Unaffine(Sbox(b))) == if b == 0 then 0 else 1
  {
  }

  lemma InverseRowa(b: bv8)
    requires b >> 4 == 10
    ensures Flat(b, Unaffine(Sbox(b))) == if b == 0 then 0 else 1
  {
  }

  lemma InverseRowb(b: bv8)
    requires b >> 4 == 11
    ensures Flat(b, Unaffine(Sbox(b))) == if b == 0 then 0 else 1
  {
  }

  lemma InverseRowc(b: bv8)
    requires b >> 4 == 12
    ensures Flat(b, Unaffine(Sbox(b))) == if b == 0 then 0 else 1
  {
  }

  lemma InverseRowd(b: bv8)
    requires b >> 4 == 13
    ensures Flat(b, Unaffine(Sbox(b))) == if b == 0 then 0 else 1
  {
  }

  lemma InverseRowe(b: bv8)
    requires b >> 4 == 14
    ensures Flat(b, Unaffine(Sbox(b))) == if b == 0 then 0 else 1
  {
  }

  lemma InverseRowf(b: bv8)
    requires b >> 4 == 15
    ensures Flat(b, Unaffine(Sbox(b))) == if b == 0 then 0 else 1
  {
  }

  lemma InverseRows(b: bv8)
    ensures Flat(b, Unaffine(Sbox(b))) == if b == 0 then 0 else 1
  {
    hide Flat, Unaffine, Sbox;
    match b >> 4
    case 0 => InverseRow0(b);
    case 1 => InverseRow1(b);
    case 2 => InverseRow2(b);
    case 3 => InverseRow3(b);
    case 4 => InverseRow4(b);
    case 5 => InverseRow5(b);
    case 6 => InverseRow6(b);
    case 7 => InverseRow7(b);
    case 8 => InverseRow8(b);
    case 9 => InverseRow9(b);
    case 10 => InverseRowa(b);
    case 11 => InverseRowb(b);
    case 12 => InverseRowc(b);
    case 13 => InverseRowd(b);
    case 14 => InverseRowe(b);
    case _ => InverseRowf(b);
  }

  /** What the table holds is the image of an inverse. */
  lemma TableEntry(b: bv8)
    ensures IsFieldInverse(b, Unaffine(Sbox(b))) && Sbox(b) == Affine(Unaffine(Sbox(b)))
  {
    hide Flat, Unaffine, Affine, Sbox, Product;
    InverseRows(b);
    FlatIsProduct(b, Unaffine(Sbox(b)));
    AffineUndone(Sbox(b));
    if b == 0 {
      ZeroEntry();
    }
  }

  lemma ZeroEntry()
    ensures Unaffine(Sbox(0)) == 0
  {
  }

  /** Inverses in the field are unique. */
  lemma FieldInverseIsUnique(b: bv8, c: bv8, d: bv8)
    requires IsFieldInverse(b, c) && IsFieldInverse(b, d)
    ensures c == d
  {
    if b != 0 {
      hide Product;
      Associates(c, b, d);
      Commutes(c, b);
      OneLeft(d);
      Commutes(c, 1);
      OneLeft(c);
    }
  }

  /** SubBytes of section 5.1.1 of FIPS 197. */
  ghost function SubByte(b: bv8): bv8 {
    TableEntry(b);
    var c :| IsFieldInverse(b, c);
    Affine(c)
  }

  /** The table is that function: each entry is the affine image of the inverse. */
  lemma SboxIsSubByte(b: bv8, c: bv8)
    requires IsFieldInverse(b, c)
    ensures Sbox(b) == Affine(c) == SubByte(b)
  {
    hide Sbox, Affine, Unaffine, Product;
    TableEntry(b);
    FieldInverseIsUnique(b, c, Unaffine(Sbox(b)));
    var d :| IsFieldInverse(b, d) && SubByte(b) == Affine(d);
    FieldInverseIsUnique(b, c, d);
  }

  lemma SboxMeans(b: bv8)
    ensures Sbox(b) == SubByte(b)
  {
    hide *;
    TableEntry(b);
    SboxIsSubByte(b, Unaffine(Sbox(b)));
  }
}
