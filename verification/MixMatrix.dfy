/** The MixColumns matrix and its inverse (authlab/crypto/aes.py). */
module MixMatrix {
  import opened GaloisField

  /** Four bytes: a column of the state, or a row of the matrix. */
  datatype Four = Four(a: bv8, b: bv8, c: bv8, d: bv8)

  function Sum(p: bv8, q: bv8, r: bv8, s: bv8): bv8 {
    Add(Add(p, q), Add(r, s))
  }

  /** One column of _mix_columns. */
  function Mix(x: Four): Four {
    Four(Sum(Product(x.a, 2), Product(x.b, 3), x.c, x.d),
         Sum(x.a, Product(x.b, 2), Product(x.c, 3), x.d),
         Sum(x.a, x.b, Product(x.c, 2), Product(x.d, 3)),
         Sum(Product(x.a, 3), x.b, x.c, Product(x.d, 2)))
  }

  /** One column of _inv_mix_columns. */
  function Unmix(x: Four): Four {
    Four(Sum(Product(x.a, 14), Product(x.b, 11), Product(x.c, 13), Product(x.d, 9)),
         Sum(Product(x.a, 9), Product(x.b, 14), Product(x.c, 11), Product(x.d, 13)),
         Sum(Product(x.a, 13), Product(x.b, 9), Product(x.c, 14), Product(x.d, 11)),
         Sum(Product(x.a, 11), Product(x.b, 13), Product(x.c, 9), Product(x.d, 14)))
  }

  // ----- Matrix algebra over GF(2^8) -----

  function Dot(x: Four, row: Four): bv8 {
    Sum(Product(x.a, row.a), Product(x.b, row.b), Product(x.c, row.c), Product(x.d, row.d))
  }

  datatype Matrix = Matrix(a: Four, b: Four, c: Four, d: Four)

  function Apply(m: Matrix, x: Four): Four {
    Four(Dot(x, m.a), Dot(x, m.b), Dot(x, m.c), Dot(x, m.d))
  }

  function Scale(row: Four, k: bv8): Four {
    Four(Product(row.a, k), Product(row.b, k), Product(row.c, k), Product(row.d, k))
  }

  function AddRows(r: Four, s: Four): Four {
    Four(Add(r.a, s.a), Add(r.b, s.b), Add(r.c, s.c), Add(r.d, s.d))
  }

  /** The row that has the effect of `row` after the matrix m. */
  function Through(row: Four, m: Matrix): Four {
    AddRows(AddRows(Scale(m.a, row.a), Scale(m.b, row.b)), AddRows(Scale(m.c, row.c), Scale(m.d, row.d)))
  }

  lemma DotScale(x: Four, row: Four, k: bv8)
    ensures Product(Dot(x, row), k) == Dot(x, Scale(row, k))
  {
    hide Product, Add;
    var p, q, r, s := Product(x.a, row.a), Product(x.b, row.b), Product(x.c, row.c), Product(x.d, row.d);
    SumLeft(Add(p, q), Add(r, s), k);
    SumLeft(p, q, k);
    SumLeft(r, s, k);
    Associates(x.a, row.a, k);
    Associates(x.b, row.b, k);
    Associates(x.c, row.c, k);
    Associates(x.d, row.d, k);
  }

  lemma DotAdd(x: Four, r: Four, s: Four)
    ensures Add(Dot(x, r), Dot(x, s)) == Dot(x, AddRows(r, s))
  {
    hide Product, Add;
    SumRight(x.a, r.a, s.a);
    SumRight(x.b, r.b, s.b);
    SumRight(x.c, r.c, s.c);
    SumRight(x.d, r.d, s.d);
    AddSwap(Product(x.a, r.a), Product(x.a, s.a), Product(x.b, r.b), Product(x.b, s.b));
    AddSwap(Product(x.c, r.c), Product(x.c, s.c), Product(x.d, r.d), Product(x.d, s.d));
    AddSwap(Add(Product(x.a, r.a), Product(x.b, r.b)), Add(Product(x.c, r.c), Product(x.d, r.d)),
            Add(Product(x.a, s.a), Product(x.b, s.b)), Add(Product(x.c, s.c), Product(x.d, s.d)));
  }

  /** A row after a matrix is one row. */
  lemma DotThrough(x: Four, m: Matrix, row: Four)
    ensures Dot(Apply(m, x), row) == Dot(x, Through(row, m))
  {
    hide Product, Add, AddRows, Scale;
    DotScale(x, m.a, row.a);
    DotScale(x, m.b, row.b);
    DotScale(x, m.c, row.c);
    DotScale(x, m.d, row.d);
    hide Dot;
    DotAdd(x, Scale(m.a, row.a), Scale(m.b, row.b));
    DotAdd(x, Scale(m.c, row.c), Scale(m.d, row.d));
    DotAdd(x, AddRows(Scale(m.a, row.a), Scale(m.b, row.b)), AddRows(Scale(m.c, row.c), Scale(m.d, row.d)));
    DotIs(Apply(m, x), row);
  }

  lemma DotIs(x: Four, row: Four)
    ensures Dot(x, row) == Add(Add(Product(x.a, row.a), Product(x.b, row.b)), Add(Product(x.c, row.c), Product(x.d, row.d)))
  {
  }

  const FORWARD := Matrix(Four(2, 3, 1, 1), Four(1, 2, 3, 1), Four(1, 1, 2, 3), Four(3, 1, 1, 2))

  const BACKWARD := Matrix(Four(14, 11, 13, 9), Four(9, 14, 11, 13), Four(13, 9, 14, 11), Four(11, 13, 9, 14))

  const UNIT := Matrix(Four(1, 0, 0, 0), Four(0, 1, 0, 0), Four(0, 0, 1, 0), Four(0, 0, 0, 1))

  lemma UnfoldAlways(a: bv8, b: bv8)
    ensures Product(a, b) == Add(Low(a, b), Product(XTime(a), b >> 1))
  {
    Unfold(a, b);
    Unfold(XTime(a), 0);
    hide Product, XTime;
  }

  lemma Nested(p: bv8, q: bv8, r: bv8, s: bv8)
    ensures Add(p, Add(q, Add(r, Add(s, 0)))) == Sum(p, q, r, s)
  {
  }

  lemma Shifts(b: bv8)
    requires b < 16
    ensures b >> 1 >> 1 == b >> 2 && b >> 2 >> 1 == b >> 3 && b >> 3 >> 1 == 0
  {
  }

  // A multiplier below 16 needs only four terms.
  lemma ShortProduct(a: bv8, b: bv8)
    requires b < 16
    ensures Product(a, b) == Sum(Low(a, b), Low(XTime(a), b >> 1), Low(XTime(XTime(a)), b >> 2),
                                 Low(XTime(XTime(XTime(a))), b >> 3))
  {
    hide *;
    var a1 := XTime(a);
    var a2 := XTime(a1);
    var a3 := XTime(a2);
    Shifts(b);
    UnfoldAlways(a, b);
    UnfoldAlways(a1, b >> 1);
    UnfoldAlways(a2, b >> 2);
    UnfoldAlways(a3, b >> 3);
    Unfold(XTime(a3), 0);
    Nested(Low(a, b), Low(a1, b >> 1), Low(a2, b >> 2), Low(a3, b >> 3));
  }

  lemma ProductsByTwo()
    ensures Product(2, 9) == 18 && Product(2, 11) == 22 && Product(2, 13) == 26 && Product(2, 14) == 28
  {
    ShortProduct(2, 9);
    ShortProduct(2, 11);
    ShortProduct(2, 13);
    ShortProduct(2, 14);
    hide Product;
  }

  lemma ProductsByThree()
    ensures Product(3, 9) == 27 && Product(3, 11) == 29 && Product(3, 13) == 23 && Product(3, 14) == 18
  {
    ShortProduct(3, 9);
    ShortProduct(3, 11);
    ShortProduct(3, 13);
    ShortProduct(3, 14);
    hide Product;
  }

  lemma ProductTable()
    ensures Product(1, 9) == 9 && Product(1, 11) == 11 && Product(1, 13) == 13 && Product(1, 14) == 14
    ensures Product(2, 9) == 18 && Product(2, 11) == 22 && Product(2, 13) == 26 && Product(2, 14) == 28
    ensures Product(3, 9) == 27 && Product(3, 11) == 29 && Product(3, 13) == 23 && Product(3, 14) == 18
    ensures Product(9, 1) == 9 && Product(11, 1) == 11 && Product(13, 1) == 13 && Product(14, 1) == 14
    ensures Product(9, 2) == 18 && Product(11, 2) == 22 && Product(13, 2) == 26 && Product(14, 2) == 28
    ensures Product(9, 3) == 27 && Product(11, 3) == 29 && Product(13, 3) == 23 && Product(14, 3) == 18
  {
    hide *;
    OneLeft(9);
    OneLeft(11);
    OneLeft(13);
    OneLeft(14);
    ProductsByTwo();
    ProductsByThree();
    forall a: bv8, b: bv8
      ensures Product(a, b) == Product(b, a)
    {
      Commutes(a, b);
    }
  }

  /** The two matrices are inverse to each other, both ways. */
  lemma MatricesAreInverse()
    ensures Through(BACKWARD.a, FORWARD) == UNIT.a && Through(BACKWARD.b, FORWARD) == UNIT.b
    ensures Through(BACKWARD.c, FORWARD) == UNIT.c && Through(BACKWARD.d, FORWARD) == UNIT.d
    ensures Through(FORWARD.a, BACKWARD) == UNIT.a && Through(FORWARD.b, BACKWARD) == UNIT.b
    ensures Through(FORWARD.c, BACKWARD) == UNIT.c && Through(FORWARD.d, BACKWARD) == UNIT.d
  {
    hide Product;
    ProductTable();
  }

  lemma ApplyUnit(x: Four)
    ensures Dot(x, UNIT.a) == x.a && Dot(x, UNIT.b) == x.b && Dot(x, UNIT.c) == x.c && Dot(x, UNIT.d) == x.d
  {
    Ones(x);
    hide Product;
  }

  lemma Ones(x: Four)
    ensures Product(x.a, 1) == x.a && Product(x.b, 1) == x.b && Product(x.c, 1) == x.c && Product(x.d, 1) == x.d
    ensures Product(x.a, 0) == Product(x.b, 0) == Product(x.c, 0) == Product(x.d, 0) == 0
  {
    Commutes(x.a, 1);
    Commutes(x.b, 1);
    Commutes(x.c, 1);
    Commutes(x.d, 1);
    OneLeft(x.a);
    OneLeft(x.b);
    OneLeft(x.c);
    OneLeft(x.d);
  }

  lemma MixIsMatrix(x: Four)
    ensures Mix(x) == Apply(FORWARD, x) && Unmix(x) == Apply(BACKWARD, x)
  {
    Ones(x);
    hide Product, Add;
  }

  /** _inv_mix_columns undoes _mix_columns and the other way round, column by column. */
  lemma MixUndone(x: Four)
    ensures Unmix(Mix(x)) == x && Mix(Unmix(x)) == x
  {
    MixIsMatrix(x);
    MixIsMatrix(Mix(x));
    MixIsMatrix(Unmix(x));
    MatricesAreInverse();
    ApplyUnit(x);
    hide Mix, Unmix, Dot, Through;
    DotThrough(x, FORWARD, BACKWARD.a);
    DotThrough(x, FORWARD, BACKWARD.b);
    DotThrough(x, FORWARD, BACKWARD.c);
    DotThrough(x, FORWARD, BACKWARD.d);
    DotThrough(x, BACKWARD, FORWARD.a);
    DotThrough(x, BACKWARD, FORWARD.b);
    DotThrough(x, BACKWARD, FORWARD.c);
    DotThrough(x, BACKWARD, FORWARD.d);
  }
}
