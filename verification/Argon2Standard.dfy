/** The compression function as sections 3.5 and 3.6 of RFC 9106 describe it (authlab/passwords/argon2.py). */
module Argon2Standard {
  import opened NumberTheory
  import opened Sweeps
  import opened Argon2Mix

  // ----- Words -----

  /** The exclusive or, bit by bit. */
  lemma {:induction false} XorBits(a: nat, b: nat, k: nat)
    ensures BitOf(Xor(a, b), k) == (BitOf(a, k) + BitOf(b, k)) % 2
  {
    if k == 0 {
      assert Pow(2, 0) == 1;
    } else {
      NextBit(a, k - 1);
      NextBit(b, k - 1);
      NextBit(Xor(a, b), k - 1);
      XorBits(a / 2, b / 2, k - 1);
      assert Xor(a, b) / 2 == Xor(a / 2, b / 2);
    }
  }

  /** v rotated by n bits to the right. */
  ghost function Ror(v: Word, n: nat): int
    requires n <= 64
  {
    PowPositive(2, n);
    v / Pow(2, n) + v % Pow(2, n) * Pow(2, 64 - n)
  }

  lemma PowersOfTwo()
    ensures Pow(2, 1) == 2 && Pow(2, 16) == 0x1_0000 && Pow(2, 24) == 0x100_0000 && Pow(2, 32) == TWO32
    ensures Pow(2, 40) == 0x100_0000_0000 && Pow(2, 48) == 0x1_0000_0000_0000 && Pow(2, 63) == 0x8000_0000_0000_0000
  {
    TwoTo64();
    assert Pow(2, 4) == 16;
    PowAdd(2, 4, 4);
    PowAdd(2, 8, 8);
    PowAdd(2, 16, 8);
    PowAdd(2, 32, 8);
    PowAdd(2, 32, 16);
    assert Pow(2, 64) == 2 * Pow(2, 63);
  }

  lemma RotationsMean(v: Word)
    ensures Rot32(v) == Ror(v, 32) && Rot24(v) == Ror(v, 24) && Rot16(v) == Ror(v, 16) && Rot63(v) == Ror(v, 63)
  {
    PowersOfTwo();
    hide Pow;
  }

  // ----- GB -----

  /** Half of GB, with its two rotation counts. */
  ghost predicate IsHalf(q: Quad, h: Quad, x: nat, y: nat)
    requires x <= 64 && y <= 64
  {
    PowPositive(2, 32);
    PowPositive(2, 64);
    && h.a == (q.a + q.b + 2 * (q.a % Pow(2, 32)) * (q.b % Pow(2, 32))) % Pow(2, 64)
    && h.d == Ror(XorWord(q.d, h.a), x)
    && h.c == (q.c + h.d + 2 * (q.c % Pow(2, 32)) * (h.d % Pow(2, 32))) % Pow(2, 64)
    && h.b == Ror(XorWord(q.b, h.c), y)
  }

  ghost predicate IsGB(q: Quad, r: Quad) {
    exists h :: IsHalf(q, h, 32, 24) && IsHalf(h, r, 16, 63)
  }

  lemma HalvesMean(q: Quad)
    ensures IsHalf(q, HalfMix(q), 32, 24) && IsHalf(q, HalfMix2(q), 16, 63)
  {
    TwoTo64();
    var h, k := HalfMix(q), HalfMix2(q);
    RotationsMean(XorWord(q.d, h.a));
    RotationsMean(XorWord(q.b, h.c));
    RotationsMean(XorWord(q.d, k.a));
    RotationsMean(XorWord(q.b, k.c));
    hide Ror, Pow, XorWord, Rot32, Rot24, Rot16, Rot63;
  }

  lemma MixMeans(q: Quad)
    ensures IsGB(q, MixQuad(q))
  {
    hide HalfMix, HalfMix2, IsHalf;
    HalvesMean(q);
    HalvesMean(HalfMix(q));
  }

  // ----- P -----

  /** Column j of the four-by-four matrix of words. */
  function MatrixColumn(j: nat): Spots
    requires j < 4
  {
    Positions(j, 4 + j, 8 + j, 12 + j)
  }

  function MatrixDiagonal(j: nat): Spots
    requires j < 4
  {
    Positions(j, 4 + (j + 1) % 4, 8 + (j + 2) % 4, 12 + (j + 3) % 4)
  }

  ghost predicate ColumnsMixed(v: Row, m: Row) {
    forall j :: 0 <= j < 4 ==> IsGB(Gather(v, MatrixColumn(j)), Gather(m, MatrixColumn(j)))
  }

  ghost predicate DiagonalsMixed(m: Row, r: Row) {
    forall j :: 0 <= j < 4 ==> IsGB(Gather(m, MatrixDiagonal(j)), Gather(r, MatrixDiagonal(j)))
  }

  /** P: GB on each column, then on each diagonal. */
  ghost predicate IsP(v: Row, r: Row) {
    exists m: Row :: ColumnsMixed(v, m) && DiagonalsMixed(m, r)
  }

  lemma SpotsMean(j: nat)
    requires j < 4
    ensures Spot(j) == MatrixColumn(j) && Spot(4 + j) == MatrixDiagonal(j)
  {
  }

  predicate Apart(s: Spots, t: Spots) {
    {s.a, s.b, s.c, s.d} !! {t.a, t.b, t.c, t.d}
  }

  lemma SpotsApart(first: nat, j: nat, k: nat)
    requires (first == 0 || first == 4) && j < 4 && k < 4 && j != k
    ensures Apart(Spot(first + j), Spot(first + k))
  {
    SpotsMean(j);
    SpotsMean(k);
  }

  lemma MixElsewhere(v: Row, s: Spots, t: Spots)
    ensures Gather(MixAt(v, s), s) == MixQuad(Gather(v, s))
    ensures Apart(s, t) ==> Gather(MixAt(v, s), t) == Gather(v, t)
  {
    hide MixQuad;
  }

  /** The row after the first i of the four mixings from `first` on. */
  ghost function MixRun(v: Row, first: nat, i: nat): Row
    requires first + i <= 8
  {
    if i == 0 then v else MixAt(MixRun(v, first, i - 1), Spot(first + i - 1))
  }

  lemma {:induction false} MixRunMeans(v: Row, first: nat, i: nat, j: nat)
    requires (first == 0 || first == 4) && i <= 4 && j < 4
    ensures Gather(MixRun(v, first, i), Spot(first + j))
      == if j < i then MixQuad(Gather(v, Spot(first + j))) else Gather(v, Spot(first + j))
  {
    hide MixAt, Gather, MixQuad, Spot, Apart;
    if i > 0 {
      MixRunMeans(v, first, i - 1, j);
      if j != i - 1 {
        SpotsApart(first, i - 1, j);
      }
      MixElsewhere(MixRun(v, first, i - 1), Spot(first + i - 1), Spot(first + j));
    }
  }

  lemma {:induction false} RunOfPermute(v: Row, first: nat, i: nat)
    requires first + i <= 8
    ensures PermuteFrom(MixRun(v, first, i), first + i) == PermuteFrom(v, first)
  {
    hide PermuteFrom, MixAt, Spot;
    if i > 0 {
      RunOfPermute(v, first, i - 1);
      PermuteStep(MixRun(v, first, i - 1), first + i - 1);
    }
  }

  lemma PermuteStart(v: Row)
    ensures PermuteFrom(v, 0) == Permute(v)
  {
    assert SCHEDULE[0..] == SCHEDULE;
  }

  lemma PermuteIsRun(v: Row)
    ensures Permute(v) == MixRun(MixRun(v, 0, 4), 4, 4)
  {
    hide *;
    PermuteStart(v);
    RunOfPermute(v, 0, 4);
    RunOfPermute(MixRun(v, 0, 4), 4, 4);
    PermuteStep(MixRun(MixRun(v, 0, 4), 4, 4), 8);
  }

  /** _permute is P. */
  lemma PermuteMeans(v: Row)
    ensures IsP(v, Permute(v))
  {
    hide MixRun, IsGB, MixQuad, Gather, Permute, Spot, MatrixColumn, MatrixDiagonal;
    var m := MixRun(v, 0, 4);
    PermuteIsRun(v);
    forall j | 0 <= j < 4
      ensures IsGB(Gather(v, MatrixColumn(j)), Gather(m, MatrixColumn(j)))
      ensures IsGB(Gather(m, MatrixDiagonal(j)), Gather(Permute(v), MatrixDiagonal(j)))
    {
      SpotsMean(j);
      MixRunMeans(v, 0, 4, j);
      MixRunMeans(m, 4, 4, j);
      MixMeans(Gather(v, MatrixColumn(j)));
      MixMeans(Gather(m, MatrixDiagonal(j)));
    }
    assert ColumnsMixed(v, m) && DiagonalsMixed(m, Permute(v));
  }

  // ----- G -----

  /** Sixteen words in a row. */
  function RowOf(b: Block, i: nat): Row
    requires i < 8
  {
    b[16 * i..16 * i + 16]
  }

  /** Two words of each row. */
  function ColumnOf(b: Block, j: nat): Row
    requires j < 8
  {
    [b[2 * j], b[2 * j + 1], b[2 * j + 16], b[2 * j + 17], b[2 * j + 32], b[2 * j + 33], b[2 * j + 48], b[2 * j + 49],
     b[2 * j + 64], b[2 * j + 65], b[2 * j + 80], b[2 * j + 81], b[2 * j + 96], b[2 * j + 97], b[2 * j + 112], b[2 * j + 113]]
  }

  ghost predicate RowsPermuted(r: Block, q: Block) {
    forall i :: 0 <= i < 8 ==> IsP(RowOf(r, i), RowOf(q, i))
  }

  ghost predicate ColumnsPermuted(q: Block, w: Block) {
    forall j :: 0 <= j < 8 ==> IsP(ColumnOf(q, j), ColumnOf(w, j))
  }

  /** P on the rows of r gives q, P on the columns of q gives w. */
  ghost predicate IsRounds(r: Block, w: Block) {
    exists q: Block :: RowsPermuted(r, q) && ColumnsPermuted(q, w)
  }

  ghost predicate IsSum(z: Block, a: Block, b: Block) {
    forall k :: 0 <= k < 128 ==> z[k] == XorWord(a[k], b[k])
  }

  /** G: the rounds of x xor y, and x xor y added again. */
  ghost predicate IsG(x: Block, y: Block, z: Block) {
    exists r: Block, w: Block :: IsSum(r, x, y) && IsRounds(r, w) && IsSum(z, w, r)
  }

  lemma RowMeans(b: Block, i: nat)
    requires i < 8
    ensures PickLine(b, RowLine(i)) == RowOf(b, i)
  {
  }

  lemma ColumnAt(i: nat, k: nat)
    requires i < 8 && k < 8
    ensures ColumnLine(i)[2 * k] == 2 * i + 16 * k && ColumnLine(i)[2 * k + 1] == 2 * i + 1 + 16 * k
  {
  }

  lemma ColumnMeans(b: Block, i: nat)
    requires i < 8
    ensures PickLine(b, ColumnLine(i)) == ColumnOf(b, i)
  {
    hide ColumnLine;
    forall k: nat | k < 16
      ensures PickLine(b, ColumnLine(i))[k] == ColumnOf(b, i)[k]
    {
      ColumnAt(i, k / 2);
    }
  }

  lemma LinesMean(b: Block, i: nat)
    requires i < 8
    ensures PickLine(b, LineAt(i)) == RowOf(b, i) && PickLine(b, LineAt(8 + i)) == ColumnOf(b, i)
  {
    hide PickLine, RowLine, ColumnLine, RowOf, ColumnOf;
    RowMeans(b, i);
    ColumnMeans(b, i);
  }

  predicate LinesApart(a: Line, b: Line) {
    forall k, l :: 0 <= k < 16 && 0 <= l < 16 ==> a[k] != b[l]
  }

  lemma RowsApart(i: nat, j: nat)
    requires i < 8 && j < 8 && i != j
    ensures LinesApart(RowLine(i), RowLine(j))
  {
  }

  lemma ColumnsApart(i: nat, j: nat)
    requires i < 8 && j < 8 && i != j
    ensures LinesApart(ColumnLine(i), ColumnLine(j))
  {
    var a, b := ColumnLine(i), ColumnLine(j);
    forall k: nat, l: nat | k < 16 && l < 16
      ensures a[k] != b[l]
    {
      assert a[k] % 16 == 2 * i + k % 2 && b[l] % 16 == 2 * j + l % 2;
    }
  }

  lemma SetApart(first: nat, i: nat, j: nat)
    requires (first == 0 || first == 8) && i < 8 && j < 8 && i != j
    ensures LinesApart(LineAt(first + i), LineAt(first + j))
  {
    if first == 0 {
      RowsApart(i, j);
    } else {
      ColumnsApart(i, j);
    }
  }

  lemma PermuteElsewhere(q: Block, a: Line, b: Line)
    ensures PickLine(PermuteLine(q, a), a) == Permute(PickLine(q, a))
    ensures LinesApart(a, b) ==> PickLine(PermuteLine(q, a), b) == PickLine(q, b)
  {
    hide Permute;
    PickPlace(q, a, Permute(PickLine(q, a)));
  }

  ghost function LineRun(q: Block, first: nat, i: nat): Block
    requires first + i <= 16
  {
    if i == 0 then q else PermuteLine(LineRun(q, first, i - 1), LineAt(first + i - 1))
  }

  lemma {:induction false} LineRunMeans(q: Block, first: nat, i: nat, j: nat)
    requires (first == 0 || first == 8) && i <= 8 && j < 8
    ensures PickLine(LineRun(q, first, i), LineAt(first + j))
      == if j < i then Permute(PickLine(q, LineAt(first + j))) else PickLine(q, LineAt(first + j))
  {
    hide PermuteLine, PickLine, Permute, LinesApart;
    if i > 0 {
      LineRunMeans(q, first, i - 1, j);
      if j != i - 1 {
        SetApart(first, i - 1, j);
      }
      PermuteElsewhere(LineRun(q, first, i - 1), LineAt(first + i - 1), LineAt(first + j));
    }
  }

  lemma {:induction false} RunOfRounds(q: Block, first: nat, i: nat)
    requires first + i <= 16
    ensures RoundsFrom(LineRun(q, first, i), first + i) == RoundsFrom(q, first)
  {
    hide RoundsFrom, PermuteLine;
    if i > 0 {
      RunOfRounds(q, first, i - 1);
      RoundsStep(LineRun(q, first, i - 1), first + i - 1);
    }
  }

  lemma RoundsStart(q: Block)
    ensures RoundsFrom(q, 0) == Rounds(q)
  {
    assert Lines()[0..] == Lines();
    hide Lines;
  }

  lemma RoundsIsRun(q: Block)
    ensures Rounds(q) == LineRun(LineRun(q, 0, 8), 8, 8)
  {
    hide *;
    RoundsStart(q);
    RunOfRounds(q, 0, 8);
    RunOfRounds(LineRun(q, 0, 8), 8, 8);
    RoundsStep(LineRun(LineRun(q, 0, 8), 8, 8), 16);
  }

  lemma RoundsMean(r: Block)
    ensures IsRounds(r, Rounds(r))
  {
    hide LineRun, IsP, Permute, PickLine, Rounds, RowOf, ColumnOf, LineAt;
    var q := LineRun(r, 0, 8);
    RoundsIsRun(r);
    forall i | 0 <= i < 8
      ensures IsP(RowOf(r, i), RowOf(q, i)) && IsP(ColumnOf(q, i), ColumnOf(Rounds(r), i))
    {
      LinesMean(r, i);
      LinesMean(q, i);
      LinesMean(Rounds(r), i);
      LineRunMeans(r, 0, 8, i);
      LineRunMeans(q, 8, 8, i);
      PermuteMeans(RowOf(r, i));
      PermuteMeans(ColumnOf(q, i));
    }
    assert RowsPermuted(r, q) && ColumnsPermuted(q, Rounds(r));
  }

  /** _compress is G, exclusive-ored into the old block when asked. */
  lemma CompressMeans(x: Block, y: Block, folded: Block)
    ensures IsG(x, y, Compress(x, y, folded, false))
    ensures IsSum(Compress(x, y, folded, true), folded, Compress(x, y, folded, false))
  {
    hide Rounds, IsRounds, XorWord;
    var r := XorBlocks(x, y);
    RoundsMean(r);
    assert IsSum(r, x, y) && IsSum(Compress(x, y, folded, false), Rounds(r), r);
  }
}
