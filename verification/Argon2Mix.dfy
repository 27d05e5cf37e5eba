/** Argon2's round function on 64-bit words: _mix, _permute and _compress (authlab/passwords/argon2.py). */
module Argon2Mix {
  import opened NumberTheory
  import opened Sweeps

  const TWO32 := 0x1_0000_0000
  const TWO64 := 0x1_0000_0000_0000_0000

  type Word = x: int | 0 <= x < TWO64

  // ----- Exclusive or -----

  function Xor(a: nat, b: nat): nat {
    if a == 0 && b == 0 then 0
    else 2 * Xor(a / 2, b / 2) + XorBit(a % 2, b % 2)
  }

  function XorBit(a: nat, b: nat): nat {
    if a == b then 0 else 1
  }

  lemma XorUnfold(a: nat, b: nat)
    ensures Xor(a, b) == 2 * Xor(a / 2, b / 2) + XorBit(a % 2, b % 2)
  {
    if a == 0 && b == 0 {
      assert Xor(0, 0) == 0;
    }
  }

  lemma {:induction false} XorCancels(a: nat, b: nat)
    ensures Xor(Xor(a, b), b) == a
  {
    if a == 0 && b == 0 {
    } else {
      XorCancels(a / 2, b / 2);
      XorUnfold(a, b);
      XorLowBit(Xor(a / 2, b / 2), XorBit(a % 2, b % 2), b);
      hide Xor;
    }
  }

  lemma XorLowBit(x: nat, bit: nat, b: nat)
    requires bit < 2
    ensures Xor(2 * x + bit, b) == 2 * Xor(x, b / 2) + XorBit(bit, b % 2)
  {
    if 2 * x + bit == 0 && b == 0 {
      assert Xor(0, 0) == 0;
    } else {
      assert (2 * x + bit) / 2 == x && (2 * x + bit) % 2 == bit;
    }
  }

  lemma {:induction false} XorBound(a: nat, b: nat, k: nat)
    requires a < Pow(2, k) && b < Pow(2, k)
    ensures Xor(a, b) < Pow(2, k)
  {
    if k == 0 {
    } else {
      XorBound(a / 2, b / 2, k - 1);
    }
  }

  lemma TwoTo64()
    ensures Pow(2, 32) == TWO32 && Pow(2, 64) == TWO64
  {
    assert Pow(2, 4) == 16;
    PowAdd(2, 4, 4);
    PowAdd(2, 8, 8);
    PowAdd(2, 16, 16);
    PowAdd(2, 32, 32);
  }

  function XorWord(a: Word, b: Word): Word {
    TwoTo64();
    XorBound(a, b, 64);
    Xor(a, b)
  }

  // ----- Rotation -----

  /** _rotr64 for a count given by its powers of two: low == 2^count and high == 2^(64 - count). */
  function Rotate(v: Word, low: nat, high: nat): (r: Word)
    requires low > 0 && high > 0 && low * high == TWO64
  {
    RotateBound(v, low, high);
    v / low + (v % low) * high
  }

  lemma RotateBound(v: Word, low: nat, high: nat)
    requires low > 0 && high > 0 && low * high == TWO64
    ensures 0 <= v / low < high
    ensures 0 <= v / low + (v % low) * high < TWO64
  {
    var q, r := v / low, v % low;
    assert v == low * q + r;
    if q >= high {
      MulMonotone(low, high, q);
    }
    if q < 0 {
      MulMonotone(low, q, -1);
    }
    MulMonotone(high, r, low - 1);
    MulMonotone(high, 0, r);
    assert high * (low - 1) == low * high - high;
  }

  /** Rotating by the complementary count undoes a rotation. */
  lemma RotateBack(v: Word, low: nat, high: nat)
    requires low > 0 && high > 0 && low * high == TWO64
    ensures high * low == TWO64 && Rotate(Rotate(v, low, high), high, low) == v
  {
    RotateBound(v, low, high);
    var q, r := v / low, v % low;
    assert Rotate(v, low, high) == high * r + q;
    ModUnique(high * r + q, high, r, q);
    assert v == low * q + r;
  }

  // ----- The multiply-and-add step -----

  /** (a + b + 2 * (a & MASK32) * (b & MASK32)) & MASK64 */
  function Blend(a: Word, b: Word): Word {
    (a + b + 2 * (a % TWO32) * (b % TWO32)) % TWO64
  }

  lemma {:induction false} OddCoprimeToPowerOfTwo(g: nat, k: nat)
    requires g % 2 == 1 && Pow(2, k) % g == 0
    ensures g == 1
  {
    if k == 0 {
      if g > 1 {
        ModUnique(1, g, 0, 1);
      }
    } else {
      var m := DivisorOf(Pow(2, k), g);
      assert g * m == 2 * Pow(2, k - 1);
      HalfOfEven(g, m, Pow(2, k - 1));
      ModOfMultiple(g, m / 2);
      OddCoprimeToPowerOfTwo(g, k - 1);
    }
  }

  lemma HalfOfEven(g: nat, m: int, x: int)
    requires g % 2 == 1 && g * m == 2 * x
    ensures x == g * (m / 2)
  {
    var h := g / 2;
    assert g * m == 2 * (h * m) + m by {
      assert g == 2 * h + 1;
    }
    assert m == 2 * (m / 2);
    assert g * m == 2 * (g * (m / 2));
  }

  lemma OddIsUnit(a: nat)
    requires a % 2 == 1
    ensures Gcd(a, TWO32) == 1
  {
    TwoTo64();
    Bezout(a, TWO32);
    DivisorOfOddIsOdd(a, Gcd(a, TWO32));
    OddCoprimeToPowerOfTwo(Gcd(a, TWO32), 32);
  }

  lemma DivisorOfOddIsOdd(a: int, g: int)
    requires g > 0 && a % 2 == 1 && a % g == 0
    ensures g % 2 == 1
  {
    var c := DivisorOf(a, g);
    OddFactor(g, c);
  }

  lemma OddFactor(g: int, c: int)
    ensures g % 2 == 0 ==> (g * c) % 2 == 0
  {
    var h := g / 2;
    assert g == 2 * h + g % 2;
    assert (2 * h) * c == 2 * (h * c);
  }

  /** The a that Blend(a, b) came from. */
  function Unblend(y: Word, b: Word): Word {
    var bl := b % TWO32;
    OddIsUnit(1 + 2 * bl);
    var low := (ModInverse(1 + 2 * bl, TWO32) * (y - b)) % TWO32;
    var high := ((y - b - low - 2 * low * bl) / TWO32) % TWO32;
    high * TWO32 + low
  }

  /** Every word is a blend with b, so blending with a fixed word is onto. */
  lemma BlendUnblend(y: Word, b: Word)
    ensures Blend(Unblend(y, b), b) == y
  {
    var bl := b % TWO32;
    OddIsUnit(1 + 2 * bl);
    var i := ModInverse(1 + 2 * bl, TWO32);
    var low := (i * (y - b)) % TWO32;
    LowSolves(1 + 2 * bl, i, y - b, low);
    OddTimes(bl, low);
    CongIff(low + 2 * low * bl, y - b, TWO32);
    HighSolves(y, b, low, 2 * low * bl, DivisorOf(low + 2 * low * bl - (y - b), TWO32));
  }

  lemma OddTimes(bl: int, low: int)
    ensures (1 + 2 * bl) * low == low + 2 * low * bl
  {
  }

  // With the low half chosen, the high half makes up the rest of y.
  lemma HighSolves(y: Word, b: int, low: int, cross: int, k: int)
    requires 0 <= low < TWO32 && low + cross - (y - b) == TWO32 * k
    ensures var high := ((y - b - low - cross) / TWO32) % TWO32;
      var a := high * TWO32 + low;
      0 <= a < TWO64 && a % TWO32 == low && (a + b + cross) % TWO64 == y
  {
    ModUnique(y - b - low - cross, TWO32, 0 - k, 0);
    var high, m := (0 - k) % TWO32, (0 - k) / TWO32;
    ModUnique(high * TWO32 + low, TWO32, high, low);
    ModUnique(high * TWO32 + low + b + cross, TWO64, -m, y);
  }

  lemma LowSolves(odd: nat, i: nat, z: int, low: nat)
    requires IsInverse(i, odd, TWO32) && low == (i * z) % TWO32
    ensures Cong(odd * low, z, TWO32)
  {
    CongMod(i * z, TWO32);
    CongMul(odd, odd, low, i * z, TWO32);
    CongMul(odd * i, 1, z, z, TWO32);
    assert odd * (i * z) == odd * i * z;
  }

  /** Blending with a fixed word loses nothing. */
  lemma BlendInjective(a: Word, a': Word, b: Word)
    requires Blend(a, b) == Blend(a', b)
    ensures a == a'
  {
    var bl, al, al' := b % TWO32, a % TWO32, a' % TWO32;
    OddTimes(bl, al);
    OddTimes(bl, al');
    LowHalvesAgree(a, a', b, 2 * al * bl, 2 * al' * bl, 1 + 2 * bl);
  }

  lemma LowHalvesAgree(a: Word, a': Word, b: Word, cross: int, cross': int, odd: nat)
    requires (a + b + cross) % TWO64 == (a' + b + cross') % TWO64
    requires odd % 2 == 1 && odd * (a % TWO32) == a % TWO32 + cross && odd * (a' % TWO32) == a' % TWO32 + cross'
    ensures a % TWO32 == a' % TWO32
    ensures cross == cross' ==> a == a'
  {
    var al, al' := a % TWO32, a' % TWO32;
    CongIff(a + b + cross, a' + b + cross', TWO64);
    var k := DivisorOf(a + b + cross - (a' + b + cross'), TWO64);
    assert odd * (al - al') == odd * al - odd * al';
    LowWordsAgree(odd, al, al', a / TWO32 - a' / TWO32, k);
  }

  lemma LowWordsAgree(odd: nat, al: nat, al': nat, h: int, k: int)
    requires odd % 2 == 1 && al < TWO32 && al' < TWO32
    requires TWO32 * h + odd * (al - al') == TWO64 * k
    ensures al == al'
  {
    OddIsUnit(odd);
    var i := ModInverse(odd, TWO32);
    var z := odd * (al - al');
    assert z == TWO32 * (TWO32 * k - h);
    ModOfMultiple(TWO32, TWO32 * k - h);
    ZeroProduct(odd, i, al - al');
    CongIff(al, al', TWO32);
    CongSmall(al, al', TWO32);
  }

  lemma ZeroProduct(odd: nat, i: nat, x: int)
    requires IsInverse(i, odd, TWO32) && (odd * x) % TWO32 == 0
    ensures x % TWO32 == 0
  {
    CongMul(i, i, odd * x, 0, TWO32);
    CongMul(odd * i, 1, x, x, TWO32);
    assert i * (odd * x) == odd * i * x;
  }

  lemma UnblendBlend(a: Word, b: Word)
    ensures Unblend(Blend(a, b), b) == a
  {
    BlendUnblend(Blend(a, b), b);
    BlendInjective(Unblend(Blend(a, b), b), a, b);
  }

  // ----- _mix -----

  /** The four words one _mix call reads and writes. */
  datatype Quad = Quad(a: Word, b: Word, c: Word, d: Word)

  // The four rotation counts 32, 24, 16 and 63.
  function Rot32(v: Word): Word { Rotate(v, TWO32, TWO32) }
  function Rot24(v: Word): Word { Rotate(v, 0x100_0000, 0x100_0000_0000) }
  function Rot16(v: Word): Word { Rotate(v, 0x1_0000, 0x1_0000_0000_0000) }
  function Rot63(v: Word): Word { Rotate(v, 0x8000_0000_0000_0000, 2) }
  function Back24(v: Word): Word { Rotate(v, 0x100_0000_0000, 0x100_0000) }
  function Back16(v: Word): Word { Rotate(v, 0x1_0000_0000_0000, 0x1_0000) }
  function Back63(v: Word): Word { Rotate(v, 2, 0x8000_0000_0000_0000) }

  lemma RotationsUndo(v: Word)
    ensures Rot32(Rot32(v)) == v
    ensures Back24(Rot24(v)) == v && Rot24(Back24(v)) == v
    ensures Back16(Rot16(v)) == v && Rot16(Back16(v)) == v
    ensures Back63(Rot63(v)) == v && Rot63(Back63(v)) == v
  {
    RotateBack(v, TWO32, TWO32);
    RotateBack(v, 0x100_0000, 0x100_0000_0000);
    RotateBack(v, 0x100_0000_0000, 0x100_0000);
    RotateBack(v, 0x1_0000, 0x1_0000_0000_0000);
    RotateBack(v, 0x1_0000_0000_0000, 0x1_0000);
    RotateBack(v, 0x8000_0000_0000_0000, 2);
    RotateBack(v, 2, 0x8000_0000_0000_0000);
  }

  /** The first half of _mix: one multiply-add and rotate on each of the four words. */
  function HalfMix(q: Quad): Quad {
    var a := Blend(q.a, q.b);
    var d := Rot32(XorWord(q.d, a));
    var c := Blend(q.c, d);
    var b := Rot24(XorWord(q.b, c));
    Quad(a, b, c, d)
  }

  /** The second half, with the other two rotation counts. */
  function HalfMix2(q: Quad): Quad {
    var a := Blend(q.a, q.b);
    var d := Rot16(XorWord(q.d, a));
    var c := Blend(q.c, d);
    var b := Rot63(XorWord(q.b, c));
    Quad(a, b, c, d)
  }

  function HalfUnmix(q: Quad): Quad {
    var b := XorWord(Back24(q.b), q.c);
    var c := Unblend(q.c, q.d);
    var d := XorWord(Rot32(q.d), q.a);
    Quad(Unblend(q.a, b), b, c, d)
  }

  function HalfUnmix2(q: Quad): Quad {
    var b := XorWord(Back63(q.b), q.c);
    var c := Unblend(q.c, q.d);
    var d := XorWord(Back16(q.d), q.a);
    Quad(Unblend(q.a, b), b, c, d)
  }

  lemma HalfMixUndone(q: Quad)
    ensures HalfUnmix(HalfMix(q)) == q && HalfMix(HalfUnmix(q)) == q
  {
    var m := HalfMix(q);
    UnblendBlend(q.a, q.b);
    UnblendBlend(q.c, m.d);
    RotationsUndo(XorWord(q.d, m.a));
    RotationsUndo(XorWord(q.b, m.c));
    XorCancels(q.d, m.a);
    XorCancels(q.b, m.c);
    var u := HalfUnmix(q);
    BlendUnblend(q.a, u.b);
    BlendUnblend(q.c, q.d);
    XorCancels(Rot32(q.d), q.a);
    XorCancels(Back24(q.b), q.c);
    RotationsUndo(q.d);
    RotationsUndo(q.b);
  }

  lemma HalfMix2Undone(q: Quad)
    ensures HalfUnmix2(HalfMix2(q)) == q && HalfMix2(HalfUnmix2(q)) == q
  {
    var m := HalfMix2(q);
    UnblendBlend(q.a, q.b);
    UnblendBlend(q.c, m.d);
    RotationsUndo(XorWord(q.d, m.a));
    RotationsUndo(XorWord(q.b, m.c));
    XorCancels(q.d, m.a);
    XorCancels(q.b, m.c);
    var u := HalfUnmix2(q);
    BlendUnblend(q.a, u.b);
    BlendUnblend(q.c, q.d);
    XorCancels(Back16(q.d), q.a);
    XorCancels(Back63(q.b), q.c);
    RotationsUndo(q.d);
    RotationsUndo(q.b);
  }

  function MixQuad(q: Quad): Quad { HalfMix2(HalfMix(q)) }

  function UnmixQuad(q: Quad): Quad { HalfUnmix(HalfUnmix2(q)) }

  /** _mix is a bijection on four 64-bit words. */
  lemma MixUndone(q: Quad)
    ensures UnmixQuad(MixQuad(q)) == q && MixQuad(UnmixQuad(q)) == q
  {
    HalfMixUndone(q);
    HalfMix2Undone(HalfMix(q));
    HalfMix2Undone(q);
    HalfMixUndone(HalfUnmix2(q));
  }

  // ----- _permute -----

  type Row = v: seq<Word> | |v| == 16 witness seq(16, i => 0)

  /** Four positions in a sixteen-word row. */
  datatype Positions = Positions(a: nat, b: nat, c: nat, d: nat) {
    predicate Fit() {
      a < 16 && b < 16 && c < 16 && d < 16 && a != b && a != c && a != d && b != c && b != d && c != d
    }
  }

  type Spots = p: Positions | p.Fit() witness Positions(0, 1, 2, 3)

  function Gather(v: Row, s: Spots): Quad {
    Quad(v[s.a], v[s.b], v[s.c], v[s.d])
  }

  function Scatter(v: Row, s: Spots, q: Quad): (r: Row)
    ensures Gather(r, s) == q
    ensures forall i :: 0 <= i < 16 && i != s.a && i != s.b && i != s.c && i != s.d ==> r[i] == v[i]
  {
    v[s.a := q.a][s.b := q.b][s.c := q.c][s.d := q.d]
  }

  function MixAt(v: Row, s: Spots): Row {
    Scatter(v, s, MixQuad(Gather(v, s)))
  }

  function UnmixAt(v: Row, s: Spots): Row {
    Scatter(v, s, UnmixQuad(Gather(v, s)))
  }

  lemma MixAtUndone(v: Row, s: Spots)
    ensures UnmixAt(MixAt(v, s), s) == v && MixAt(UnmixAt(v, s), s) == v
  {
    MixUndone(Gather(v, s));
    ScatterTwice(v, s, MixQuad(Gather(v, s)));
    ScatterTwice(v, s, UnmixQuad(Gather(v, s)));
  }

  lemma ScatterTwice(v: Row, s: Spots, q: Quad)
    ensures Scatter(Scatter(v, s, q), s, Gather(v, s)) == v
  {
  }

  /** The four columns and four diagonals, in the order _permute mixes them. */
  const SCHEDULE: seq<Spots> := [
    Positions(0, 4, 8, 12), Positions(1, 5, 9, 13), Positions(2, 6, 10, 14), Positions(3, 7, 11, 15),
    Positions(0, 5, 10, 15), Positions(1, 6, 11, 12), Positions(2, 7, 8, 13), Positions(3, 4, 9, 14)]

  /** P of section 3.6 of RFC 9106. */
  function Permute(v: Row): Row {
    Sweep(MixAt, v, SCHEDULE)
  }

  function Unpermute(v: Row): Row {
    SweepBack(UnmixAt, v, SCHEDULE)
  }

  /** P really is a permutation of the 2^1024 sixteen-word rows. */
  lemma PermuteIsBijection(v: Row)
    ensures Unpermute(Permute(v)) == v && Permute(Unpermute(v)) == v
  {
    forall w: Row, s: Spots
      ensures UnmixAt(MixAt(w, s), s) == w && MixAt(UnmixAt(w, s), s) == w
    {
      MixAtUndone(w, s);
    }
    SweepUndone(MixAt, UnmixAt, v, SCHEDULE);
    SweepRedone(MixAt, UnmixAt, v, SCHEDULE);
  }

  /** _mix, in place. */
  method Mix(v: array<Word>, s: Spots)
    requires v.Length == 16
    modifies v
    ensures v[..] == MixAt(old(v[..]), s)
  {
    var q := MixQuad(Quad(v[s.a], v[s.b], v[s.c], v[s.d]));
    v[s.a] := q.a;
    v[s.b] := q.b;
    v[s.c] := q.c;
    v[s.d] := q.d;
  }

  /** _permute, in place. */
  method PermuteInPlace(v: array<Word>)
    requires v.Length == 16
    modifies v
    ensures v[..] == Permute(old(v[..]))
  {
    for i := 0 to 8
      invariant PermuteFrom(v[..], i) == Permute(old(v[..]))
    {
      PermuteStep(v[..], i);
      Mix(v, Spot(i));
    }
    PermuteStep(v[..], 8);
  }

  function Spot(i: nat): Spots
    requires i < 8
  {
    SCHEDULE[i]
  }

  ghost function PermuteFrom(v: Row, i: nat): Row
    requires i <= 8
  {
    Sweep(MixAt, v, SCHEDULE[i..])
  }

  lemma PermuteStep(v: Row, i: nat)
    requires i <= 8
    ensures i < 8 ==> PermuteFrom(v, i) == PermuteFrom(MixAt(v, Spot(i)), i + 1)
    ensures i == 8 ==> PermuteFrom(v, i) == v
  {
    if i < 8 {
      SweepStep(MixAt, v, SCHEDULE, i);
    }
  }

  // ----- _compress -----

  type Block = b: seq<Word> | |b| == 128 witness seq(128, i => 0)

  function XorBlocks(a: Block, b: Block): Block {
    seq(128, i requires 0 <= i < 128 => XorWord(a[i], b[i]))
  }

  /** Sixteen distinct word positions of a block. */
  ghost predicate IsLine(line: seq<nat>) {
    && |line| == 16
    && (forall k :: 0 <= k < 16 ==> line[k] < 128)
    && (forall k, l :: 0 <= k < l < 16 ==> line[k] != line[l])
  }

  type Line = l: seq<nat> | IsLine(l) ghost witness seq(16, k => k)

  function RowLine(row: nat): Line
    requires row < 8
  {
    seq(16, k => row * 16 + k)
  }

  /** Column col is the words 2 * col and 2 * col + 1 of every row. */
  function ColumnLine(col: nat): Line
    requires col < 8
  {
    var line := seq(16, (k: nat) => k / 2 * 16 + 2 * col + k % 2);
    assert forall k, l :: 0 <= k < l < 16 ==> line[k] < line[l];
    line
  }

  function PickLine(q: Block, line: Line): Row {
    seq(16, k requires 0 <= k < 16 => q[line[k]])
  }

  function PlaceFrom(q: Block, line: Line, r: Row, k: nat): (p: Block)
    requires k <= 16
    ensures forall l :: k <= l < 16 ==> p[line[l]] == r[l]
    ensures forall i :: 0 <= i < 128 && (forall l :: k <= l < 16 ==> line[l] != i) ==> p[i] == q[i]
    decreases 16 - k
  {
    if k == 16 then q else PlaceFrom(q[line[k] := r[k]], line, r, k + 1)
  }

  function PlaceLine(q: Block, line: Line, r: Row): Block {
    PlaceFrom(q, line, r, 0)
  }

  lemma PlaceIsDetermined(q: Block, line: Line, r: Row, p: Block)
    requires forall l :: 0 <= l < 16 ==> p[line[l]] == r[l]
    requires forall i :: 0 <= i < 128 && (forall l :: 0 <= l < 16 ==> line[l] != i) ==> p[i] == q[i]
    ensures p == PlaceLine(q, line, r)
  {
    var p' := PlaceLine(q, line, r);
    forall i | 0 <= i < 128
      ensures p[i] == p'[i]
    {
      if l :| 0 <= l < 16 && line[l] == i {
        assert p'[line[l]] == r[l];
      }
    }
  }

  function PermuteLine(q: Block, line: Line): Block {
    PlaceLine(q, line, Permute(PickLine(q, line)))
  }

  function UnpermuteLine(q: Block, line: Line): Block {
    PlaceLine(q, line, Unpermute(PickLine(q, line)))
  }

  lemma PickPlace(q: Block, line: Line, r: Row)
    ensures PickLine(PlaceLine(q, line, r), line) == r
    ensures PlaceLine(PlaceLine(q, line, r), line, PickLine(q, line)) == q
  {
    PlaceIsDetermined(PlaceLine(q, line, r), line, PickLine(q, line), q);
  }

  lemma PermuteLineUndone(q: Block, line: Line)
    ensures UnpermuteLine(PermuteLine(q, line), line) == q && PermuteLine(UnpermuteLine(q, line), line) == q
  {
    var r := PickLine(q, line);
    PermuteIsBijection(r);
    PickPlace(q, line, Permute(r));
    PickPlace(q, line, Unpermute(r));
  }

  /** Eight rows, then eight columns. */
  function LineAt(k: nat): Line
    requires k < 16
  {
    if k < 8 then RowLine(k) else ColumnLine(k - 8)
  }

  function Lines(): (lines: seq<Line>)
    ensures |lines| == 16 && forall k :: 0 <= k < 16 ==> lines[k] == LineAt(k)
  {
    seq(16, (k: nat) requires k < 16 => LineAt(k))
  }

  function Rounds(q: Block): Block {
    Sweep(PermuteLine, q, Lines())
  }

  function Unrounds(q: Block): Block {
    SweepBack(UnpermuteLine, q, Lines())
  }

  /** The row and column passes together lose nothing: only the feed-forward makes G one-way. */
  lemma RoundsAreBijection(q: Block)
    ensures Unrounds(Rounds(q)) == q && Rounds(Unrounds(q)) == q
  {
    forall b: Block, line: Line
      ensures UnpermuteLine(PermuteLine(b, line), line) == b && PermuteLine(UnpermuteLine(b, line), line) == b
    {
      PermuteLineUndone(b, line);
    }
    var lines := Lines();
    hide Lines, PermuteLine, UnpermuteLine, Sweep, SweepBack;
    SweepUndone(PermuteLine, UnpermuteLine, q, lines);
    SweepRedone(PermuteLine, UnpermuteLine, q, lines);
  }

  /** G of section 3.5 of RFC 9106, optionally folded into the old block. */
  function Compress(x: Block, y: Block, folded: Block, fold: bool): Block {
    var r := XorBlocks(x, y);
    var g := XorBlocks(Rounds(r), r);
    if fold then XorBlocks(folded, g) else g
  }

  /** Writes a permuted line back into the working copy. */
  method StoreLine(q: array<Word>, line: Line, r: Row)
    requires q.Length == 128
    modifies q
    ensures q[..] == PlaceLine(old(q[..]), line, r)
  {
    for k := 0 to 16
      invariant PlaceFrom(q[..], line, r, k) == PlaceLine(old(q[..]), line, r)
    {
      ghost var before := q[..];
      q[line[k]] := r[k];
      assert q[..] == before[line[k] := r[k]];
    }
  }

  /** One row or column pass on the working copy: read the line, permute it, write it back. */
  method PermuteLineInPlace(q: array<Word>, line: Line)
    requires q.Length == 128
    modifies q
    ensures q[..] == PermuteLine(old(q[..]), line)
  {
    var picked := PickLine(q[..], line);
    var block := new Word[16](k requires 0 <= k < 16 => picked[k]);
    assert block[..] == picked;
    PermuteInPlace(block);
    StoreLine(q, line, block[..]);
  }

  /** The sixteen passes. */
  method RoundsInPlace(q: array<Word>)
    requires q.Length == 128
    modifies q
    ensures q[..] == Rounds(old(q[..]))
  {
    for k := 0 to 16
      invariant RoundsFrom(q[..], k) == Rounds(old(q[..]))
    {
      RoundsStep(q[..], k);
      PermuteLineInPlace(q, LineAt(k));
    }
    RoundsStep(q[..], 16);
  }

  /** The feed-forward, the last loop of _compress. */
  method StoreOutput(out: array<Word>, g: Block, fold: bool)
    requires out.Length == 128
    modifies out
    ensures out[..] == if fold then XorBlocks(old(out[..]), g) else g
  {
    for i := 0 to 128
      invariant forall j :: 0 <= j < i ==> out[j] == if fold then XorWord(old(out[j]), g[j]) else g[j]
      invariant forall j :: i <= j < 128 ==> out[j] == old(out[j])
    {
      out[i] := if fold then XorWord(out[i], g[i]) else g[i];
    }
  }

  /** _compress: writes only the output block, which may be one of the inputs. */
  method CompressInto(x: array<Word>, y: array<Word>, out: array<Word>, fold: bool)
    requires x.Length == 128 && y.Length == 128 && out.Length == 128
    modifies out
    ensures out[..] == Compress(old(x[..]), old(y[..]), old(out[..]), fold)
  {
    var r: Block := XorBlocks(x[..], y[..]);
    var q := new Word[128](i requires 0 <= i < 128 => r[i]);
    assert q[..] == r;
    RoundsInPlace(q);
    StoreOutput(out, XorBlocks(q[..], r), fold);
  }

  ghost function RoundsFrom(q: Block, k: nat): Block
    requires k <= 16
  {
    Sweep(PermuteLine, q, Lines()[k..])
  }

  lemma RoundsStep(q: Block, k: nat)
    requires k <= 16
    ensures k < 16 ==> RoundsFrom(q, k) == RoundsFrom(PermuteLine(q, Lines()[k]), k + 1)
    ensures k == 16 ==> RoundsFrom(q, k) == q
  {
    if k < 16 {
      SweepStep(PermuteLine, q, Lines(), k);
    }
  }
}
