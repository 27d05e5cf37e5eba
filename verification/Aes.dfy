/** AES-128/192/256 on one block (authlab/crypto/aes.py). */
module Aes {
  import opened GaloisField
  import opened AesTables
  import opened AesSbox
  import opened MixMatrix

  type Block = s: seq<bv8> | |s| == 16 witness seq(16, i => 0)

  type Word = w: seq<bv8> | |w| == 4 witness [0, 0, 0, 0]

  // ----- The four steps; byte index = column * 4 + row -----

  function SubBytes(s: Block): Block {
    seq(16, i requires 0 <= i < 16 => Sbox(s[i]))
  }

  function InvSubBytes(s: Block): Block {
    seq(16, i requires 0 <= i < 16 => InvSbox(s[i]))
  }

  function At(s: Block, col: nat, row: nat): bv8
    requires col < 4 && row < 4
  {
    s[4 * col + row]
  }

  function ShiftRows(s: Block): Block {
    [s[0], s[5], s[10], s[15], s[4], s[9], s[14], s[3], s[8], s[13], s[2], s[7], s[12], s[1], s[6], s[11]]
  }

  function InvShiftRows(s: Block): Block {
    [s[0], s[13], s[10], s[7], s[4], s[1], s[14], s[11], s[8], s[5], s[2], s[15], s[12], s[9], s[6], s[3]]
  }

  /** The loops of _shift_rows and _inv_shift_rows: row r moves r columns, cyclically. */
  lemma ShiftRowsAt(s: Block, c: nat, r: nat)
    requires c < 4 && r < 4
    ensures At(ShiftRows(s), c, r) == At(s, (c + r) % 4, r)
    ensures At(InvShiftRows(s), (c + r) % 4, r) == At(s, c, r)
  {
    if r == 0 {
    } else if r == 1 {
    } else if r == 2 {
    } else {
    }
  }

  function Column(s: Block, c: nat): Four
    requires c < 4
  {
    Four(s[4 * c], s[4 * c + 1], s[4 * c + 2], s[4 * c + 3])
  }

  function FromColumns(p: Four, q: Four, r: Four, s: Four): Block {
    [p.a, p.b, p.c, p.d, q.a, q.b, q.c, q.d, r.a, r.b, r.c, r.d, s.a, s.b, s.c, s.d]
  }

  function MixColumns(s: Block): Block {
    FromColumns(Mix(Column(s, 0)), Mix(Column(s, 1)), Mix(Column(s, 2)), Mix(Column(s, 3)))
  }

  function InvMixColumns(s: Block): Block {
    FromColumns(Unmix(Column(s, 0)), Unmix(Column(s, 1)), Unmix(Column(s, 2)), Unmix(Column(s, 3)))
  }

  function XorBlock(s: Block, k: Block): Block {
    seq(16, i requires 0 <= i < 16 => Add(s[i], k[i]))
  }

  lemma SubBytesUndone(s: Block)
    ensures InvSubBytes(SubBytes(s)) == s && SubBytes(InvSubBytes(s)) == s
  {
    hide Sbox, InvSbox;
    forall b: bv8
      ensures InvSbox(Sbox(b)) == b && Sbox(InvSbox(b)) == b
    {
      TablesAreInverse(b);
    }
  }

  lemma ShiftRowsUndone(s: Block)
    ensures InvShiftRows(ShiftRows(s)) == s && ShiftRows(InvShiftRows(s)) == s
  {
  }

  lemma MixColumnsUndone(s: Block)
    ensures InvMixColumns(MixColumns(s)) == s && MixColumns(InvMixColumns(s)) == s
  {
    hide Mix, Unmix;
    MixUndone(Column(s, 0));
    MixUndone(Column(s, 1));
    MixUndone(Column(s, 2));
    MixUndone(Column(s, 3));
    hide Column, FromColumns;
    ColumnsOf(Mix(Column(s, 0)), Mix(Column(s, 1)), Mix(Column(s, 2)), Mix(Column(s, 3)));
    ColumnsOf(Unmix(Column(s, 0)), Unmix(Column(s, 1)), Unmix(Column(s, 2)), Unmix(Column(s, 3)));
    ColumnsRebuild(s);
  }

  lemma ColumnsOf(p: Four, q: Four, r: Four, t: Four)
    ensures var s := FromColumns(p, q, r, t);
      Column(s, 0) == p && Column(s, 1) == q && Column(s, 2) == r && Column(s, 3) == t
  {
  }

  lemma ColumnsRebuild(s: Block)
    ensures FromColumns(Column(s, 0), Column(s, 1), Column(s, 2), Column(s, 3)) == s
  {
  }

  lemma XorBlockUndone(s: Block, k: Block)
    ensures XorBlock(XorBlock(s, k), k) == s
  {
    forall i | 0 <= i < 16
      ensures Add(Add(s[i], k[i]), k[i]) == s[i]
    {
      AddAssoc(s[i], k[i], k[i]);
      AddZero(k[i]);
      AddZero(s[i]);
    }
  }

  // ----- The same steps as the source's loops -----

  /** _add_round_key, in place. */
  method AddRoundKey(state: array<bv8>, words: seq<Word>)
    requires state.Length == 16 && |words| == 4
    modifies state
    ensures state[..] == XorBlock(old(state[..]), Flatten(words))
  {
    for i := 0 to 16
      invariant forall j :: 0 <= j < i ==> state[j] == Add(old(state[j]), Flatten(words)[j])
      invariant forall j :: i <= j < 16 ==> state[j] == old(state[j])
    {
      state[i] := Add(state[i], words[i / 4][i % 4]);
    }
  }

  function Flatten(words: seq<Word>): Block
    requires |words| == 4
  {
    seq(16, i requires 0 <= i < 16 => words[i / 4][i % 4])
  }

  /** One turn of the loop of _mix_columns, with _gmul. */
  method MixColumn(x: Four) returns (y: Four)
    ensures y == Mix(x)
  {
    hide Product;
    var a2 := Multiply(x.a, 2);
    var a3 := Multiply(x.a, 3);
    var b2 := Multiply(x.b, 2);
    var b3 := Multiply(x.b, 3);
    var c2 := Multiply(x.c, 2);
    var c3 := Multiply(x.c, 3);
    var d2 := Multiply(x.d, 2);
    var d3 := Multiply(x.d, 3);
    y := Four(Sum(a2, b3, x.c, x.d), Sum(x.a, b2, c3, x.d), Sum(x.a, x.b, c2, d3), Sum(a3, x.b, x.c, d2));
  }

  /** One turn of the loop of _inv_mix_columns. */
  method UnmixColumn(x: Four) returns (y: Four)
    ensures y == Unmix(x)
  {
    hide Product;
    var p := UnmixRow(x, Four(14, 11, 13, 9));
    var q := UnmixRow(x, Four(9, 14, 11, 13));
    var r := UnmixRow(x, Four(13, 9, 14, 11));
    var t := UnmixRow(x, Four(11, 13, 9, 14));
    y := Four(p, q, r, t);
  }

  method UnmixRow(x: Four, row: Four) returns (v: bv8)
    ensures v == Dot(x, row)
  {
    hide Product;
    var a := Multiply(x.a, row.a);
    var b := Multiply(x.b, row.b);
    var c := Multiply(x.c, row.c);
    var d := Multiply(x.d, row.d);
    v := Sum(a, b, c, d);
  }

  /** _mix_columns (forward) and _inv_mix_columns, column by column. */
  method MixColumnsLoop(s: Block, forward: bool) returns (out: Block)
    ensures out == if forward then MixColumns(s) else InvMixColumns(s)
  {
    hide Mix, Unmix;
    out := s;
    for col := 0 to 4
      invariant forall c :: 0 <= c < col ==> Column(out, c) == if forward then Mix(Column(s, c)) else Unmix(Column(s, c))
      invariant forall c :: col <= c < 4 ==> Column(out, c) == Column(s, c)
    {
      var y: Four;
      if forward {
        y := MixColumn(Column(s, col));
      } else {
        y := UnmixColumn(Column(s, col));
      }
      out := StoreColumn(out, col, y);
    }
    ColumnsRebuild(out);
  }

  function StoreColumn(s: Block, c: nat, x: Four): (r: Block)
    requires c < 4
    ensures forall k :: 0 <= k < 4 ==> Column(r, k) == if k == c then x else Column(s, k)
  {
    s[4 * c := x.a][4 * c + 1 := x.b][4 * c + 2 := x.c][4 * c + 3 := x.d]
  }

  // ----- Whole blocks -----

  /** The round keys, and which of them is the last. */
  datatype Schedule = Schedule(rounds: nat, keys: nat -> Block)

  /** One turn of the loop of encrypt_block: the last round has no MixColumns. */
  function Round(sch: Schedule, s: Block, r: nat): Block {
    var t := ShiftRows(SubBytes(s));
    XorBlock(if r != sch.rounds then MixColumns(t) else t, sch.keys(r))
  }

  function Unround(sch: Schedule, s: Block, r: nat): Block {
    var t := XorBlock(s, sch.keys(r));
    InvSubBytes(InvShiftRows(if r != sch.rounds then InvMixColumns(t) else t))
  }

  lemma RoundUndone(sch: Schedule, s: Block, r: nat)
    ensures Unround(sch, Round(sch, s, r), r) == s && Round(sch, Unround(sch, s, r), r) == s
  {
    hide SubBytes, InvSubBytes, ShiftRows, InvShiftRows, MixColumns, InvMixColumns, XorBlock;
    var t := ShiftRows(SubBytes(s));
    XorBlockUndone(if r != sch.rounds then MixColumns(t) else t, sch.keys(r));
    MixColumnsUndone(t);
    ShiftRowsUndone(SubBytes(s));
    SubBytesUndone(s);
    var u := XorBlock(s, sch.keys(r));
    XorBlockUndone(s, sch.keys(r));
    MixColumnsUndone(u);
    var v := if r != sch.rounds then InvMixColumns(u) else u;
    ShiftRowsUndone(v);
    SubBytesUndone(InvShiftRows(v));
  }

  /** The rounds r, r + 1, ... of encrypt_block. */
  function EncryptFrom(sch: Schedule, s: Block, r: nat): Block
    decreases sch.rounds + 1 - r
  {
    if r > sch.rounds then s else EncryptFrom(sch, Round(sch, s, r), r + 1)
  }

  /** The rounds ..., r + 1, r undone. */
  function DecryptDownTo(sch: Schedule, s: Block, r: nat): Block
    decreases sch.rounds + 1 - r
  {
    if r > sch.rounds then s else Unround(sch, DecryptDownTo(sch, s, r + 1), r)
  }

  function Encrypt(sch: Schedule, block: Block): Block {
    EncryptFrom(sch, XorBlock(block, sch.keys(0)), 1)
  }

  function Decrypt(sch: Schedule, block: Block): Block {
    XorBlock(DecryptDownTo(sch, block, 1), sch.keys(0))
  }

  lemma {:induction false} RoundsUndone(sch: Schedule, s: Block, r: nat)
    ensures DecryptDownTo(sch, EncryptFrom(sch, s, r), r) == s
    ensures EncryptFrom(sch, DecryptDownTo(sch, s, r), r) == s
    decreases sch.rounds + 1 - r
  {
    hide Round, Unround;
    if r > sch.rounds {
    } else {
      RoundsUndone(sch, Round(sch, s, r), r + 1);
      RoundUndone(sch, s, r);
      RoundsUndone(sch, s, r + 1);
      RoundUndone(sch, DecryptDownTo(sch, s, r + 1), r);
    }
  }

  /** For every key schedule the two block functions are inverse permutations of the 16-byte blocks. */
  lemma BlockCipherInverts(sch: Schedule, block: Block)
    ensures Decrypt(sch, Encrypt(sch, block)) == block && Encrypt(sch, Decrypt(sch, block)) == block
  {
    hide EncryptFrom, DecryptDownTo, XorBlock;
    RoundsUndone(sch, XorBlock(block, sch.keys(0)), 1);
    RoundsUndone(sch, block, 1);
    XorBlockUndone(block, sch.keys(0));
    XorBlockUndone(DecryptDownTo(sch, block, 1), sch.keys(0));
  }

  // ----- The cipher of section 5.1 of FIPS 197, byte by byte -----

  /** SubBytes and ShiftRows. */
  ghost function Moved(s: Block, col: nat, row: nat): bv8
    requires col < 4 && row < 4
  {
    SubByte(s[4 * ((col + row) % 4) + row])
  }

  /** MixColumns after them. */
  ghost function Mixed(s: Block, col: nat, row: nat): bv8
    requires col < 4 && row < 4
  {
    Sum(Product(2, Moved(s, col, row)), Product(3, Moved(s, col, (row + 1) % 4)),
        Moved(s, col, (row + 2) % 4), Moved(s, col, (row + 3) % 4))
  }

  /** One byte of one round. The last round does not mix. */
  ghost predicate IsRoundByte(before: Block, after: Block, key: Block, last: bool, col: nat, row: nat)
    requires col < 4 && row < 4
  {
    after[4 * col + row] == Add(if last then Moved(before, col, row) else Mixed(before, col, row), key[4 * col + row])
  }

  ghost predicate IsRound(before: Block, after: Block, key: Block, last: bool) {
    forall col, row :: 0 <= col < 4 && 0 <= row < 4 ==> IsRoundByte(before, after, key, last, col, row)
  }

  /** The states of a run of the cipher. */
  ghost predicate IsRun(sch: Schedule, block: Block, states: seq<Block>) {
    && |states| == sch.rounds + 1
    && (forall j :: 0 <= j < 16 ==> states[0][j] == Add(block[j], sch.keys(0)[j]))
    && (forall r :: 0 < r <= sch.rounds ==> IsRound(states[r - 1], states[r], sch.keys(r), r == sch.rounds))
  }

  ghost predicate Enciphers(sch: Schedule, block: Block, result: Block) {
    exists states :: IsRun(sch, block, states) && states[sch.rounds] == result
  }

  lemma MovedMeans(s: Block, col: nat, row: nat)
    requires col < 4 && row < 4
    ensures ShiftRows(SubBytes(s))[4 * col + row] == Moved(s, col, row)
  {
    hide Sbox, SubByte, ShiftRows;
    ShiftRowsAt(SubBytes(s), col, row);
    SboxMeans(s[4 * ((col + row) % 4) + row]);
  }

  lemma SumTurned(p: bv8, q: bv8, r: bv8, t: bv8)
    ensures Sum(p, q, r, t) == Sum(t, p, q, r) == Sum(r, t, p, q)
  {
    hide Add;
    AddCommutes(r, t);
    AddSwap(p, q, t, r);
    AddCommutes(p, t);
    AddCommutes(Add(p, q), Add(r, t));
  }

  /** The rows of the matrix are turns of 2, 3, 1, 1. */
  lemma MixTurned(x: Four)
    ensures Mix(x).a == Sum(Product(2, x.a), Product(3, x.b), x.c, x.d)
    ensures Mix(x).b == Sum(Product(2, x.b), Product(3, x.c), x.d, x.a)
    ensures Mix(x).c == Sum(Product(2, x.c), Product(3, x.d), x.a, x.b)
    ensures Mix(x).d == Sum(Product(2, x.d), Product(3, x.a), x.b, x.c)
  {
    hide Product, Sum;
    Commutes(x.a, 2);
    Commutes(x.b, 2);
    Commutes(x.c, 2);
    Commutes(x.d, 2);
    Commutes(x.a, 3);
    Commutes(x.b, 3);
    Commutes(x.c, 3);
    Commutes(x.d, 3);
    SumTurned(Product(2, x.b), Product(3, x.c), x.d, x.a);
    SumTurned(Product(2, x.c), Product(3, x.d), x.a, x.b);
    SumTurned(x.b, x.c, Product(2, x.d), Product(3, x.a));
    SumTurned(Product(3, x.a), x.b, x.c, Product(2, x.d));
  }

  function Nth(x: Four, k: nat): bv8
    requires k < 4
  {
    if k == 0 then x.a else if k == 1 then x.b else if k == 2 then x.c else x.d
  }

  lemma ColumnNth(s: Block, col: nat, row: nat)
    requires col < 4 && row < 4
    ensures s[4 * col + row] == Nth(Column(s, col), row)
  {
  }

  lemma MixedColumn(s: Block, col: nat)
    requires col < 4
    ensures Column(MixColumns(s), col) == Mix(Column(s, col))
  {
    hide Mix, Column, FromColumns;
    ColumnsOf(Mix(Column(s, 0)), Mix(Column(s, 1)), Mix(Column(s, 2)), Mix(Column(s, 3)));
  }

  lemma MixNth(x: Four, row: nat)
    requires row < 4
    ensures Nth(Mix(x), row)
      == Sum(Product(2, Nth(x, row)), Product(3, Nth(x, (row + 1) % 4)), Nth(x, (row + 2) % 4), Nth(x, (row + 3) % 4))
  {
    hide Mix, Product, Sum;
    MixTurned(x);
  }

  lemma MixedMeans(s: Block, t: Block, col: nat, row: nat)
    requires col < 4 && row < 4 && forall k :: 0 <= k < 4 ==> Nth(Column(t, col), k) == Moved(s, col, k)
    ensures MixColumns(t)[4 * col + row] == Mixed(s, col, row)
  {
    hide Mix, Moved, Product, Sum, Nth, Column, MixColumns;
    MixNth(Column(t, col), row);
    MixedColumn(t, col);
    ColumnNth(MixColumns(t), col, row);
  }

  lemma RoundByteMeans(sch: Schedule, s: Block, r: nat, col: nat, row: nat)
    requires col < 4 && row < 4
    ensures IsRoundByte(s, Round(sch, s, r), sch.keys(r), r == sch.rounds, col, row)
  {
    hide SubBytes, ShiftRows, MixColumns, Moved, Mixed, Add, Column, Nth;
    var t := ShiftRows(SubBytes(s));
    forall k | 0 <= k < 4
      ensures Nth(Column(t, col), k) == Moved(s, col, k)
    {
      MovedMeans(s, col, k);
      ColumnNth(t, col, k);
    }
    MovedMeans(s, col, row);
    MixedMeans(s, t, col, row);
  }

  lemma RoundMeans(sch: Schedule, s: Block, r: nat)
    ensures IsRound(s, Round(sch, s, r), sch.keys(r), r == sch.rounds)
  {
    hide Round, IsRoundByte;
    var next, key, last := Round(sch, s, r), sch.keys(r), r == sch.rounds;
    forall col, row | 0 <= col < 4 && 0 <= row < 4
      ensures IsRoundByte(s, next, key, last, col, row)
    {
      RoundByteMeans(sch, s, r, col, row);
    }
  }

  ghost function StatesUpTo(sch: Schedule, block: Block, r: nat): (states: seq<Block>)
    ensures |states| == r + 1
  {
    if r == 0 then [XorBlock(block, sch.keys(0))]
    else
      var before := StatesUpTo(sch, block, r - 1);
      before + [Round(sch, before[r - 1], r)]
  }

  lemma {:induction false} StatesRun(sch: Schedule, block: Block, r: nat)
    requires r <= sch.rounds
    ensures var states := StatesUpTo(sch, block, r);
      && EncryptFrom(sch, states[r], r + 1) == Encrypt(sch, block)
      && (forall j :: 0 <= j < 16 ==> states[0][j] == Add(block[j], sch.keys(0)[j]))
      && (forall q :: 0 < q <= r ==> IsRound(states[q - 1], states[q], sch.keys(q), q == sch.rounds))
  {
    hide Round, IsRound, Add;
    if r > 0 {
      StatesRun(sch, block, r - 1);
      RoundMeans(sch, StatesUpTo(sch, block, r - 1)[r - 1], r);
    }
  }

  /** What the block functions compute is the cipher: a run leads from the clear block to the other one. */
  lemma EncryptEnciphers(sch: Schedule, block: Block)
    ensures Enciphers(sch, block, Encrypt(sch, block))
  {
    hide IsRound, Round, Add;
    StatesRun(sch, block, sch.rounds);
    assert IsRun(sch, block, StatesUpTo(sch, block, sch.rounds));
  }

  lemma {:induction false} RunIsUnique(sch: Schedule, block: Block, a: seq<Block>, b: seq<Block>, r: nat)
    requires IsRun(sch, block, a) && IsRun(sch, block, b) && r <= sch.rounds
    ensures a[r] == b[r]
  {
    hide IsRound, Add;
    if r > 0 {
      RunIsUnique(sch, block, a, b, r - 1);
      assert IsRound(a[r - 1], a[r], sch.keys(r), r == sch.rounds) && IsRound(b[r - 1], b[r], sch.keys(r), r == sch.rounds);
      RoundIsUnique(a[r - 1], a[r], b[r], sch.keys(r), r == sch.rounds);
    }
  }

  lemma RoundIsUnique(before: Block, a: Block, b: Block, key: Block, last: bool)
    requires IsRound(before, a, key, last) && IsRound(before, b, key, last)
    ensures a == b
  {
    hide Moved, Mixed, Add;
    forall j | 0 <= j < 16
      ensures a[j] == b[j]
    {
      var col, row := j / 4, j % 4;
      assert IsRoundByte(before, a, key, last, col, row) && IsRoundByte(before, b, key, last, col, row);
    }
  }

  /** The cipher gives one block for each. */
  lemma EnciphersIff(sch: Schedule, block: Block, result: Block)
    ensures Enciphers(sch, block, result) <==> result == Encrypt(sch, block)
  {
    hide IsRound, Encrypt, Add;
    EncryptEnciphers(sch, block);
    var states :| IsRun(sch, block, states) && states[sch.rounds] == Encrypt(sch, block);
    if other :| IsRun(sch, block, other) && other[sch.rounds] == result {
      RunIsUnique(sch, block, states, other, sch.rounds);
    }
  }

  lemma DecryptDeciphers(sch: Schedule, block: Block)
    ensures Enciphers(sch, Decrypt(sch, block), block)
  {
    hide Encrypt, Decrypt, Enciphers;
    EncryptEnciphers(sch, Decrypt(sch, block));
    BlockCipherInverts(sch, block);
  }

  // ----- The key schedule -----

  const RCON: seq<bv8> := [0x01, 0x02, 0x04, 0x08, 0x10, 0x20, 0x40, 0x80, 0x1B, 0x36, 0x6C, 0xD8, 0xAB, 0x4D]

  function RotWord(w: Word): Word { [w[1], w[2], w[3], w[0]] }

  function SubWord(w: Word): Word { [Sbox(w[0]), Sbox(w[1]), Sbox(w[2]), Sbox(w[3])] }

  function XorWord(v: Word, w: Word): Word { [Add(v[0], w[0]), Add(v[1], w[1]), Add(v[2], w[2]), Add(v[3], w[3])] }

  /** Section 5.2 of FIPS 197: the word that is added to the one nk places back. */
  function Temp(previous: Word, i: nat, nk: nat): Word
    requires nk > 0 && i % nk == 0 ==> 1 <= i / nk <= |RCON|
    requires nk > 0
  {
    if i % nk == 0 then
      var t := SubWord(RotWord(previous));
      t[0 := Add(t[0], RCON[i / nk - 1])]
    else if nk > 6 && i % nk == 4 then SubWord(previous)
    else previous
  }

  predicate KeySize(nk: nat) { nk == 4 || nk == 6 || nk == 8 }

  /** words is the expansion of the key, as far as it goes. */
  ghost predicate Expands(words: seq<Word>, key: seq<bv8>, nk: nat) {
    && KeySize(nk) && |key| == 4 * nk && nk <= |words| <= 4 * (nk + 7)
    && (forall i :: 0 <= i < nk ==> words[i] == key[4 * i..4 * i + 4])
    && (forall i :: nk <= i < |words| ==> RconInRange(i, nk) && words[i] == XorWord(words[i - nk], Temp(words[i - 1], i, nk)))
  }

  /** The schedule never runs off the table of round constants. */
  ghost predicate RconInRange(i: nat, nk: nat)
    requires nk > 0
  {
    i % nk == 0 ==> 1 <= i / nk <= |RCON|
  }

  lemma RconSuffices(i: nat, nk: nat)
    requires KeySize(nk) && nk <= i < 4 * (nk + 7)
    ensures RconInRange(i, nk)
  {
  }

  lemma ExpandStep(words: seq<Word>, key: seq<bv8>, nk: nat)
    requires Expands(words, key, nk) && |words| < 4 * (nk + 7)
    ensures RconInRange(|words|, nk)
    ensures var i := |words|; Expands(words + [XorWord(words[i - nk], Temp(words[i - 1], i, nk))], key, nk)
  {
    hide Temp, XorWord, RconInRange;
    RconSuffices(|words|, nk);
  }

  /** The first n words of the key schedule. */
  function Expansion(key: seq<bv8>, nk: nat, n: nat): (words: seq<Word>)
    requires KeySize(nk) && |key| == 4 * nk && nk <= n <= 4 * (nk + 7)
    ensures |words| == n
    decreases n
  {
    if n == nk then seq(nk, i requires 0 <= i < nk => key[4 * i..4 * i + 4])
    else
      var words := Expansion(key, nk, n - 1);
      RconSuffices(n - 1, nk);
      words + [XorWord(words[n - 1 - nk], Temp(words[n - 2], n - 1, nk))]
  }

  lemma {:induction false} ExpansionExpands(key: seq<bv8>, nk: nat, n: nat)
    requires KeySize(nk) && |key| == 4 * nk && nk <= n <= 4 * (nk + 7)
    ensures Expands(Expansion(key, nk, n), key, nk)
    decreases n
  {
    hide XorWord, Temp, RconInRange;
    if n > nk {
      ExpansionExpands(key, nk, n - 1);
      hide Expands;
      ExpandStep(Expansion(key, nk, n - 1), key, nk);
    }
  }

  // ----- Section 5.2 of FIPS 197, byte by byte -----

  /** x to the power n in the field: the round constants. */
  function PowerOfX(n: nat): bv8 {
    if n == 0 then 1 else Product(2, PowerOfX(n - 1))
  }

  lemma RconStep(n: nat)
    requires 0 < n < |RCON|
    ensures RCON[n] == XTime(RCON[n - 1])
  {
  }

  lemma {:induction false} RconIsPower(n: nat)
    requires n < |RCON|
    ensures RCON[n] == PowerOfX(n)
  {
    if n > 0 {
      RconIsPower(n - 1);
      TwoTimes(PowerOfX(n - 1));
      RconStep(n);
      hide XTime, Product;
    }
  }

  lemma TwoTimes(b: bv8)
    ensures Product(2, b) == XTime(b)
  {
    hide Product;
    assert XTime(1) == 2;
    XTimeMoves(1, b);
    OneLeft(b);
  }

  /** Byte j of what is added to word i - nk to give word i. */
  ghost function Addend(previous: Word, i: nat, nk: nat, j: nat): bv8
    requires 0 < nk <= i && j < 4
  {
    if i % nk == 0 then Add(SubByte(previous[(j + 1) % 4]), if j == 0 then PowerOfX(i / nk - 1) else 0)
    else if nk == 8 && i % 8 == 4 then SubByte(previous[j])
    else previous[j]
  }

  ghost predicate IsNextWord(words: seq<Word>, i: nat, nk: nat)
    requires 0 < nk <= i < |words|
  {
    forall j :: 0 <= j < 4 ==> words[i][j] == Add(words[i - nk][j], Addend(words[i - 1], i, nk, j))
  }

  /** words is the key schedule of the key. */
  ghost predicate IsKeySchedule(words: seq<Word>, key: seq<bv8>) {
    && (|key| == 16 || |key| == 24 || |key| == 32)
    && |words| == |key| + 28
    && (forall i, j :: 0 <= i < |key| / 4 && 0 <= j < 4 ==> words[i][j] == key[4 * i..][j])
    && (forall i :: |key| / 4 <= i < |words| ==> IsNextWord(words, i, |key| / 4))
  }

  lemma SubWordMeans(w: Word, j: nat)
    requires j < 4
    ensures SubWord(w)[j] == SubByte(w[j]) && SubWord(RotWord(w))[j] == SubByte(w[(j + 1) % 4])
  {
    hide Sbox, SubByte;
    SboxMeans(w[j]);
    SboxMeans(w[(j + 1) % 4]);
  }

  lemma TempIsAddend(previous: Word, i: nat, nk: nat, j: nat)
    requires KeySize(nk) && nk <= i && RconInRange(i, nk) && j < 4
    ensures Temp(previous, i, nk)[j] == Addend(previous, i, nk, j)
  {
    hide SubWord, RotWord, SubByte, PowerOfX;
    SubWordMeans(previous, j);
    if i % nk == 0 {
      hide SubWord, RotWord, SubByte, PowerOfX, Add;
      RconIsPower(i / nk - 1);
      AddZero(SubByte(previous[(j + 1) % 4]));
    }
  }

  lemma NextWordIs(words: seq<Word>, key: seq<bv8>, nk: nat, i: nat)
    requires Expands(words, key, nk) && nk <= i < |words|
    ensures RconInRange(i, nk) && words[i] == XorWord(words[i - nk], Temp(words[i - 1], i, nk))
  {
    hide XorWord, Temp, RconInRange;
  }

  lemma XorWordAt(v: Word, w: Word, j: nat)
    requires j < 4
    ensures XorWord(v, w)[j] == Add(v[j], w[j])
  {
    hide Add;
  }

  lemma NextWordMeans(words: seq<Word>, key: seq<bv8>, nk: nat, i: nat)
    requires Expands(words, key, nk) && nk <= i < |words|
    ensures IsNextWord(words, i, nk)
  {
    hide XorWord, Temp, Addend, RconInRange, Add;
    NextWordIs(words, key, nk, i);
    hide XorWord, Temp, Addend, RconInRange, Add, Expands;
    var v, w := words[i - nk], Temp(words[i - 1], i, nk);
    forall j | 0 <= j < 4
      ensures words[i][j] == Add(words[i - nk][j], Addend(words[i - 1], i, nk, j))
    {
      XorWordAt(v, w, j);
      TempIsAddend(words[i - 1], i, nk, j);
    }
  }

  /** The expansion is the key schedule. */
  lemma ExpansionIsKeySchedule(key: seq<bv8>)
    requires |key| == 16 || |key| == 24 || |key| == 32
    ensures IsKeySchedule(Expansion(key, |key| / 4, |key| + 28), key)
  {
    var nk := |key| / 4;
    var words := Expansion(key, nk, |key| + 28);
    ExpansionExpands(key, nk, |key| + 28);
    forall i, j | 0 <= i < nk && 0 <= j < 4
      ensures words[i][j] == key[4 * i..][j]
    {
      assert words[i] == key[4 * i..4 * i + 4];
    }
    hide Expansion, IsNextWord, Expands;
    forall i | nk <= i < |words|
      ensures IsNextWord(words, i, nk)
    {
      NextWordMeans(words, key, nk, i);
    }
  }

  /** Round key r is words 4 r to 4 r + 3 of the key schedule. */
  ghost predicate HasKeysOf(sch: Schedule, words: seq<Word>) {
    && |words| == 4 * (sch.rounds + 1)
    && forall r, j :: 0 <= r <= sch.rounds && 0 <= j < 16 ==> sch.keys(r)[j] == words[4 * r + j / 4][j % 4]
  }

  lemma ScheduleHasKeys(words: seq<Word>, rounds: nat)
    requires |words| == 4 * (rounds + 1)
    ensures HasKeysOf(KeySchedule(words, rounds), words)
  {
  }

  ghost predicate IsCipherOf(sch: Schedule, key: seq<bv8>) {
    exists words :: IsKeySchedule(words, key) && HasKeysOf(sch, words)
  }

  /** _expand_key. */
  method ExpandKey(key: seq<bv8>) returns (words: seq<Word>)
    requires |key| == 16 || |key| == 24 || |key| == 32
    ensures words == Expansion(key, |key| / 4, 4 * (|key| / 4 + 7))
  {
    var nk := |key| / 4;
    words := seq(nk, i requires 0 <= i < nk => key[4 * i..4 * i + 4]);
    for i := nk to 4 * (nk + 7)
      invariant words == Expansion(key, nk, i)
    {
      RconSuffices(i, nk);
      hide Temp, XorWord;
      words := words + [XorWord(words[i - nk], Temp(words[i - 1], i, nk))];
    }
  }

  /** The round keys the block functions slice out of the expanded words. */
  function KeySchedule(words: seq<Word>, rounds: nat): Schedule {
    Schedule(rounds, (r: nat) => if 4 * r + 4 <= |words| then Flatten(words[4 * r..4 * r + 4]) else seq(16, i => 0))
  }

  lemma ScheduleRounds(words: seq<Word>, rounds: nat)
    ensures KeySchedule(words, rounds).rounds == rounds
  {
  }

  datatype Error = BadKeyLength | BadBlockLength | BadIvLength | BadCiphertextLength | BadPadding | TooShort | BadTag

  datatype Result<+T> = Ok(value: T) | Err(error: Error)

  /** AES.__init__. */
  function CipherFor(key: seq<bv8>): Result<Schedule> {
    if |key| != 16 && |key| != 24 && |key| != 32 then Err(BadKeyLength)
    else
      var nk := |key| / 4;
      Ok(KeySchedule(Expansion(key, nk, 4 * (nk + 7)), nk + 6))
  }

  lemma CipherIsCipher(key: seq<bv8>)
    requires CipherFor(key).Ok?
    ensures IsCipherOf(CipherFor(key).value, key)
  {
    hide Expansion, IsKeySchedule, KeySchedule, HasKeysOf;
    ExpansionIsKeySchedule(key);
    ScheduleHasKeys(Expansion(key, |key| / 4, |key| + 28), |key| / 4 + 6);
    ScheduleRounds(Expansion(key, |key| / 4, |key| + 28), |key| / 4 + 6);
  }

  /** AES.__init__ with its loop. */
  method NewCipher(key: seq<bv8>) returns (r: Result<Schedule>)
    ensures r == CipherFor(key)
    ensures r.Ok? <==> |key| == 16 || |key| == 24 || |key| == 32
    ensures r.Ok? ==> IsCipherOf(r.value, key)
    ensures r.Ok? ==> r.value.rounds == if |key| == 16 then 10 else if |key| == 24 then 12 else 14
  {
    if |key| != 16 && |key| != 24 && |key| != 32 {
      return Err(BadKeyLength);
    }
    hide Expansion, KeySchedule, IsCipherOf;
    var words := ExpandKey(key);
    ScheduleRounds(words, |key| / 4 + 6);
    CipherIsCipher(key);
    return Ok(KeySchedule(words, |key| / 4 + 6));
  }

  // ----- The loops over the rounds -----

  /** _add_round_key on a fresh copy of the state. */
  method AddKey(s: Block, k: Block) returns (out: Block)
    ensures out == XorBlock(s, k)
  {
    var state := new bv8[16](i requires 0 <= i < 16 => s[i]);
    assert state[..] == s;
    var words := [k[0..4], k[4..8], k[8..12], k[12..16]];
    assert Flatten(words) == k;
    hide XorBlock, Flatten;
    AddRoundKey(state, words);
    out := state[..];
  }

  /** encrypt_block. */
  method EncryptBlock(sch: Schedule, block: seq<bv8>) returns (r: Result<Block>)
    ensures r == if |block| != 16 then Err(BadBlockLength) else Ok(Encrypt(sch, block))
    ensures r.Ok? ==> Enciphers(sch, block, r.value)
  {
    if |block| != 16 {
      return Err(BadBlockLength);
    }
    EncryptEnciphers(sch, block);
    hide Enciphers;
    hide SubBytes, ShiftRows, MixColumns, XorBlock;
    var state := AddKey(block, sch.keys(0));
    for rnd := 1 to sch.rounds + 1
      invariant EncryptFrom(sch, state, rnd) == Encrypt(sch, block)
    {
      var t := ShiftRows(SubBytes(state));
      if rnd != sch.rounds {
        t := MixColumnsLoop(t, true);
      }
      state := AddKey(t, sch.keys(rnd));
    }
    return Ok(state);
  }

  /** The first half of undoing round r: its key and its column mixing. */
  function HalfUndone(sch: Schedule, s: Block, r: nat): Block {
    var t := XorBlock(s, sch.keys(r));
    if r != sch.rounds then InvMixColumns(t) else t
  }

  /** decrypt_block: each turn of its loop finishes one round's undoing and starts the next. */
  method DecryptBlock(sch: Schedule, block: seq<bv8>) returns (r: Result<Block>)
    requires sch.rounds > 0
    ensures r == if |block| != 16 then Err(BadBlockLength) else Ok(Decrypt(sch, block))
    ensures r.Ok? ==> Enciphers(sch, r.value, block)
  {
    if |block| != 16 {
      return Err(BadBlockLength);
    }
    hide InvSubBytes, InvShiftRows, InvMixColumns, XorBlock, Enciphers;
    var state := AddKey(block, sch.keys(sch.rounds));
    var rnd: nat := sch.rounds;
    while rnd > 0
      invariant rnd <= sch.rounds
      invariant rnd > 0 ==> state == HalfUndone(sch, DecryptDownTo(sch, block, rnd + 1), rnd)
      invariant rnd == 0 ==> state == Decrypt(sch, block)
    {
      rnd := rnd - 1;
      state := InvSubBytes(InvShiftRows(state));
      assert state == DecryptDownTo(sch, block, rnd + 1);
      state := AddKey(state, sch.keys(rnd));
      if rnd != 0 {
        state := MixColumnsLoop(state, false);
      }
    }
    hide *;
    DecryptDeciphers(sch, block);
    return Ok(state);
  }
}
