/** The whole Argon2 computation between its first blocks and its final block (authlab/passwords/argon2.py). */
module Argon2 {
  import opened NumberTheory
  import opened Argon2Mix
  import opened Argon2Schedule
  import Argon2Standard

  const TEACHING_MAX_MEMORY := 1024

  function ZeroBlock(): Block {
    seq(128, i => 0)
  }

  // ----- _address_block -----

  function AsWord(n: nat): Word {
    n % TWO64
  }

  function VariantNumber(v: Variant): Word {
    match v
    case TypeD => 0
    case TypeI => 1
    case TypeId => 2
  }

  /** The input of the address generator. */
  function Counter(ctx: Context, blockIndex: nat, pass: nat, lane: nat, slice: nat): Block {
    [AsWord(pass), AsWord(lane), AsWord(slice), AsWord(ctx.lanes * ctx.columns), AsWord(ctx.passes),
     VariantNumber(ctx.variant), AsWord(blockIndex)] + seq(121, i => 0)
  }

  function AddressBlock(ctx: Context, blockIndex: nat, pass: nat, lane: nat, slice: nat): Block {
    Compress(ZeroBlock(), Compress(ZeroBlock(), Counter(ctx, blockIndex, pass, lane, slice), ZeroBlock(), false), ZeroBlock(), false)
  }

  method ListOf(b: Block) returns (words: array<Word>)
    ensures fresh(words) && words.Length == 128 && words[..] == b
  {
    words := new Word[128](i requires 0 <= i < 128 => b[i]);
  }

  method ComputeAddressBlock(ctx: Context, blockIndex: nat, pass: nat, lane: nat, slice: nat) returns (result: array<Word>)
    ensures fresh(result) && result.Length == 128
    ensures result[..] == AddressBlock(ctx, blockIndex, pass, lane, slice)
  {
    hide Counter, Compress, ZeroBlock;
    var counter := ListOf(Counter(ctx, blockIndex, pass, lane, slice));
    var zero := ListOf(ZeroBlock());
    var first := ListOf(ZeroBlock());
    CompressInto(zero, counter, first, false);
    result := ListOf(ZeroBlock());
    CompressInto(zero, first, result, false);
  }

  /** The bounds that packing the parameters into 32 bits enforces. */
  predicate Packed(ctx: Context) {
    Valid(ctx) && ctx.lanes * ctx.columns < TWO32 && ctx.passes < TWO32
  }

  lemma PlaceFitsWords(ctx: Context, p: Place)
    requires Packed(ctx) && Visited(ctx, p) && p.pass < ctx.passes
    ensures p.lane < TWO32 && p.index / 128 + 1 < TWO32
  {
    MulMonotone(ctx.lanes, 1, ctx.columns);
    MulMonotone(ctx.columns, 1, ctx.lanes);
  }

  /** The counter block: where the place stands in the computation, and zeros. */
  lemma CounterWords(ctx: Context, blockIndex: nat, pass: nat, lane: nat, slice: nat)
    requires blockIndex < TWO64 && pass < TWO64 && lane < TWO64 && slice < TWO64
    ensures var c := Counter(ctx, blockIndex, pass, lane, slice);
      && c[0] == pass && c[1] == lane && c[2] == slice && c[6] == blockIndex
      && (Packed(ctx) ==> c[3] == ctx.lanes * ctx.columns && c[4] == ctx.passes)
      && c[5] == (match ctx.variant case TypeD => 0 case TypeI => 1 case TypeId => 2)
      && forall i :: 7 <= i < 128 ==> c[i] == 0
  {
  }

  /** No two address blocks of a computation have the same input: it tells pass, lane, slice and block number apart. */
  lemma CountersDiffer(ctx: Context, p: Place, q: Place)
    requires Packed(ctx) && Visited(ctx, p) && Visited(ctx, q) && p.pass < ctx.passes && q.pass < ctx.passes
    requires Counter(ctx, p.index / 128 + 1, p.pass, p.lane, p.slice) == Counter(ctx, q.index / 128 + 1, q.pass, q.lane, q.slice)
    ensures p.pass == q.pass && p.lane == q.lane && p.slice == q.slice && p.index / 128 == q.index / 128
  {
    hide Counter;
    PlaceFitsWords(ctx, p);
    PlaceFitsWords(ctx, q);
    CounterWords(ctx, p.index / 128 + 1, p.pass, p.lane, p.slice);
    CounterWords(ctx, q.index / 128 + 1, q.pass, q.lane, q.slice);
  }

  function FirstWord(b: Block): Word {
    b[0]
  }

  /** The compression and the addresses of argon2. */
  const CORE: Core<Block> := Core(Compress, FirstWord, AddressBlock)

  // ----- argon2 -----

  /** The cost parameters and the lengths of the byte strings. */
  datatype Request = Request(
    timeCost: int, memoryCost: int, parallelism: int, tagLength: int, variant: int, allowSlow: bool,
    password: nat, salt: nat, secret: nat, associated: nat)

  predicate Acceptable(q: Request) {
    && q.parallelism >= 1 && q.timeCost >= 1 && q.memoryCost >= 8 * q.parallelism && q.tagLength >= 4 && q.salt >= 8
    && 0 <= q.variant <= 2 && (q.memoryCost > TEACHING_MAX_MEMORY ==> q.allowSlow)
  }

  /** struct.pack refuses numbers of more than 32 bits. */
  predicate Packs(q: Request) {
    && q.parallelism < TWO32 && q.tagLength < TWO32 && q.memoryCost < TWO32 && q.timeCost < TWO32
    && q.password < TWO32 && q.salt < TWO32 && q.secret < TWO32 && q.associated < TWO32
  }

  function Shape(q: Request): (ctx: Context)
    requires Acceptable(q)
    ensures Valid(ctx) && (Packs(q) ==> Packed(ctx))
  {
    ContextFor(q.memoryCost, q.parallelism, q.timeCost, if q.variant == 0 then TypeD else if q.variant == 1 then TypeI else TypeId)
  }

  /** The first two columns come from the input hash, the rest is zero. */
  function FirstMemory(ctx: Context, first: (nat, nat) -> Block): (mem: seq<Block>)
    requires Valid(ctx)
    ensures Fits(ctx, mem)
  {
    seq(ctx.lanes * ctx.columns, (i: nat) => FirstBlock(ctx.columns, first, i))
  }

  function FirstBlock(columns: nat, first: (nat, nat) -> Block, i: nat): Block {
    if columns > 0 && i % columns < 2 then first(i / columns, i % columns) else ZeroBlock()
  }

  /** The exclusive or of the last blocks of the first `lanes` lanes. */
  function LastColumn(ctx: Context, mem: seq<Block>, lanes: nat): Block
    requires Fits(ctx, mem) && 1 <= lanes <= ctx.lanes
  {
    var last := BlockAt(ctx, mem, lanes - 1, ctx.columns - 1);
    if lanes == 1 then last else XorBlocks(LastColumn(ctx, mem, lanes - 1), last)
  }

  datatype Outcome = ParameterError | StructError | Final(block: Block)

  /** The first blocks are there up to this lane and column; the rest is zero. */
  ghost predicate Stored(ctx: Context, first: (nat, nat) -> Block, mem: seq<Block>, lane: nat, column: nat)
    requires Valid(ctx)
  {
    && |mem| == ctx.lanes * ctx.columns
    && forall i :: 0 <= i < |mem| ==> mem[i] == StoredBlock(ctx.columns, first, lane, column, i)
  }

  function StoredBlock(columns: nat, first: (nat, nat) -> Block, lane: nat, column: nat, i: nat): Block
    requires columns > 0
  {
    if i / columns < lane || (i / columns == lane && i % columns < column) then FirstBlock(columns, first, i) else ZeroBlock()
  }

  lemma StoreStep(ctx: Context, first: (nat, nat) -> Block, mem: seq<Block>, lane: nat, column: nat)
    requires Valid(ctx) && Stored(ctx, first, mem, lane, column) && lane < ctx.lanes && column < 2
    ensures Cell(ctx, lane, column) < |mem|
    ensures Stored(ctx, first, mem[Cell(ctx, lane, column) := first(lane, column)], lane, column + 1)
  {
    CellInMemory(ctx, lane, column);
    var next := mem[Cell(ctx, lane, column) := first(lane, column)];
    forall i | 0 <= i < |next|
      ensures next[i] == StoredBlock(ctx.columns, first, lane, column + 1, i)
    {
      StoreOne(ctx, first, lane, column, i);
    }
  }

  lemma StoreOne(ctx: Context, first: (nat, nat) -> Block, lane: nat, column: nat, i: nat)
    requires Valid(ctx) && column < 2
    ensures StoredBlock(ctx.columns, first, lane, column + 1, i)
      == if i == Cell(ctx, lane, column) then first(lane, column) else StoredBlock(ctx.columns, first, lane, column, i)
  {
    hide ZeroBlock;
    if i == Cell(ctx, lane, column) {
      ModUnique(i, ctx.columns, lane, column);
    } else if i / ctx.columns == lane && i % ctx.columns == column {
      DivMod(i, ctx.columns);
      assert false;
    }
  }

  lemma DivMod(i: nat, n: nat)
    requires n > 0
    ensures i == i / n * n + i % n
  {
  }

  lemma NextLane(ctx: Context, first: (nat, nat) -> Block, mem: seq<Block>, lane: nat)
    requires Valid(ctx) && Stored(ctx, first, mem, lane, 2)
    ensures Stored(ctx, first, mem, lane + 1, 0)
  {
    hide ZeroBlock;
  }

  lemma NothingStored(ctx: Context, first: (nat, nat) -> Block, mem: seq<Block>)
    requires Valid(ctx) && |mem| == ctx.lanes * ctx.columns && forall i :: 0 <= i < |mem| ==> mem[i] == ZeroBlock()
    ensures Stored(ctx, first, mem, 0, 0)
  {
    hide ZeroBlock;
  }

  lemma AllStored(ctx: Context, first: (nat, nat) -> Block, mem: seq<Block>)
    requires Valid(ctx) && Stored(ctx, first, mem, ctx.lanes, 0)
    ensures mem == FirstMemory(ctx, first)
  {
    hide ZeroBlock;
    forall i | 0 <= i < |mem|
      ensures mem[i] == FirstMemory(ctx, first)[i]
    {
      RowOf(ctx, i);
    }
  }

  method StoreFirst(ctx: Context, first: (nat, nat) -> Block) returns (memory: array<Block>)
    requires Valid(ctx)
    ensures fresh(memory) && memory[..] == FirstMemory(ctx, first)
  {
    hide Stored, ZeroBlock, FirstMemory, Cell;
    memory := new Block[ctx.lanes * ctx.columns](i => ZeroBlock());
    NothingStored(ctx, first, memory[..]);
    for lane := 0 to ctx.lanes
      invariant Stored(ctx, first, memory[..], lane, 0)
    {
      for column := 0 to 2
        invariant Stored(ctx, first, memory[..], lane, column)
      {
        StoreStep(ctx, first, memory[..], lane, column);
        memory[Cell(ctx, lane, column)] := first(lane, column);
      }
      NextLane(ctx, first, memory[..], lane);
    }
    AllStored(ctx, first, memory[..]);
  }

  lemma RowOf(ctx: Context, i: nat)
    requires Valid(ctx) && i < ctx.lanes * ctx.columns
    ensures i / ctx.columns < ctx.lanes
  {
    var l, c := CellOf(ctx, i);
    ModUnique(i, ctx.columns, l, c);
  }

  method XorInto(final: array<Word>, other: Block)
    requires final.Length == 128
    modifies final
    ensures final[..] == XorBlocks(old(final[..]), other)
  {
    for i := 0 to 128
      invariant forall j :: 0 <= j < i ==> final[j] == XorWord(old(final[j]), other[j])
      invariant forall j :: i <= j < 128 ==> final[j] == old(final[j])
    {
      final[i] := XorWord(final[i], other[i]);
    }
  }

  method FinalBlock(ctx: Context, memory: array<Block>) returns (final: array<Word>)
    requires Fits(ctx, memory[..])
    ensures fresh(final) && final[..] == LastColumn(ctx, memory[..], ctx.lanes)
  {
    CellInMemory(ctx, 0, ctx.columns - 1);
    var start := memory[Cell(ctx, 0, ctx.columns - 1)];
    final := new Word[128](i requires 0 <= i < 128 => start[i]);
    assert final[..] == start;
    for lane := 1 to ctx.lanes
      invariant final[..] == LastColumn(ctx, memory[..], lane)
    {
      CellInMemory(ctx, lane, ctx.columns - 1);
      XorInto(final, memory[Cell(ctx, lane, ctx.columns - 1)]);
    }
  }

  /** The hashed blocks stand in the first two columns, and zeros everywhere else. */
  lemma FirstMemoryMeans(ctx: Context, first: (nat, nat) -> Block, lane: nat, column: nat)
    requires Valid(ctx) && lane < ctx.lanes && column < ctx.columns
    ensures BlockAt(ctx, FirstMemory(ctx, first), lane, column) == if column < 2 then first(lane, column) else seq(128, i => 0)
  {
    CellInMemory(ctx, lane, column);
    ModUnique(Cell(ctx, lane, column), ctx.columns, lane, column);
  }

  /** How many of the last blocks of these lanes have the bit. */
  function OnesIn(ctx: Context, mem: seq<Block>, lanes: nat, word: nat, bit: nat): nat
    requires Fits(ctx, mem) && lanes <= ctx.lanes && word < 128
  {
    if lanes == 0 then 0
    else OnesIn(ctx, mem, lanes - 1, word, bit) + BitOf(BlockAt(ctx, mem, lanes - 1, ctx.columns - 1)[word], bit)
  }

  /** A bit of the final block is the parity of that bit over the last blocks of all lanes. */
  lemma {:induction false} LastColumnMeans(ctx: Context, mem: seq<Block>, lanes: nat, word: nat, bit: nat)
    requires Fits(ctx, mem) && 1 <= lanes <= ctx.lanes && word < 128
    ensures BitOf(LastColumn(ctx, mem, lanes)[word], bit) == OnesIn(ctx, mem, lanes, word, bit) % 2
  {
    hide BitOf, Xor;
    if lanes > 1 {
      LastColumnMeans(ctx, mem, lanes - 1, word, bit);
      Argon2Standard.XorBits(LastColumn(ctx, mem, lanes - 1)[word], BlockAt(ctx, mem, lanes - 1, ctx.columns - 1)[word], bit);
    } else {
      OneBit(BlockAt(ctx, mem, 0, ctx.columns - 1)[word], bit);
      assert OnesIn(ctx, mem, 0, word, bit) == 0;
    }
  }

  lemma OneBit(x: nat, k: nat)
    ensures 0 <= BitOf(x, k) < 2
  {
  }

  // ----- The sequential schedule -----

  /** Each of the lanes in turn, `turns` times. */
  ghost function LaneByLane(lanes: nat, turns: nat): seq<nat> {
    if lanes == 0 then [] else LaneByLane(lanes - 1, turns) + seq(turns, i => lanes - 1)
  }

  lemma {:induction false} MovesAppend(a: seq<nat>, b: seq<nat>, lane: nat)
    ensures Moves(a + b, lane) == Moves(a, lane) + Moves(b, lane)
  {
    if a == [] {
      assert a + b == b;
    } else {
      MovesAppend(a[1..], b, lane);
      assert (a + b)[1..] == a[1..] + b;
    }
  }

  lemma {:induction false} MovesRepeat(turns: nat, l: nat, lane: nat)
    ensures Moves(seq(turns, i => l), lane) == if l == lane then turns else 0
  {
    if turns > 0 {
      assert seq(turns, i => l)[1..] == seq(turns - 1, i => l);
      MovesRepeat(turns - 1, l, lane);
    }
  }

  lemma {:induction false} LaneByLaneMoves(lanes: nat, turns: nat, lane: nat)
    ensures Moves(LaneByLane(lanes, turns), lane) == if lane < lanes then turns else 0
    ensures forall i :: 0 <= i < |LaneByLane(lanes, turns)| ==> LaneByLane(lanes, turns)[i] < lanes
  {
    if lanes > 0 {
      LaneByLaneMoves(lanes - 1, turns, lane);
      MovesRepeat(turns, lanes - 1, lane);
      MovesAppend(LaneByLane(lanes - 1, turns), seq(turns, i => lanes - 1), lane);
    }
  }

  ghost function Sequential(ctx: Context): (nat, nat) -> seq<nat> {
    (pass, slice) => LaneByLane(ctx.lanes, if Start(pass, slice) <= ctx.segment then ctx.segment - Start(pass, slice) else 0)
  }

  /** The sequential execution is one of the complete schedules. */
  lemma SequentialCompletes(ctx: Context)
    requires Valid(ctx)
    ensures CompleteSchedule(ctx, Sequential(ctx))
  {
    var schedule := Sequential(ctx);
    forall pass: nat, slice: nat | slice < SYNC_POINTS
      ensures Finishes(ctx, AtStart(ctx, pass, slice), schedule(pass, slice))
    {
      var turns: nat := ctx.segment - Start(pass, slice);
      forall l | 0 <= l < ctx.lanes
        ensures AtStart(ctx, pass, slice)[l] + Moves(schedule(pass, slice), l) == ctx.segment
      {
        LaneByLaneMoves(ctx.lanes, turns, l);
      }
      LaneByLaneMoves(ctx.lanes, turns, 0);
    }
  }

  /** The final block under a schedule. */
  ghost function FinalUnder(ctx: Context, first: (nat, nat) -> Block, schedule: (nat, nat) -> seq<nat>): Block
    requires Valid(ctx) && CompleteSchedule(ctx, schedule)
  {
    LastColumn(ctx, RunSlices(CORE, ctx, FirstMemory(ctx, first), schedule, SYNC_POINTS * ctx.passes), ctx.lanes)
  }

  ghost predicate EveryScheduleEndsIn(ctx: Context, first: (nat, nat) -> Block, block: Block)
    requires Valid(ctx)
  {
    forall schedule: (nat, nat) -> seq<nat> :: CompleteSchedule(ctx, schedule) ==> FinalUnder(ctx, first, schedule) == block
  }

  /** Argon2's own compression: every parallel execution that keeps the barriers ends in the same final block. */
  lemma FinalBlockAgrees(ctx: Context, first: (nat, nat) -> Block, a: (nat, nat) -> seq<nat>, b: (nat, nat) -> seq<nat>)
    requires Valid(ctx) && CompleteSchedule(ctx, a) && CompleteSchedule(ctx, b)
    ensures FinalUnder(ctx, first, a) == FinalUnder(ctx, first, b)
  {
    SchedulesAgree(CORE, ctx, FirstMemory(ctx, first), a, b, SYNC_POINTS * ctx.passes);
  }

  lemma SequentialSpeaksForAll(ctx: Context, first: (nat, nat) -> Block)
    requires Valid(ctx)
    ensures CompleteSchedule(ctx, Sequential(ctx)) && EveryScheduleEndsIn(ctx, first, FinalUnder(ctx, first, Sequential(ctx)))
  {
    SequentialCompletes(ctx);
    forall schedule | CompleteSchedule(ctx, schedule)
      ensures FinalUnder(ctx, first, schedule) == FinalUnder(ctx, first, Sequential(ctx))
    {
      FinalBlockAgrees(ctx, first, Sequential(ctx), schedule);
    }
  }

  /**
   argon2 up to the hashing, where `first` gives the words of the two hashed blocks of each lane: the sequential
   loops end in the final block of every parallel execution that keeps the barriers.
   */
  method Compute(q: Request, first: (nat, nat) -> Block) returns (r: Outcome)
    ensures r.ParameterError? <==> !Acceptable(q)
    ensures r.StructError? <==> Acceptable(q) && !Packs(q)
    ensures r.Final? ==> EveryScheduleEndsIn(Shape(q), first, r.block)
  {
    if !Acceptable(q) {
      return ParameterError;
    }
    if !Packs(q) {
      return StructError;
    }
    var ctx := Shape(q);
    var memory := StoreFirst(ctx, first);
    SequentialSpeaksForAll(ctx, first);
    FillMemory(CORE, ctx, memory, Sequential(ctx));
    var final := FinalBlock(ctx, memory);
    r := Final(final[..]);
  }
}
