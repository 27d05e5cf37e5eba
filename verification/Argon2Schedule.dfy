/**
 The Argon2 memory schedule: which block each step reads, and why the lanes of one slice may run in any
 order or interleaving (authlab/passwords/argon2.py).
 */
module Argon2Schedule {
  import opened NumberTheory
  import opened Argon2Mix

  const SYNC_POINTS := 4

  datatype Variant = TypeD | TypeI | TypeId

  datatype Context = Context(lanes: nat, columns: nat, segment: nat, passes: nat, variant: Variant)

  /** What argon2's parameter checks and rounding establish before any block is filled. */
  predicate Valid(ctx: Context) {
    ctx.lanes >= 1 && ctx.segment >= 2 && ctx.columns == SYNC_POINTS * ctx.segment
  }

  /** The shape argon2 computes from its cost parameters. */
  function ContextFor(memoryCost: nat, parallelism: nat, timeCost: nat, variant: Variant): (ctx: Context)
    requires parallelism >= 1 && memoryCost >= 8 * parallelism
    ensures Valid(ctx) && ctx.lanes == parallelism && ctx.passes == timeCost && ctx.variant == variant
    ensures ctx.lanes * ctx.columns <= memoryCost < ctx.lanes * ctx.columns + SYNC_POINTS * parallelism
  {
    var unit := SYNC_POINTS * parallelism;
    var blocks := memoryCost / unit * unit;
    ShapeIsValid(memoryCost, parallelism);
    Context(parallelism, blocks / parallelism, blocks / parallelism / SYNC_POINTS, timeCost, variant)
  }

  lemma ShapeIsValid(memoryCost: nat, parallelism: nat)
    requires parallelism >= 1 && memoryCost >= 8 * parallelism
    ensures var blocks := memoryCost / (SYNC_POINTS * parallelism) * (SYNC_POINTS * parallelism);
      var columns := blocks / parallelism;
      && columns >= 8 && columns == 4 * (columns / 4) && parallelism * columns == blocks
      && blocks <= memoryCost < blocks + SYNC_POINTS * parallelism
  {
    var unit := 4 * parallelism;
    var q := memoryCost / unit;
    assert memoryCost == unit * q + memoryCost % unit;
    if q < 2 {
      MulMonotone(unit, q, 1);
    }
    assert q * unit == parallelism * (4 * q);
    ModUnique(q * unit, parallelism, 4 * q, 0);
  }

  /** The compression function and its uses; nothing below depends on what they compute. */
  datatype Core<!B> = Core(
    compress: (B, B, B, bool) -> B,
    firstWord: B -> Word,
    addressBlock: (Context, nat, nat, nat, nat) -> Block)

  /** One step of the fill loop. */
  datatype Place = Place(pass: nat, slice: nat, lane: nat, index: nat)

  /** The places the loops visit. */
  predicate Visited(ctx: Context, p: Place) {
    && p.slice < SYNC_POINTS && p.lane < ctx.lanes
    && Start(p.pass, p.slice) <= p.index < ctx.segment
  }

  function Start(pass: nat, slice: nat): nat {
    if pass == 0 && slice == 0 then 2 else 0
  }

  function Column(ctx: Context, p: Place): nat {
    p.slice * ctx.segment + p.index
  }

  function Cell(ctx: Context, lane: nat, column: nat): nat {
    lane * ctx.columns + column
  }

  predicate InSlice(ctx: Context, slice: nat, column: nat) {
    slice * ctx.segment <= column < (slice + 1) * ctx.segment
  }

  lemma CellInMemory(ctx: Context, lane: nat, column: nat)
    requires lane < ctx.lanes && column < ctx.columns
    ensures Cell(ctx, lane, column) < ctx.lanes * ctx.columns
  {
    MulMonotone(ctx.columns, lane + 1, ctx.lanes);
  }

  lemma CellUnique(ctx: Context, l: nat, c: nat, l': nat, c': nat)
    requires c < ctx.columns && c' < ctx.columns && Cell(ctx, l, c) == Cell(ctx, l', c')
    ensures l == l' && c == c'
  {
    ModUnique(Cell(ctx, l, c), ctx.columns, l, c);
    ModUnique(Cell(ctx, l', c'), ctx.columns, l', c');
  }

  /** The place is visited and fills this block. */
  predicate Fills(ctx: Context, p: Place, pass: nat, lane: nat, column: nat) {
    Visited(ctx, p) && p.pass == pass && p.lane == lane && Column(ctx, p) == column
  }

  /** Each pass visits every column of every lane once, but for the first two of the first pass, which the input hash fills. */
  lemma PlacesCover(ctx: Context, pass: nat, lane: nat, column: nat)
    requires Valid(ctx) && lane < ctx.lanes && column < ctx.columns
    ensures (exists p :: Fills(ctx, p, pass, lane, column)) <==> !(pass == 0 && column < 2)
    ensures forall p, q :: Fills(ctx, p, pass, lane, column) && Fills(ctx, q, pass, lane, column) ==> p == q
  {
    var slice, index := column / ctx.segment, column % ctx.segment;
    assert column == ctx.segment * slice + index;
    if slice >= SYNC_POINTS {
      MulMonotone(ctx.segment, SYNC_POINTS, slice);
    }
    var it := Place(pass, slice, lane, index);
    assert Column(ctx, it) == column;
    if !(pass == 0 && column < 2) {
      assert Fills(ctx, it, pass, lane, column);
    }
    forall p | Fills(ctx, p, pass, lane, column)
      ensures p == it
    {
      assert column == ctx.segment * p.slice + p.index;
      ModUnique(column, ctx.segment, p.slice, p.index);
    }
  }

  // ----- _reference_index -----

  /** The number of blocks the reference may be chosen from. */
  function Area(ctx: Context, p: Place, sameLane: bool): int {
    if p.pass == 0 then
      if p.slice == 0 then p.index - 1
      else if sameLane then p.slice * ctx.segment + p.index - 1
      else p.slice * ctx.segment - (if p.index == 0 then 1 else 0)
    else if sameLane then ctx.columns - ctx.segment + p.index - 1
    else ctx.columns - ctx.segment - (if p.index == 0 then 1 else 0)
  }

  function ReferenceLane(ctx: Context, j2: nat, p: Place): nat
    requires Valid(ctx)
  {
    if p.pass == 0 && p.slice == 0 then p.lane else j2 % ctx.lanes
  }

  function ReferenceColumn(ctx: Context, j1: nat, p: Place, sameLane: bool): nat
    requires Valid(ctx)
  {
    var area := Area(ctx, p, sameLane);
    var relative := area - 1 - (area * (j1 * j1 / TWO32)) / TWO32;
    var start := if p.pass == 0 || p.slice == SYNC_POINTS - 1 then 0 else (p.slice + 1) * ctx.segment;
    (start + relative) % ctx.columns
  }

  // The quadratic bias always stays inside the window.
  lemma BiasInWindow(area: int, j1: nat)
    requires area >= 1 && j1 < TWO32
    ensures 0 <= (area * (j1 * j1 / TWO32)) / TWO32 <= area - 1
  {
    MulMonotone(j1, j1, TWO32 - 1);
    MulMonotone(TWO32, j1, TWO32 - 1);
    var x := j1 * j1 / TWO32;
    assert 0 <= x <= TWO32 - 1;
    MulMonotone(area, 0, x);
    MulMonotone(area, x, TWO32 - 1);
    assert area * (TWO32 - 1) < TWO32 * area;
  }

  /**
   The reference block is never the one being written, never in another lane's current slice, and in the
   first pass it has already been written.
   */
  lemma ReferenceIsSafe(ctx: Context, j1: nat, j2: nat, p: Place)
    requires Valid(ctx) && Visited(ctx, p) && j1 < TWO32
    ensures var lane := ReferenceLane(ctx, j2, p);
      var column := ReferenceColumn(ctx, j1, p, lane == p.lane);
      && lane < ctx.lanes && column < ctx.columns
      && (lane == p.lane ==> column != Column(ctx, p))
      && (lane != p.lane ==> !InSlice(ctx, p.slice, column))
      && (p.pass == 0 ==> column < p.slice * ctx.segment || (lane == p.lane && column < Column(ctx, p)))
  {
    var lane := ReferenceLane(ctx, j2, p);
    var same := lane == p.lane;
    var area := Area(ctx, p, same);
    var start := if p.pass == 0 || p.slice == 3 then 0 else (p.slice + 1) * ctx.segment;
    SliceCases(ctx, p.slice);
    BiasInWindow(area, j1);
    var relative := area - 1 - (area * (j1 * j1 / TWO32)) / TWO32;
    Wrap(start + relative, ctx.columns);
  }

  lemma SliceCases(ctx: Context, slice: nat)
    requires slice < SYNC_POINTS
    ensures slice * ctx.segment == if slice == 0 then 0 else if slice == 1 then ctx.segment
      else if slice == 2 then 2 * ctx.segment else 3 * ctx.segment
    ensures (slice + 1) * ctx.segment == slice * ctx.segment + ctx.segment
  {
  }

  lemma Wrap(x: int, n: nat)
    requires 0 <= x < 2 * n
    ensures x % n == if x < n then x else x - n
  {
    ModUnique(x, n, if x < n then 0 else 1, if x < n then x else x - n);
  }

  // ----- Which block that is: section 3.4.1.2 of RFC 9106 -----

  /** The columns of a lane that a step may refer to: written, not in the unfinished part of the slice, not the previous block. */
  predicate InWindow(ctx: Context, p: Place, sameLane: bool, c: nat)
    requires Valid(ctx)
  {
    && c < ctx.columns
    && (InSlice(ctx, p.slice, c) ==> sameLane && c < Column(ctx, p))
    && (p.pass == 0 ==> c < Column(ctx, p))
    && c != (Column(ctx, p) - 1) % ctx.columns
  }

  function Window(ctx: Context, p: Place, sameLane: bool): set<nat>
    requires Valid(ctx)
  {
    set c: nat | c < ctx.columns && InWindow(ctx, p, sameLane, c)
  }

  /** The order of writing: what is ahead of the current column was written in the pass before. */
  predicate Older(ctx: Context, p: Place, a: nat, b: nat) {
    Time(ctx, p, a) < Time(ctx, p, b)
  }

  function Time(ctx: Context, p: Place, c: nat): nat {
    if c < Column(ctx, p) then ctx.columns + c else c
  }

  /** The column with exactly z columns of the window older than it. */
  ghost predicate IsNth(ctx: Context, p: Place, sameLane: bool, z: nat, c: nat)
    requires Valid(ctx)
  {
    InWindow(ctx, p, sameLane, c) && |set o | o in Window(ctx, p, sameLane) && Older(ctx, p, o, c)| == z
  }

  /** The window from the oldest column on. */
  function NthColumn(ctx: Context, p: Place, k: nat): nat
    requires Valid(ctx)
  {
    ((if p.pass == 0 || p.slice == SYNC_POINTS - 1 then 0 else (p.slice + 1) * ctx.segment) + k) % ctx.columns
  }

  /** An own lane always has a window; another lane has one once a slice is finished. */
  predicate Referable(p: Place, sameLane: bool) {
    p.pass == 0 && p.slice == 0 ==> sameLane
  }

  function Oldest(ctx: Context, p: Place): nat {
    if p.pass == 0 || p.slice == SYNC_POINTS - 1 then ctx.columns else (p.slice + 1) * ctx.segment
  }

  lemma NthInWindow(ctx: Context, p: Place, sameLane: bool, k: nat)
    requires Valid(ctx) && Visited(ctx, p) && Referable(p, sameLane) && k < Area(ctx, p, sameLane)
    ensures InWindow(ctx, p, sameLane, NthColumn(ctx, p, k)) && Time(ctx, p, NthColumn(ctx, p, k)) == Oldest(ctx, p) + k
  {
    SliceCases(ctx, p.slice);
    ColumnInLane(ctx, p);
    var start := if p.pass == 0 || p.slice == SYNC_POINTS - 1 then 0 else (p.slice + 1) * ctx.segment;
    Wrap(start + k, ctx.columns);
  }

  lemma WindowIsNth(ctx: Context, p: Place, sameLane: bool, c: nat)
    requires Valid(ctx) && Visited(ctx, p) && Referable(p, sameLane) && InWindow(ctx, p, sameLane, c)
    ensures 0 <= Time(ctx, p, c) - Oldest(ctx, p) < Area(ctx, p, sameLane)
    ensures NthColumn(ctx, p, Time(ctx, p, c) - Oldest(ctx, p)) == c
  {
    SliceCases(ctx, p.slice);
    ColumnInLane(ctx, p);
    var start := if p.pass == 0 || p.slice == SYNC_POINTS - 1 then 0 else (p.slice + 1) * ctx.segment;
    Wrap(start + Time(ctx, p, c) - Oldest(ctx, p), ctx.columns);
  }

  ghost function FirstColumns(ctx: Context, p: Place, n: nat): set<nat>
    requires Valid(ctx)
  {
    set k: nat | k < n :: NthColumn(ctx, p, k)
  }

  lemma {:induction false} FirstColumnsCount(ctx: Context, p: Place, sameLane: bool, n: nat)
    requires Valid(ctx) && Visited(ctx, p) && Referable(p, sameLane) && n <= Area(ctx, p, sameLane)
    ensures |FirstColumns(ctx, p, n)| == n
  {
    hide NthColumn, Time, Oldest, InWindow, Area;
    if n > 0 {
      FirstColumnsCount(ctx, p, sameLane, n - 1);
      var last := NthColumn(ctx, p, n - 1);
      NthInWindow(ctx, p, sameLane, n - 1);
      assert last !in FirstColumns(ctx, p, n - 1) by {
        forall k: nat | k < n - 1
          ensures NthColumn(ctx, p, k) != last
        {
          NthInWindow(ctx, p, sameLane, k);
        }
      }
      assert FirstColumns(ctx, p, n) == FirstColumns(ctx, p, n - 1) + {last};
    } else {
      assert FirstColumns(ctx, p, 0) == {};
    }
  }

  /** The area is the size of the window. */
  lemma AreaIsWindow(ctx: Context, p: Place, sameLane: bool)
    requires Valid(ctx) && Visited(ctx, p) && Referable(p, sameLane)
    ensures Area(ctx, p, sameLane) == |Window(ctx, p, sameLane)| > 0
  {
    AreaPositive(ctx, p, sameLane);
    var area: nat := Area(ctx, p, sameLane);
    hide NthColumn, Time, Oldest, InWindow, Area;
    FirstColumnsCount(ctx, p, sameLane, area);
    WindowInColumns(ctx, p, sameLane);
    forall c | c in FirstColumns(ctx, p, area)
      ensures c in Window(ctx, p, sameLane)
    {
      var k: nat :| k < area && NthColumn(ctx, p, k) == c;
      NthInWindow(ctx, p, sameLane, k);
    }
    forall c | c in Window(ctx, p, sameLane)
      ensures c in FirstColumns(ctx, p, area)
    {
      WindowIsNth(ctx, p, sameLane, c);
    }
    assert FirstColumns(ctx, p, area) == Window(ctx, p, sameLane);
  }

  lemma AreaPositive(ctx: Context, p: Place, sameLane: bool)
    requires Valid(ctx) && Visited(ctx, p) && Referable(p, sameLane)
    ensures Area(ctx, p, sameLane) > 0
  {
    SliceCases(ctx, p.slice);
  }

  lemma WindowInColumns(ctx: Context, p: Place, sameLane: bool)
    requires Valid(ctx)
    ensures forall c: nat :: c in Window(ctx, p, sameLane) <==> InWindow(ctx, p, sameLane, c)
  {
  }

  /** The k-th column from the oldest on has k older ones. */
  lemma NthIsNth(ctx: Context, p: Place, sameLane: bool, z: nat)
    requires Valid(ctx) && Visited(ctx, p) && Referable(p, sameLane) && z < Area(ctx, p, sameLane)
    ensures IsNth(ctx, p, sameLane, z, NthColumn(ctx, p, z))
  {
    hide NthColumn, Time, Oldest, InWindow, Area;
    var c := NthColumn(ctx, p, z);
    NthInWindow(ctx, p, sameLane, z);
    var older := set o | o in Window(ctx, p, sameLane) && Older(ctx, p, o, c);
    forall o | o in older
      ensures o in FirstColumns(ctx, p, z)
    {
      WindowInColumns(ctx, p, sameLane);
      WindowIsNth(ctx, p, sameLane, o);
    }
    forall o | o in FirstColumns(ctx, p, z)
      ensures o in older
    {
      var k: nat :| k < z && NthColumn(ctx, p, k) == o;
      NthInWindow(ctx, p, sameLane, k);
      WindowInColumns(ctx, p, sameLane);
    }
    assert older == FirstColumns(ctx, p, z);
    FirstColumnsCount(ctx, p, sameLane, z);
  }

  /** The rank that the first half of the pseudo-random word chooses, counted from the oldest. */
  predicate IsRank(area: int, j1: nat, z: int) {
    (area - 1 - z) * TWO32 <= area * (j1 * j1 / TWO32) < (area - z) * TWO32
  }

  /**
   The reference is the z-th oldest column of the window, for the z that the quadratic bias gives.
   */
  lemma ReferenceIsNth(ctx: Context, j1: nat, p: Place, sameLane: bool)
    requires Valid(ctx) && Visited(ctx, p) && Referable(p, sameLane) && j1 < TWO32
    ensures var area := |Window(ctx, p, sameLane)|;
      exists z: nat :: z < area && IsRank(area, j1, z) && IsNth(ctx, p, sameLane, z, ReferenceColumn(ctx, j1, p, sameLane))
  {
    AreaIsWindow(ctx, p, sameLane);
    var area: nat := Area(ctx, p, sameLane);
    BiasInWindow(area, j1);
    var z: nat := area - 1 - (area * (j1 * j1 / TWO32)) / TWO32;
    RankIff(area, j1, z);
    hide Area, InWindow, IsRank;
    NthIsNth(ctx, p, sameLane, z);
    assert ReferenceColumn(ctx, j1, p, sameLane) == NthColumn(ctx, p, z);
  }

  function Bias(area: int, j1: nat): int {
    area * (j1 * j1 / TWO32) / TWO32
  }

  lemma RankIff(area: int, j1: nat, z: int)
    ensures IsRank(area, j1, z) <==> z == area - 1 - Bias(area, j1)
  {
    var x := area * (j1 * j1 / TWO32);
  }

  /** The smallest j1 chooses the newest block, the largest the oldest, and the choice never gets newer as j1 grows. */
  lemma RankFalls(area: nat, j1: nat, z: int, j1': nat, z': int)
    requires area > 0 && j1 <= j1' < TWO32 && IsRank(area, j1, z) && IsRank(area, j1', z')
    ensures 0 <= z' <= z < area
    ensures j1 == 0 ==> z == area - 1
    ensures j1' == TWO32 - 1 && 2 * area <= TWO32 ==> z' == 0
  {
    RankIff(area, j1, z);
    RankIff(area, j1', z');
    BiasInWindow(area, j1');
    BiasInWindow(area, j1);
    BiasGrows(area, j1, j1');
    assert Bias(area, 0) == 0 by {
      assert area * 0 == 0;
    }
    if 2 * area <= TWO32 {
      LargestBias(area);
    }
    assert 0 <= Bias(area, j1) && Bias(area, j1') <= area - 1;
    hide Bias, IsRank;
  }

  lemma BiasGrows(area: nat, a: nat, b: nat)
    requires a <= b
    ensures Bias(area, a) <= Bias(area, b)
  {
    MulMonotone(a, a, b);
    MulMonotone(b, a, b);
    MulMonotone(area, a * a / TWO32, b * b / TWO32);
  }

  lemma LargestBias(area: nat)
    requires 0 < area && 2 * area <= TWO32
    ensures Bias(area, TWO32 - 1) == area - 1
  {
    assert (TWO32 - 1) * (TWO32 - 1) / TWO32 == TWO32 - 2;
    assert area * (TWO32 - 2) == TWO32 * (area - 1) + (TWO32 - 2 * area);
    ModUnique(area * (TWO32 - 2), TWO32, area - 1, TWO32 - 2 * area);
  }

  // ----- One step -----

  function UseIndependent(ctx: Context, p: Place): bool {
    ctx.variant == TypeI || (ctx.variant == TypeId && p.pass == 0 && p.slice < SYNC_POINTS / 2)
  }

  /** The address block current at this step: the counter grows by one every 128 steps. */
  function Addresses<B>(core: Core<B>, ctx: Context, p: Place): Block {
    core.addressBlock(ctx, p.index / 128 + 1, p.pass, p.lane, p.slice)
  }

  function PseudoRandom<B>(core: Core<B>, ctx: Context, p: Place, previous: B): Word {
    if UseIndependent(ctx, p) then Addresses(core, ctx, p)[p.index % 128] else core.firstWord(previous)
  }

  predicate Fits<B>(ctx: Context, mem: seq<B>) {
    Valid(ctx) && |mem| == ctx.lanes * ctx.columns
  }

  function BlockAt<B>(ctx: Context, mem: seq<B>, lane: nat, column: nat): B
    requires Fits(ctx, mem) && lane < ctx.lanes && column < ctx.columns
  {
    CellInMemory(ctx, lane, column);
    mem[Cell(ctx, lane, column)]
  }

  lemma ColumnInLane(ctx: Context, p: Place)
    requires Valid(ctx) && Visited(ctx, p)
    ensures Column(ctx, p) < ctx.columns && InSlice(ctx, p.slice, Column(ctx, p))
    ensures 0 <= (Column(ctx, p) - 1) % ctx.columns < ctx.columns
    ensures (Column(ctx, p) - 1) % ctx.columns == if Column(ctx, p) == 0 then ctx.columns - 1 else Column(ctx, p) - 1
  {
    SliceCases(ctx, p.slice);
    if Column(ctx, p) == 0 {
      ModUnique(-1, ctx.columns, -1, ctx.columns - 1);
    } else {
      ModUnique(Column(ctx, p) - 1, ctx.columns, 0, Column(ctx, p) - 1);
    }
  }

  /** The block one step stores. */
  function NewBlock<B>(core: Core<B>, ctx: Context, mem: seq<B>, p: Place): B
    requires Fits(ctx, mem) && Visited(ctx, p)
  {
    ColumnInLane(ctx, p);
    var column := Column(ctx, p);
    var previous := BlockAt(ctx, mem, p.lane, (column - 1) % ctx.columns);
    var word := PseudoRandom(core, ctx, p, previous);
    ReferenceIsSafe(ctx, word % TWO32, word / TWO32, p);
    var lane := ReferenceLane(ctx, word / TWO32, p);
    var reference := BlockAt(ctx, mem, lane, ReferenceColumn(ctx, word % TWO32, p, lane == p.lane));
    core.compress(previous, reference, BlockAt(ctx, mem, p.lane, column), p.pass > 0)
  }

  function Step<B>(core: Core<B>, ctx: Context, mem: seq<B>, p: Place): (r: seq<B>)
    requires Fits(ctx, mem) && Visited(ctx, p)
    ensures |r| == |mem|
  {
    ColumnInLane(ctx, p);
    CellInMemory(ctx, p.lane, Column(ctx, p));
    mem[Cell(ctx, p.lane, Column(ctx, p)) := NewBlock(core, ctx, mem, p)]
  }

  /**
   What section 3.4 of RFC 9106 says of the step at p: the pseudo-random word, the lane and the rank it chooses,
   and the column of that rank.
   */
  ghost predicate Chooses<B>(core: Core<B>, ctx: Context, mem: seq<B>, p: Place, word: Word, lane: nat, z: nat, column: nat)
    requires Fits(ctx, mem) && Visited(ctx, p)
  {
    ColumnInLane(ctx, p);
    && word == (if ctx.variant == TypeI || (ctx.variant == TypeId && p.pass == 0 && (p.slice == 0 || p.slice == 1))
                then core.addressBlock(ctx, p.index / 128 + 1, p.pass, p.lane, p.slice)[p.index % 128]
                else core.firstWord(BlockAt(ctx, mem, p.lane, (Column(ctx, p) - 1) % ctx.columns)))
    && lane == (if p.pass == 0 && p.slice == 0 then p.lane else word / TWO32 % ctx.lanes)
    && z < |Window(ctx, p, lane == p.lane)| && IsRank(|Window(ctx, p, lane == p.lane)|, word % TWO32, z)
    && IsNth(ctx, p, lane == p.lane, z, column)
  }

  /** The previous block and the chosen one are compressed into the current place; nothing else changes. */
  ghost predicate Stores<B>(core: Core<B>, ctx: Context, mem: seq<B>, p: Place, lane: nat, column: nat, mem': seq<B>)
    requires Fits(ctx, mem) && Visited(ctx, p)
  {
    ColumnInLane(ctx, p);
    CellInMemory(ctx, p.lane, Column(ctx, p));
    && lane < ctx.lanes && column < ctx.columns
    && mem' == mem[Cell(ctx, p.lane, Column(ctx, p)) := core.compress(
         BlockAt(ctx, mem, p.lane, (Column(ctx, p) - 1) % ctx.columns), BlockAt(ctx, mem, lane, column),
         BlockAt(ctx, mem, p.lane, Column(ctx, p)), p.pass > 0)]
  }

  /** Every step is the one that section 3.4 prescribes. */
  lemma StepMeans<B>(core: Core<B>, ctx: Context, mem: seq<B>, p: Place)
    requires Fits(ctx, mem) && Visited(ctx, p)
    ensures exists word, lane, z, column ::
      Chooses(core, ctx, mem, p, word, lane, z, column) && Stores(core, ctx, mem, p, lane, column, Step(core, ctx, mem, p))
  {
    ColumnInLane(ctx, p);
    CellInMemory(ctx, p.lane, Column(ctx, p));
    var word := PseudoRandom(core, ctx, p, BlockAt(ctx, mem, p.lane, (Column(ctx, p) - 1) % ctx.columns));
    ReferenceIsSafe(ctx, word % TWO32, word / TWO32, p);
    var lane := ReferenceLane(ctx, word / TWO32, p);
    var column := ReferenceColumn(ctx, word % TWO32, p, lane == p.lane);
    ReferenceIsNth(ctx, word % TWO32, p, lane == p.lane);
    var z: nat :| z < |Window(ctx, p, lane == p.lane)| && IsRank(|Window(ctx, p, lane == p.lane)|, word % TWO32, z)
      && IsNth(ctx, p, lane == p.lane, z, column);
    hide IsNth, Window, IsRank, ReferenceColumn;
    assert Chooses(core, ctx, mem, p, word, lane, z, column);
    assert Stores(core, ctx, mem, p, lane, column, Step(core, ctx, mem, p));
  }

  /** All that a step of this lane can see of the memory: its own lane, and the other slices of the rest. */
  ghost predicate SameView<B>(ctx: Context, mem: seq<B>, mem': seq<B>, slice: nat, lane: nat)
    requires Fits(ctx, mem) && Fits(ctx, mem')
  {
    forall l, c :: 0 <= l < ctx.lanes && 0 <= c < ctx.columns && (l == lane || !InSlice(ctx, slice, c)) ==>
      BlockAt(ctx, mem, l, c) == BlockAt(ctx, mem', l, c)
  }

  /** A step does not depend on what the other lanes have done in its slice. */
  lemma StepDependsOnView<B>(core: Core<B>, ctx: Context, mem: seq<B>, mem': seq<B>, p: Place)
    requires Fits(ctx, mem) && Fits(ctx, mem') && Visited(ctx, p)
    requires SameView(ctx, mem, mem', p.slice, p.lane)
    ensures NewBlock(core, ctx, mem, p) == NewBlock(core, ctx, mem', p)
  {
    ColumnInLane(ctx, p);
    var previous := BlockAt(ctx, mem, p.lane, (Column(ctx, p) - 1) % ctx.columns);
    var word := PseudoRandom(core, ctx, p, previous);
    ReferenceIsSafe(ctx, word % TWO32, word / TWO32, p);
  }

  /** Reading a cell after a step: only the step's own cell changes. */
  lemma StepAt<B>(core: Core<B>, ctx: Context, mem: seq<B>, p: Place, l: nat, c: nat)
    requires Fits(ctx, mem) && Visited(ctx, p) && l < ctx.lanes && c < ctx.columns
    ensures BlockAt(ctx, Step(core, ctx, mem, p), l, c) ==
      if l == p.lane && c == Column(ctx, p) then NewBlock(core, ctx, mem, p) else BlockAt(ctx, mem, l, c)
  {
    ColumnInLane(ctx, p);
    UpdateAt(ctx, mem, p.lane, Column(ctx, p), NewBlock(core, ctx, mem, p), l, c);
  }

  lemma UpdateAt<B>(ctx: Context, mem: seq<B>, l: nat, c: nat, b: B, l': nat, c': nat)
    requires Fits(ctx, mem) && l < ctx.lanes && c < ctx.columns && l' < ctx.lanes && c' < ctx.columns
    ensures Cell(ctx, l, c) < |mem|
    ensures BlockAt(ctx, mem[Cell(ctx, l, c) := b], l', c') ==
      if l' == l && c' == c then b else BlockAt(ctx, mem, l', c')
  {
    CellInMemory(ctx, l, c);
    CellInMemory(ctx, l', c');
    CellsDiffer(ctx, l, c, l', c');
    assert |mem[Cell(ctx, l, c) := b]| == |mem|;
  }

  lemma CellsDiffer(ctx: Context, l: nat, c: nat, l': nat, c': nat)
    requires c < ctx.columns && c' < ctx.columns
    ensures Cell(ctx, l, c) == Cell(ctx, l', c') <==> l == l' && c == c'
  {
    if Cell(ctx, l, c) == Cell(ctx, l', c') {
      CellUnique(ctx, l, c, l', c');
    }
  }

  // ----- One lane alone -----

  /** The memory after one lane has run by itself from the start of the slice up to `upTo`. */
  ghost function LaneAlone<B>(core: Core<B>, ctx: Context, mem: seq<B>, pass: nat, slice: nat, lane: nat, upTo: nat): (r: seq<B>)
    requires Fits(ctx, mem) && slice < SYNC_POINTS && lane < ctx.lanes && upTo <= ctx.segment
    ensures |r| == |mem|
    decreases upTo
  {
    if upTo <= Start(pass, slice) then mem
    else Step(core, ctx, LaneAlone(core, ctx, mem, pass, slice, lane, upTo - 1), Place(pass, slice, lane, upTo - 1))
  }

  lemma {:induction false} LaneAloneElsewhere<B>(core: Core<B>, ctx: Context, mem: seq<B>, pass: nat, slice: nat, lane: nat, upTo: nat, l: nat, c: nat)
    requires Fits(ctx, mem) && slice < SYNC_POINTS && lane < ctx.lanes && upTo <= ctx.segment
    requires l < ctx.lanes && c < ctx.columns && (l != lane || !InSlice(ctx, slice, c))
    ensures BlockAt(ctx, LaneAlone(core, ctx, mem, pass, slice, lane, upTo), l, c) == BlockAt(ctx, mem, l, c)
    decreases upTo
  {
    if upTo <= Start(pass, slice) {
    } else {
      var p := Place(pass, slice, lane, upTo - 1);
      LaneAloneElsewhere(core, ctx, mem, pass, slice, lane, upTo - 1, l, c);
      StepAt(core, ctx, LaneAlone(core, ctx, mem, pass, slice, lane, upTo - 1), p, l, c);
      ColumnInLane(ctx, p);
    }
  }

  // ----- Interleavings of a slice -----

  /** How far each lane has come. */
  ghost predicate Progress(ctx: Context, pass: nat, slice: nat, next: seq<nat>) {
    && |next| == ctx.lanes && slice < SYNC_POINTS
    && forall l :: 0 <= l < |next| ==> Start(pass, slice) <= next[l] <= ctx.segment
  }

  /** Every cell of a lane is what that lane alone would have made of it. */
  ghost predicate Merged<B>(core: Core<B>, ctx: Context, mem: seq<B>, mem0: seq<B>, pass: nat, slice: nat, next: seq<nat>)
    requires Fits(ctx, mem0) && Progress(ctx, pass, slice, next)
  {
    && |mem| == |mem0|
    && forall l, c :: 0 <= l < ctx.lanes && 0 <= c < ctx.columns ==>
      BlockAt(ctx, mem, l, c) == BlockAt(ctx, LaneAlone(core, ctx, mem0, pass, slice, l, next[l]), l, c)
  }

  lemma MergedView<B>(core: Core<B>, ctx: Context, mem: seq<B>, mem0: seq<B>, pass: nat, slice: nat, next: seq<nat>, lane: nat)
    requires Fits(ctx, mem0) && Progress(ctx, pass, slice, next) && lane < ctx.lanes
    requires Merged(core, ctx, mem, mem0, pass, slice, next)
    ensures SameView(ctx, mem, LaneAlone(core, ctx, mem0, pass, slice, lane, next[lane]), slice, lane)
  {
    var alone := LaneAlone(core, ctx, mem0, pass, slice, lane, next[lane]);
    forall l, c | 0 <= l < ctx.lanes && 0 <= c < ctx.columns && (l == lane || !InSlice(ctx, slice, c))
      ensures BlockAt(ctx, mem, l, c) == BlockAt(ctx, alone, l, c)
    {
      if l != lane {
        LaneAloneElsewhere(core, ctx, mem0, pass, slice, l, next[l], l, c);
        LaneAloneElsewhere(core, ctx, mem0, pass, slice, lane, next[lane], l, c);
      }
    }
  }

  /** Whichever lane moves next, the memory stays the merge of the lanes' own runs. */
  lemma MergedStep<B>(core: Core<B>, ctx: Context, mem: seq<B>, mem0: seq<B>, pass: nat, slice: nat, next: seq<nat>, lane: nat)
    requires Fits(ctx, mem0) && Progress(ctx, pass, slice, next)
    requires lane < ctx.lanes && next[lane] < ctx.segment
    requires Merged(core, ctx, mem, mem0, pass, slice, next)
    ensures Progress(ctx, pass, slice, next[lane := next[lane] + 1])
    ensures Merged(core, ctx, Step(core, ctx, mem, Place(pass, slice, lane, next[lane])), mem0, pass, slice,
                   next[lane := next[lane] + 1])
  {
    var p := Place(pass, slice, lane, next[lane]);
    var next' := next[lane := next[lane] + 1];
    var alone := LaneAlone(core, ctx, mem0, pass, slice, lane, next[lane]);
    MergedView(core, ctx, mem, mem0, pass, slice, next, lane);
    StepDependsOnView(core, ctx, mem, alone, p);
    forall l, c | 0 <= l < ctx.lanes && 0 <= c < ctx.columns
      ensures BlockAt(ctx, Step(core, ctx, mem, p), l, c)
        == BlockAt(ctx, LaneAlone(core, ctx, mem0, pass, slice, l, next'[l]), l, c)
    {
      StepAt(core, ctx, mem, p, l, c);
      if l == lane {
        StepAt(core, ctx, alone, p, l, c);
      }
    }
  }

  /** Runs one slice: `order` names the lane that moves at each instant. */
  ghost function RunOrder<B>(core: Core<B>, ctx: Context, mem: seq<B>, pass: nat, slice: nat, next: seq<nat>, order: seq<nat>): (r: seq<B>)
    requires Fits(ctx, mem) && Progress(ctx, pass, slice, next)
    requires Finishes(ctx, next, order)
    ensures |r| == |mem|
    decreases |order|
  {
    if order == [] then mem
    else
      var l := order[0];
      FinishesStep(ctx, next, order);
      RunOrder(core, ctx, Step(core, ctx, mem, Place(pass, slice, l, next[l])), pass, slice,
               next[l := next[l] + 1], order[1..])
  }

  /** Every lane moves exactly as often as it has blocks left to fill. */
  ghost predicate Finishes(ctx: Context, next: seq<nat>, order: seq<nat>) {
    && (forall i :: 0 <= i < |order| ==> order[i] < |next|)
    && (forall l :: 0 <= l < |next| ==> next[l] + Moves(order, l) == ctx.segment)
  }

  /** How often a lane moves. */
  ghost function Moves(order: seq<nat>, lane: nat): nat {
    if order == [] then 0 else (if order[0] == lane then 1 else 0) + Moves(order[1..], lane)
  }

  lemma FinishesStep(ctx: Context, next: seq<nat>, order: seq<nat>)
    requires Finishes(ctx, next, order) && order != []
    ensures next[order[0]] < ctx.segment
    ensures Finishes(ctx, next[order[0] := next[order[0]] + 1], order[1..])
  {
    assert Moves(order, order[0]) == 1 + Moves(order[1..], order[0]);
  }

  ghost function AllDone(ctx: Context): seq<nat> {
    seq(ctx.lanes, l => ctx.segment)
  }

  lemma {:induction false} RunOrderMerges<B>(core: Core<B>, ctx: Context, mem: seq<B>, mem0: seq<B>, pass: nat, slice: nat, next: seq<nat>, order: seq<nat>)
    requires Fits(ctx, mem0) && Progress(ctx, pass, slice, next) && Finishes(ctx, next, order)
    requires Merged(core, ctx, mem, mem0, pass, slice, next)
    ensures Progress(ctx, pass, slice, AllDone(ctx))
    ensures Merged(core, ctx, RunOrder(core, ctx, mem, pass, slice, next, order), mem0, pass, slice, AllDone(ctx))
    decreases |order|
  {
    if order == [] {
      assert next == AllDone(ctx);
    } else {
      hide Merged, Step;
      var l := order[0];
      FinishesStep(ctx, next, order);
      MergedStep(core, ctx, mem, mem0, pass, slice, next, l);
      var mem' := Step(core, ctx, mem, Place(pass, slice, l, next[l]));
      RunOrderMerges(core, ctx, mem', mem0, pass, slice, next[l := next[l] + 1], order[1..]);
      RunOrderStep(core, ctx, mem, pass, slice, next, order);
    }
  }

  lemma RunOrderStep<B>(core: Core<B>, ctx: Context, mem: seq<B>, pass: nat, slice: nat, next: seq<nat>, order: seq<nat>)
    requires Fits(ctx, mem) && Progress(ctx, pass, slice, next) && Finishes(ctx, next, order) && order != []
    ensures var l := order[0]; var next' := next[l := next[l] + 1];
      && Progress(ctx, pass, slice, next') && Finishes(ctx, next', order[1..])
      && RunOrder(core, ctx, mem, pass, slice, next, order)
        == RunOrder(core, ctx, Step(core, ctx, mem, Place(pass, slice, l, next[l])), pass, slice, next', order[1..])
  {
    FinishesStep(ctx, next, order);
  }

  lemma MergedUnique<B>(core: Core<B>, ctx: Context, a: seq<B>, b: seq<B>, mem0: seq<B>, pass: nat, slice: nat, next: seq<nat>)
    requires Fits(ctx, mem0) && Progress(ctx, pass, slice, next)
    requires Merged(core, ctx, a, mem0, pass, slice, next) && Merged(core, ctx, b, mem0, pass, slice, next)
    ensures a == b
  {
    forall i | 0 <= i < |a|
      ensures a[i] == b[i]
    {
      var l, c := CellOf(ctx, i);
      assert BlockAt(ctx, a, l, c) == BlockAt(ctx, b, l, c);
    }
  }

  lemma CellOf(ctx: Context, i: nat) returns (l: nat, c: nat)
    requires Valid(ctx) && i < ctx.lanes * ctx.columns
    ensures l < ctx.lanes && c < ctx.columns && Cell(ctx, l, c) == i
  {
    l, c := i / ctx.columns, i % ctx.columns;
    assert i == ctx.columns * l + c;
    if l >= ctx.lanes {
      MulMonotone(ctx.columns, ctx.lanes, l);
    }
  }

  ghost function AtStart(ctx: Context, pass: nat, slice: nat): seq<nat> {
    seq(ctx.lanes, l => Start(pass, slice))
  }

  lemma NothingMerged<B>(core: Core<B>, ctx: Context, mem: seq<B>, pass: nat, slice: nat)
    requires Fits(ctx, mem) && slice < SYNC_POINTS
    ensures Progress(ctx, pass, slice, AtStart(ctx, pass, slice))
    ensures Merged(core, ctx, mem, mem, pass, slice, AtStart(ctx, pass, slice))
  {
  }

  /** Within a slice any two interleavings of the lanes leave the same memory. */
  lemma InterleavingsAgree<B>(core: Core<B>, ctx: Context, mem: seq<B>, pass: nat, slice: nat, order: seq<nat>, order': seq<nat>)
    requires Fits(ctx, mem) && slice < SYNC_POINTS && Progress(ctx, pass, slice, AtStart(ctx, pass, slice))
    requires Finishes(ctx, AtStart(ctx, pass, slice), order) && Finishes(ctx, AtStart(ctx, pass, slice), order')
    ensures RunOrder(core, ctx, mem, pass, slice, AtStart(ctx, pass, slice), order)
      == RunOrder(core, ctx, mem, pass, slice, AtStart(ctx, pass, slice), order')
  {
    var next := AtStart(ctx, pass, slice);
    NothingMerged(core, ctx, mem, pass, slice);
    RunOrderMerges(core, ctx, mem, mem, pass, slice, next, order);
    RunOrderMerges(core, ctx, mem, mem, pass, slice, next, order');
    MergedUnique(core, ctx, RunOrder(core, ctx, mem, pass, slice, next, order),
                 RunOrder(core, ctx, mem, pass, slice, next, order'), mem, pass, slice, AllDone(ctx));
  }

  // ----- The sequential loops -----

  /** The body of the innermost loop. */
  method FillOne<B>(core: Core<B>, ctx: Context, memory: array<B>, p: Place, addresses: Block)
    requires Fits(ctx, memory[..]) && Visited(ctx, p)
    requires UseIndependent(ctx, p) ==> addresses == Addresses(core, ctx, p)
    modifies memory
    ensures memory[..] == Step(core, ctx, old(memory[..]), p)
  {
    ColumnInLane(ctx, p);
    var column := Column(ctx, p);
    CellInMemory(ctx, p.lane, column);
    CellInMemory(ctx, p.lane, (column - 1) % ctx.columns);
    var previous := memory[Cell(ctx, p.lane, (column - 1) % ctx.columns)];
    var word := if UseIndependent(ctx, p) then addresses[p.index % 128] else core.firstWord(previous);
    ReferenceIsSafe(ctx, word % TWO32, word / TWO32, p);
    var lane := ReferenceLane(ctx, word / TWO32, p);
    var referenceColumn := ReferenceColumn(ctx, word % TWO32, p, lane == p.lane);
    CellInMemory(ctx, lane, referenceColumn);
    var reference := memory[Cell(ctx, lane, referenceColumn)];
    var target := Cell(ctx, p.lane, column);
    memory[target] := core.compress(previous, reference, memory[target], p.pass > 0);
  }

  method AdvanceLane<B>(core: Core<B>, ctx: Context, memory: array<B>, p: Place, addresses: Block,
                        ghost mem0: seq<B>, ghost next: seq<nat>)
    requires Fits(ctx, memory[..]) && Fits(ctx, mem0) && Visited(ctx, p)
    requires UseIndependent(ctx, p) ==> addresses == Addresses(core, ctx, p)
    requires Progress(ctx, p.pass, p.slice, next) && next[p.lane] == p.index
    requires Merged(core, ctx, memory[..], mem0, p.pass, p.slice, next)
    modifies memory
    ensures Progress(ctx, p.pass, p.slice, next[p.lane := p.index + 1])
    ensures Merged(core, ctx, memory[..], mem0, p.pass, p.slice, next[p.lane := p.index + 1])
  {
    MergedStep(core, ctx, memory[..], mem0, p.pass, p.slice, next, p.lane);
    FillOne(core, ctx, memory, p, addresses);
  }

  /** The loop over one lane's segment, with its running address counter. */
  method FillLane<B>(core: Core<B>, ctx: Context, memory: array<B>, pass: nat, slice: nat, lane: nat,
                     ghost mem0: seq<B>, ghost next: seq<nat>) returns (ghost next': seq<nat>)
    requires Fits(ctx, memory[..]) && Fits(ctx, mem0) && lane < ctx.lanes
    requires Progress(ctx, pass, slice, next) && next[lane] == Start(pass, slice)
    requires Merged(core, ctx, memory[..], mem0, pass, slice, next)
    modifies memory
    ensures next' == next[lane := ctx.segment] && Progress(ctx, pass, slice, next')
    ensures Merged(core, ctx, memory[..], mem0, pass, slice, next')
  {
    hide Merged;
    var start := Start(pass, slice);
    var addresses: Block := seq(128, i => 0);
    var haveAddresses, counter := false, 0;
    next' := next;
    for index := start to ctx.segment
      invariant next' == next[lane := index] && Progress(ctx, pass, slice, next')
      invariant Fits(ctx, memory[..]) && Merged(core, ctx, memory[..], mem0, pass, slice, next')
      invariant haveAddresses <==> index > start && UseIndependent(ctx, Place(pass, slice, lane, index))
      invariant haveAddresses ==> counter == (index - 1) / 128 + 1
      invariant haveAddresses ==> addresses == core.addressBlock(ctx, counter, pass, lane, slice)
      invariant !haveAddresses ==> counter == 0
    {
      var p := Place(pass, slice, lane, index);
      if UseIndependent(ctx, p) {
        if index % 128 == 0 || !haveAddresses {
          counter := counter + 1;
          addresses := core.addressBlock(ctx, counter, pass, lane, slice);
          haveAddresses := true;
        }
      }
      AdvanceLane(core, ctx, memory, p, addresses, mem0, next');
      next' := next'[lane := index + 1];
    }
  }

  /** One interleaving for each slice of each pass. */
  ghost predicate CompleteSchedule(ctx: Context, schedule: (nat, nat) -> seq<nat>) {
    forall pass: nat, slice: nat :: slice < SYNC_POINTS ==>
      Finishes(ctx, AtStart(ctx, pass, slice), schedule(pass, slice))
  }

  /** One slice run in its scheduled interleaving. */
  ghost function RunSlice<B>(core: Core<B>, ctx: Context, mem: seq<B>, schedule: (nat, nat) -> seq<nat>, pass: nat, slice: nat): (r: seq<B>)
    requires Fits(ctx, mem) && CompleteSchedule(ctx, schedule) && slice < SYNC_POINTS
    ensures |r| == |mem|
  {
    NothingMerged(core, ctx, mem, pass, slice);
    RunOrder(core, ctx, mem, pass, slice, AtStart(ctx, pass, slice), schedule(pass, slice))
  }

  /** The loop over the lanes of a slice computes what any complete interleaving of the lanes computes. */
  method FillSlice<B>(core: Core<B>, ctx: Context, memory: array<B>, pass: nat, slice: nat,
                      ghost schedule: (nat, nat) -> seq<nat>)
    requires Fits(ctx, memory[..]) && slice < SYNC_POINTS && CompleteSchedule(ctx, schedule)
    modifies memory
    ensures memory[..] == RunSlice(core, ctx, old(memory[..]), schedule, pass, slice)
  {
    hide Merged;
    ghost var mem0 := memory[..];
    ghost var next, order := AtStart(ctx, pass, slice), schedule(pass, slice);
    NothingMerged(core, ctx, mem0, pass, slice);
    RunOrderMerges(core, ctx, mem0, mem0, pass, slice, next, order);
    ghost var result := RunOrder(core, ctx, mem0, pass, slice, next, order);
    for lane := 0 to ctx.lanes
      invariant Progress(ctx, pass, slice, next) && Fits(ctx, memory[..])
      invariant forall l :: 0 <= l < lane ==> next[l] == ctx.segment
      invariant forall l :: lane <= l < ctx.lanes ==> next[l] == Start(pass, slice)
      invariant Merged(core, ctx, memory[..], mem0, pass, slice, next)
    {
      next := FillLane(core, ctx, memory, pass, slice, lane, mem0, next);
    }
    assert next == AllDone(ctx);
    MergedUnique(core, ctx, memory[..], result, mem0, pass, slice, next);
  }

  /** The memory after the first `done` slices, with a barrier after each. */
  ghost function RunSlices<B>(core: Core<B>, ctx: Context, mem: seq<B>, schedule: (nat, nat) -> seq<nat>, done: nat): (r: seq<B>)
    requires Fits(ctx, mem) && CompleteSchedule(ctx, schedule)
    ensures |r| == |mem|
  {
    if done == 0 then mem
    else RunSlice(core, ctx, RunSlices(core, ctx, mem, schedule, done - 1), schedule,
                  (done - 1) / SYNC_POINTS, (done - 1) % SYNC_POINTS)
  }

  /** One pass: four slices. */
  method FillPass<B>(core: Core<B>, ctx: Context, memory: array<B>, pass: nat,
                     ghost mem0: seq<B>, ghost schedule: (nat, nat) -> seq<nat>)
    requires Fits(ctx, memory[..]) && Fits(ctx, mem0) && CompleteSchedule(ctx, schedule)
    requires memory[..] == RunSlices(core, ctx, mem0, schedule, SYNC_POINTS * pass)
    modifies memory
    ensures memory[..] == RunSlices(core, ctx, mem0, schedule, SYNC_POINTS * (pass + 1))
  {
    hide RunSlice, CompleteSchedule;
    for slice := 0 to SYNC_POINTS
      invariant Fits(ctx, memory[..])
      invariant memory[..] == RunSlices(core, ctx, mem0, schedule, SYNC_POINTS * pass + slice)
    {
      ghost var done := SYNC_POINTS * pass + slice;
      assert done / SYNC_POINTS == pass && done % SYNC_POINTS == slice;
      FillSlice(core, ctx, memory, pass, slice, schedule);
    }
  }

  /**
   The whole fill. The loops know nothing of `schedule`, so every parallel execution that keeps the barrier
   after each slice computes the same memory as the sequential loops.
   */
  method FillMemory<B>(core: Core<B>, ctx: Context, memory: array<B>, ghost schedule: (nat, nat) -> seq<nat>)
    requires Fits(ctx, memory[..]) && CompleteSchedule(ctx, schedule)
    modifies memory
    ensures memory[..] == RunSlices(core, ctx, old(memory[..]), schedule, SYNC_POINTS * ctx.passes)
  {
    ghost var mem0 := memory[..];
    for pass := 0 to ctx.passes
      invariant Fits(ctx, memory[..])
      invariant memory[..] == RunSlices(core, ctx, mem0, schedule, SYNC_POINTS * pass)
    {
      FillPass(core, ctx, memory, pass, mem0, schedule);
    }
  }

  /** Any two complete schedules compute the same memory. */
  lemma {:induction false} SchedulesAgree<B>(core: Core<B>, ctx: Context, mem: seq<B>,
                                            a: (nat, nat) -> seq<nat>, b: (nat, nat) -> seq<nat>, done: nat)
    requires Fits(ctx, mem) && CompleteSchedule(ctx, a) && CompleteSchedule(ctx, b)
    ensures RunSlices(core, ctx, mem, a, done) == RunSlices(core, ctx, mem, b, done)
  {
    hide RunSlice, CompleteSchedule;
    if done == 0 {
    } else {
      SchedulesAgree(core, ctx, mem, a, b, done - 1);
      var before := RunSlices(core, ctx, mem, a, done - 1);
      var pass, slice := (done - 1) / SYNC_POINTS, (done - 1) % SYNC_POINTS;
      RunSliceAgrees(core, ctx, before, a, b, pass, slice);
    }
  }

  lemma RunSliceAgrees<B>(core: Core<B>, ctx: Context, mem: seq<B>,
                          a: (nat, nat) -> seq<nat>, b: (nat, nat) -> seq<nat>, pass: nat, slice: nat)
    requires Fits(ctx, mem) && CompleteSchedule(ctx, a) && CompleteSchedule(ctx, b) && slice < SYNC_POINTS
    ensures RunSlice(core, ctx, mem, a, pass, slice) == RunSlice(core, ctx, mem, b, pass, slice)
  {
    NothingMerged(core, ctx, mem, pass, slice);
    InterleavingsAgree(core, ctx, mem, pass, slice, a(pass, slice), b(pass, slice));
  }
}
