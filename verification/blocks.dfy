/**
  Block sizing and the block-by-block simulation pass of one realisation.

  The realisation's years are simulated in blocks of `blockSize` years.  A
  sizing pass first looks for a block size at which every block can be
  generated and its output arrays allocated: it starts at
  `min(number_of_years, 1000)` and, whenever a block fails, halves the size,
  restarts from block 0 and reseeds the generator.  The simulation pass then
  walks the same blocks with the same seed.

  The generator and the allocation probes are not visible here; they are an
  oracle: `fits(months, rng)` says whether a block over those months succeeds
  from generator state `rng`, and `draw(months, rng)` is the generator state
  after it has simulated the block.
*/
module Blocks {
  import opened Results
  import opened Calendar

  /** The largest block, in years, the sizing pass tries. */
  const MaxBlockYears: nat := 1000

  /** Months `[first, end)` of the realisation, counted from its first month. */
  datatype MonthRange = MonthRange(first: nat, end: nat)

  /** The generator and allocation oracle over generator states `R`. */
  datatype Generator<!R> = Generator(fits: (MonthRange, R) -> bool, draw: (MonthRange, R) -> R)

  /** The sizing loop's variables: block size, current block and generator state. */
  datatype SizingState<R> = SizingState(blockSize: nat, blockId: nat, rng: R)

  /** `min(number_of_years, 1000)`. */
  function InitialBlockSize(n: nat): (size: nat)
    ensures size <= n && size <= MaxBlockYears
    ensures size == n || size == MaxBlockYears
  {
    if n <= MaxBlockYears then n else MaxBlockYears
  }

  function ClipTo(i: nat, limit: nat): nat {
    if i <= limit then i else limit
  }

  /**
    The months of block `b` at size `size`: the slice
    `[12 * b * size, 12 * (b + 1) * size)` of the realisation's `12 * n`
    months, clipped at the end as a slice is.
  */
  function BlockMonths(n: nat, size: nat, b: nat): (months: MonthRange)
    ensures months.first <= months.end <= 12 * n
  {
    assert 12 * b * size <= 12 * (b + 1) * size by {
      assert 12 * (b + 1) * size == 12 * b * size + 12 * size;
    }
    MonthRange(ClipTo(12 * b * size, 12 * n), ClipTo(12 * (b + 1) * size, 12 * n))
  }

  /** The loop guard `block_id * block_size < number_of_years`. */
  predicate Pending<R>(n: nat, s: SizingState<R>) {
    s.blockId * s.blockSize < n
  }

  /** The sizing pass's starting state. */
  function Start<R>(seed: R, n: nat): SizingState<R> {
    SizingState(InitialBlockSize(n), 0, seed)
  }

  /**
    One iteration of the sizing loop: a block that fits moves on to the next
    block with the generator state it leaves; a block that fails halves the
    size (rounding down), returns to block 0 and reseeds.
  */
  function Step<R>(g: Generator<R>, seed: R, n: nat, s: SizingState<R>): (next: SizingState<R>)
    requires Pending(n, s)
    ensures next.blockSize <= s.blockSize
    ensures next.blockSize == s.blockSize ==> next.blockId == s.blockId + 1 || s.blockSize == 0
  {
    var months := BlockMonths(n, s.blockSize, s.blockId);
    if g.fits(months, s.rng) then SizingState(s.blockSize, s.blockId + 1, g.draw(months, s.rng))
    else SizingState(s.blockSize / 2, 0, seed)
  }

  /**
    The sizing loop as written, run for at most `fuel` iterations: `Some` of
    the state in which the guard first fails, or `None` if it still holds.
  */
  function RunAsWritten<R>(g: Generator<R>, seed: R, n: nat, s: SizingState<R>, fuel: nat): (r: Option<SizingState<R>>)
    ensures r.Some? ==> !Pending(n, r.value) && r.value.blockSize <= s.blockSize
    decreases fuel
  {
    if !Pending(n, s) then Some(s)
    else if fuel == 0 then None
    else RunAsWritten(g, seed, n, Step(g, seed, n, s), fuel - 1)
  }

  lemma BlockBelowYears(b: nat, size: nat, n: nat)
    requires 0 < size && b * size < n
    ensures b < n
  {
    assert b <= b * size;
  }

  /**
    The sizing loop with the guard it lacks: a block size of zero while
    blocks remain is reported as `BlockSizeExhausted` instead of looping.
  */
  function SizeFrom<R>(g: Generator<R>, seed: R, n: nat, s: SizingState<R>): (r: Result<nat>)
    ensures r.Success? ==> r.value <= s.blockSize && (0 < n ==> 0 < r.value)
    decreases s.blockSize, n - s.blockId
  {
    if !Pending(n, s) then Success(s.blockSize)
    else if s.blockSize == 0 then Failure(BlockSizeExhausted)
    else
      BlockBelowYears(s.blockId, s.blockSize, n);
      SizeFrom(g, seed, n, Step(g, seed, n, s))
  }

  /** The block size the corrected sizing pass settles on. */
  function ChooseBlockSize<R>(g: Generator<R>, seed: R, n: nat): Result<nat> {
    SizeFrom(g, seed, n, Start(seed, n))
  }

  // ---------------------------------------------------------------------------
  // What the sizing pass computes

  /** The generator state before block `b` when every earlier block has drawn from it. */
  function RngAt<R>(g: Generator<R>, seed: R, n: nat, size: nat, b: nat): R {
    if b == 0 then seed else g.draw(BlockMonths(n, size, b - 1), RngAt(g, seed, n, size, b - 1))
  }

  /** Block `b` succeeds when reached at block size `size`. */
  predicate BlockFits<R>(g: Generator<R>, seed: R, n: nat, size: nat, b: nat) {
    g.fits(BlockMonths(n, size, b), RngAt(g, seed, n, size, b))
  }

  /** Every block the loop visits at block size `size` succeeds. */
  ghost predicate AllBlocksFit<R>(g: Generator<R>, seed: R, n: nat, size: nat) {
    forall b: nat :: b * size < n ==> BlockFits(g, seed, n, size, b)
  }

  /**
    Reference result: the first of `size`, `size / 2`, `size / 4`, ... at
    which every block fits, or `BlockSizeExhausted` once the halving reaches
    zero with years still to simulate.
  */
  ghost function FirstFitting<R>(g: Generator<R>, seed: R, n: nat, size: nat): Result<nat>
    decreases size
  {
    if n == 0 || (0 < size && AllBlocksFit(g, seed, n, size)) then Success(size)
    else if size == 0 then Failure(BlockSizeExhausted)
    else FirstFitting(g, seed, n, size / 2)
  }

  lemma MultiplyMonotone(i: nat, j: nat, size: nat)
    requires i <= j
    ensures i * size <= j * size
  {
  }

  /**
    Resuming at block `b` with the generator state the earlier blocks left,
    all of which fitted, the corrected loop ends as the reference says.
  */
  lemma {:induction false} SizeFromResumes<R>(g: Generator<R>, seed: R, n: nat, size: nat, b: nat)
    requires 0 < size
    requires forall k: nat :: k < b ==> BlockFits(g, seed, n, size, k)
    ensures SizeFrom(g, seed, n, SizingState(size, b, RngAt(g, seed, n, size, b))) == FirstFitting(g, seed, n, size)
    decreases size, n - b, 0
  {
    var s := SizingState(size, b, RngAt(g, seed, n, size, b));
    if !Pending(n, s) {
      forall k: nat | k * size < n
        ensures BlockFits(g, seed, n, size, k)
      {
        if b <= k {
          MultiplyMonotone(b, k, size);
        }
      }
    } else {
      BlockBelowYears(b, size, n);
      if BlockFits(g, seed, n, size, b) {
        assert Step(g, seed, n, s) == SizingState(size, b + 1, RngAt(g, seed, n, size, b + 1));
        SizeFromResumes(g, seed, n, size, b + 1);
      } else {
        assert !AllBlocksFit(g, seed, n, size);
        SizeFromFirstFitting(g, seed, n, size / 2);
      }
    }
  }

  /** From block 0 with a fresh seed the corrected loop ends as the reference says. */
  lemma {:induction false} SizeFromFirstFitting<R>(g: Generator<R>, seed: R, n: nat, size: nat)
    ensures SizeFrom(g, seed, n, SizingState(size, 0, seed)) == FirstFitting(g, seed, n, size)
    decreases size, n + 1, 1
  {
    if size > 0 {
      SizeFromResumes(g, seed, n, size, 0);
    }
  }

  /** The corrected sizing pass returns the reference result. */
  lemma ChooseBlockSizeIsFirstFitting<R>(g: Generator<R>, seed: R, n: nat)
    ensures ChooseBlockSize(g, seed, n) == FirstFitting(g, seed, n, InitialBlockSize(n))
  {
    SizeFromFirstFitting(g, seed, n, InitialBlockSize(n));
  }

  /** The `k`-th halving of a block size. */
  function Halved(size: nat, k: nat): nat {
    if k == 0 then size else Halved(size / 2, k - 1)
  }

  /**
    The reference result is the first halving at which every block fits:
    if halving `k` fits and none before it does, it is the result.
  */
  lemma {:induction false} FirstFittingIsFirstHalving<R>(g: Generator<R>, seed: R, n: nat, size: nat, k: nat)
    requires 0 < n
    requires 0 < Halved(size, k) && AllBlocksFit(g, seed, n, Halved(size, k))
    requires forall j :: 0 <= j < k ==> !AllBlocksFit(g, seed, n, Halved(size, j))
    ensures FirstFitting(g, seed, n, size) == Success(Halved(size, k))
    decreases k
  {
    if k > 0 {
      assert !AllBlocksFit(g, seed, n, Halved(size, 0));
      forall j | 0 <= j < k - 1
        ensures !AllBlocksFit(g, seed, n, Halved(size / 2, j))
      {
        assert Halved(size, j + 1) == Halved(size / 2, j);
      }
      if size == 0 {
        HalvedZero(k);
      }
      FirstFittingIsFirstHalving(g, seed, n, size / 2, k - 1);
    }
  }

  lemma {:induction false} HalvedZero(k: nat)
    ensures Halved(0, k) == 0
  {
    if k > 0 {
      HalvedZero(k - 1);
    }
  }

  /** Conversely, whatever the reference settles on is a non-zero size at which every block fits. */
  lemma {:induction false} FirstFittingFits<R>(g: Generator<R>, seed: R, n: nat, size: nat)
    requires 0 < n && FirstFitting(g, seed, n, size).Success?
    ensures 0 < FirstFitting(g, seed, n, size).value
    ensures AllBlocksFit(g, seed, n, FirstFitting(g, seed, n, size).value)
    decreases size
  {
    if !(0 < size && AllBlocksFit(g, seed, n, size)) {
      FirstFittingFits(g, seed, n, size / 2);
    }
  }

  /** And it fails only when no halving fits. */
  lemma {:induction false} FirstFittingFailsWhenNothingFits<R>(g: Generator<R>, seed: R, n: nat, size: nat)
    requires 0 < n
    requires forall k: nat :: 0 < Halved(size, k) ==> !AllBlocksFit(g, seed, n, Halved(size, k))
    ensures FirstFitting(g, seed, n, size) == Failure(BlockSizeExhausted)
    decreases size
  {
    assert Halved(size, 0) == size;
    if size > 0 {
      forall k: nat | 0 < Halved(size / 2, k)
        ensures !AllBlocksFit(g, seed, n, Halved(size / 2, k))
      {
        assert Halved(size, k + 1) == Halved(size / 2, k);
      }
      FirstFittingFailsWhenNothingFits(g, seed, n, size / 2);
    }
  }

  // ---------------------------------------------------------------------------
  // The loop as written against the corrected loop

  /** Once the block size is zero with years to simulate, the loop as written never stops. */
  lemma {:induction false} ZeroBlockSizeNeverStops<R>(g: Generator<R>, seed: R, n: nat, s: SizingState<R>, fuel: nat)
    requires 0 < n && s.blockSize == 0
    ensures RunAsWritten(g, seed, n, s, fuel) == None
    decreases fuel
  {
    if fuel > 0 {
      ZeroBlockSizeNeverStops(g, seed, n, Step(g, seed, n, s), fuel - 1);
    }
  }

  /** Whenever the loop as written stops, the corrected loop returns the same block size. */
  lemma {:induction false} AsWrittenAgreesWhenItStops<R>(g: Generator<R>, seed: R, n: nat, s: SizingState<R>, fuel: nat)
    requires RunAsWritten(g, seed, n, s, fuel).Some?
    ensures SizeFrom(g, seed, n, s) == Success(RunAsWritten(g, seed, n, s, fuel).value.blockSize)
    decreases fuel
  {
    if Pending(n, s) {
      if s.blockSize == 0 {
        ZeroBlockSizeNeverStops(g, seed, n, s, fuel);
        assert false;
      }
      AsWrittenAgreesWhenItStops(g, seed, n, Step(g, seed, n, s), fuel - 1);
    }
  }

  /** Where the corrected loop reports exhaustion, the loop as written runs forever. */
  lemma AsWrittenNeverStopsWhenSizingFails<R>(g: Generator<R>, seed: R, n: nat, s: SizingState<R>, fuel: nat)
    requires SizeFrom(g, seed, n, s).Failure?
    ensures RunAsWritten(g, seed, n, s, fuel) == None
  {
    if RunAsWritten(g, seed, n, s, fuel).Some? {
      AsWrittenAgreesWhenItStops(g, seed, n, s, fuel);
    }
  }

  /** Where the corrected loop succeeds, the loop as written stops with the same block size. */
  lemma {:induction false} AsWrittenStopsWhenSizingSucceeds<R>(g: Generator<R>, seed: R, n: nat, s: SizingState<R>)
    requires SizeFrom(g, seed, n, s).Success?
    ensures exists fuel: nat :: RunAsWritten(g, seed, n, s, fuel).Some? &&
                                RunAsWritten(g, seed, n, s, fuel).value.blockSize == SizeFrom(g, seed, n, s).value
    decreases s.blockSize, n - s.blockId
  {
    if !Pending(n, s) {
      assert RunAsWritten(g, seed, n, s, 0) == Some(s);
    } else {
      BlockBelowYears(s.blockId, s.blockSize, n);
      var next := Step(g, seed, n, s);
      AsWrittenStopsWhenSizingSucceeds(g, seed, n, next);
      var fuel: nat :| RunAsWritten(g, seed, n, next, fuel).Some? &&
                       RunAsWritten(g, seed, n, next, fuel).value.blockSize == SizeFrom(g, seed, n, next).value;
      assert RunAsWritten(g, seed, n, s, fuel + 1) == RunAsWritten(g, seed, n, next, fuel);
    }
  }

  /**
    A one-year realisation whose single block never fits: the corrected pass
    reports exhaustion, while the loop as written halves 1 to 0 and spins.
  */
  lemma NothingFitsNeverStops(g: Generator<nat>, fuel: nat)
    requires g == Generator((m: MonthRange, r: nat) => false, (m: MonthRange, r: nat) => r)
    ensures ChooseBlockSize(g, 0, 1) == Failure(BlockSizeExhausted)
    ensures RunAsWritten(g, 0, 1, Start(0, 1), fuel) == None
  {
    var s := Start(0, 1);
    assert Step(g, 0, 1, s) == SizingState(0, 0, 0);
    AsWrittenNeverStopsWhenSizingFails(g, 0, 1, s, fuel);
  }

  /**
    900 years with a generator that manages at most 225 years (2700 months)
    at a time: the pass tries 900 (`min(900, 1000)`), then 450, and settles
    on 225, simulated as four blocks.
  */
  lemma NineHundredYearsExample(g: Generator<nat>)
    requires g == Generator((m: MonthRange, r: nat) => m.end - m.first <= 2700, (m: MonthRange, r: nat) => r)
    ensures ChooseBlockSize(g, 0, 900) == Success(225)
    ensures NumBlocks(900, 225) == 4
  {
    var s0 := Start(0, 900);
    assert s0 == SizingState(900, 0, 0);
    var s1 := Step(g, 0, 900, s0);
    assert s1 == SizingState(450, 0, 0);
    var s2 := Step(g, 0, 900, s1);
    assert s2 == SizingState(225, 0, 0);
    var s3 := Step(g, 0, 900, s2);
    assert s3 == SizingState(225, 1, 0);
    var s4 := Step(g, 0, 900, s3);
    assert s4 == SizingState(225, 2, 0);
    var s5 := Step(g, 0, 900, s4);
    assert s5 == SizingState(225, 3, 0);
    var s6 := Step(g, 0, 900, s5);
    assert s6 == SizingState(225, 4, 0);
    assert !Pending(900, s6);
  }

  // ---------------------------------------------------------------------------
  // The simulation pass

  /** One generator call of the simulation pass: the block's months and the state it starts from. */
  datatype BlockRun<R> = BlockRun(months: MonthRange, rng: R)

  /** `ceil(n / size)`: the number of blocks of `size` years in `n` years. */
  function NumBlocks(n: nat, size: nat): nat {
    if size == 0 then 0 else (n + size - 1) / size
  }

  /** The loop visits block `b` exactly when `b` is below the number of blocks. */
  lemma NumBlocksIsCeiling(n: nat, size: nat, b: nat)
    requires 0 < size
    ensures b * size < n <==> b < NumBlocks(n, size)
  {
    var q := NumBlocks(n, size);
    var r := (n + size - 1) % size;
    assert n + size - 1 == q * size + r;
    if b < q {
      MultiplyMonotone(b, q - 1, size);
      assert (q - 1) * size == q * size - size;
    } else {
      MultiplyMonotone(q, b, size);
    }
  }

  /**
    For a positive block size the blocks tile the realisation's months:
    block 0 starts at month 0, each block starts where the previous one
    ends, the last ends at month `12 * n`, and every block but the last
    spans exactly `12 * size` months.
  */
  lemma BlocksTileMonths(n: nat, size: nat)
    requires 0 < size && 0 < n
    ensures BlockMonths(n, size, 0).first == 0
    ensures forall b :: 0 <= b < NumBlocks(n, size) - 1 ==>
              BlockMonths(n, size, b).end == BlockMonths(n, size, b + 1).first &&
              BlockMonths(n, size, b).end - BlockMonths(n, size, b).first == 12 * size
    ensures BlockMonths(n, size, NumBlocks(n, size) - 1).end == 12 * n
    ensures forall b :: 0 <= b < NumBlocks(n, size) ==> BlockMonths(n, size, b).first < BlockMonths(n, size, b).end
  {
    var count := NumBlocks(n, size);
    NumBlocksIsCeiling(n, size, 0);
    forall b | 0 <= b < count
      ensures BlockMonths(n, size, b).first < BlockMonths(n, size, b).end
      ensures b < count - 1 ==> BlockMonths(n, size, b).end == BlockMonths(n, size, b + 1).first
      ensures b < count - 1 ==> BlockMonths(n, size, b).end - BlockMonths(n, size, b).first == 12 * size
    {
      NumBlocksIsCeiling(n, size, b);
      assert 12 * (b + 1) * size == 12 * b * size + 12 * size;
      if b < count - 1 {
        NumBlocksIsCeiling(n, size, b + 1);
      }
    }
    NumBlocksIsCeiling(n, size, count);
    assert 12 * count * size == 12 * (count * size);
  }

  /** The run the simulation pass makes for block `b`. */
  function PlannedRun<R>(g: Generator<R>, seed: R, n: nat, size: nat, b: nat): BlockRun<R> {
    BlockRun(BlockMonths(n, size, b), RngAt(g, seed, n, size, b))
  }

  lemma NextBlock(b: nat, size: nat)
    ensures (b + 1) * size == b * size + size
  {
  }

  /**
    The simulation pass: with a fresh seed, block after block while
    `block_id * block_size < number_of_years`, the generator is called on
    the block's months and its state carried to the next block.
  */
  method SimulationBlocks<R>(g: Generator<R>, seed: R, n: nat, size: nat) returns (plan: seq<BlockRun<R>>)
    requires 0 < size || n == 0
    ensures |plan| == NumBlocks(n, size)
    ensures forall b :: 0 <= b < |plan| ==> plan[b] == BlockRun(BlockMonths(n, size, b), RngAt(g, seed, n, size, b))
  {
    plan := [];
    var rng := seed;
    var b := 0;
    var covered := 0;
    while covered < n
      invariant covered == b * size
      invariant |plan| == b && rng == RngAt(g, seed, n, size, b)
      invariant b == 0 || covered - size < n
      invariant forall k :: 0 <= k < b ==> plan[k] == PlannedRun(g, seed, n, size, k)
      decreases n - covered
    {
      plan := plan + [BlockRun(BlockMonths(n, size, b), rng)];
      rng := g.draw(BlockMonths(n, size, b), rng);
      NextBlock(b, size);
      b := b + 1;
      covered := covered + size;
    }
    if 0 < size {
      NumBlocksIsCeiling(n, size, b);
      if 0 < b {
        NextBlock(b - 1, size);
        NumBlocksIsCeiling(n, size, b - 1);
      }
    }
  }

  /**
    The sizing loop with the exhaustion guard, as a loop over the source's
    variables.
  */
  method SizeBlocks<R>(g: Generator<R>, seed: R, n: nat) returns (r: Result<nat>)
    ensures r == ChooseBlockSize(g, seed, n)
  {
    var size: nat := InitialBlockSize(n);
    var b: nat := 0;
    var rng := seed;
    while b * size < n
      invariant SizeFrom(g, seed, n, SizingState(size, b, rng)) == ChooseBlockSize(g, seed, n)
      decreases size, n - b
    {
      if size == 0 {
        return Failure(BlockSizeExhausted);
      }
      BlockBelowYears(b, size, n);
      var months := BlockMonths(n, size, b);
      if g.fits(months, rng) {
        rng := g.draw(months, rng);
        b := b + 1;
      } else {
        size := size / 2;
        b := 0;
        rng := seed;
      }
    }
    return Success(size);
  }

  /**
    Sizing then simulation: the pass fails where sizing is exhausted and
    otherwise calls the generator once per block, on the block's months and
    from the state sizing reached there, so every simulated block is one
    that succeeded while sizing.
  */
  method SimulateRealisation<R>(g: Generator<R>, seed: R, n: nat) returns (r: Result<seq<BlockRun<R>>>)
    ensures ChooseBlockSize(g, seed, n).Failure? ==> r == Failure(BlockSizeExhausted)
    ensures ChooseBlockSize(g, seed, n).Success? ==>
              (r.Success? && |r.value| == NumBlocks(n, ChooseBlockSize(g, seed, n).value))
    ensures r.Success? ==> forall b :: 0 <= b < |r.value| ==>
              r.value[b].months == BlockMonths(n, ChooseBlockSize(g, seed, n).value, b) &&
              g.fits(r.value[b].months, r.value[b].rng)
  {
    var sized := SizeBlocks(g, seed, n);
    if sized.Failure? {
      SizeFromFailsOnlyExhausted(g, seed, n, Start(seed, n));
      return Failure(sized.error);
    }
    var size := sized.value;
    var plan := SimulationBlocks(g, seed, n, size);
    if 0 < n {
      ChooseBlockSizeIsFirstFitting(g, seed, n);
      FirstFittingFits(g, seed, n, InitialBlockSize(n));
      forall b | 0 <= b < |plan|
        ensures g.fits(plan[b].months, plan[b].rng)
      {
        NumBlocksIsCeiling(n, size, b);
        assert BlockFits(g, seed, n, size, b);
      }
    }
    return Success(plan);
  }

  lemma SizeFromFailsOnlyExhausted<R>(g: Generator<R>, seed: R, n: nat, s: SizingState<R>)
    ensures SizeFrom(g, seed, n, s).Failure? ==> SizeFrom(g, seed, n, s).error == BlockSizeExhausted
    decreases s.blockSize, n - s.blockId
  {
    if Pending(n, s) && s.blockSize != 0 {
      BlockBelowYears(s.blockId, s.blockSize, n);
      SizeFromFailsOnlyExhausted(g, seed, n, Step(g, seed, n, s));
    }
  }

  // ---------------------------------------------------------------------------
  // Month bounds of a block's months

  /** A row of a sliced month table with the row label the slice keeps. */
  datatype LabelledMonth = LabelledMonth(rowLabel: nat, span: MonthSpan)

  /** `datetime_helper.iloc[first:end]`: rows `first .. end-1`, keeping their labels. */
  function SliceTable(table: seq<MonthSpan>, months: MonthRange): (rows: seq<LabelledMonth>)
    requires months.first <= months.end <= |table|
    ensures |rows| == months.end - months.first
  {
    seq(months.end - months.first, k requires 0 <= k < months.end - months.first =>
      LabelledMonth(months.first + k, table[months.first + k]))
  }

  /** `column[key]` on a sliced table: the row whose label is `key`, if there is one. */
  function RowByLabel(rows: seq<LabelledMonth>, key: nat): (r: Option<MonthSpan>)
    ensures r.Some? <==> exists k :: 0 <= k < |rows| && rows[k].rowLabel == key
    ensures r.Some? ==> exists k :: 0 <= k < |rows| && rows[k].rowLabel == key && rows[k].span == r.value
  {
    if |rows| == 0 then None
    else if rows[0].rowLabel == key then Some(rows[0].span)
    else
      var r := RowByLabel(rows[1..], key);
      assert forall k :: 1 <= k < |rows| ==> rows[1..][k - 1] == rows[k];
      assert r.Some? ==> exists k :: 0 <= k < |rows| && rows[k].rowLabel == key by {
        if r.Some? {
          var k :| 0 <= k < |rows[1..]| && rows[1..][k].rowLabel == key && rows[1..][k].span == r.value;
          assert rows[k + 1].rowLabel == key && rows[k + 1].span == r.value;
        }
      }
      r
  }

  /**
    The month bounds as written: the month's start and end times are read by
    row label `month_idx`, which a missing label turns into an error.
  */
  function MonthBoundsAsWritten(rows: seq<LabelledMonth>, monthIdx: nat): (r: Result<MonthSpan>)
    ensures r.Success? <==> exists k :: 0 <= k < |rows| && rows[k].rowLabel == monthIdx
  {
    match RowByLabel(rows, monthIdx)
    case None => Failure(MissingLabel)
    case Some(span) => Success(span)
  }

  /** The month bounds read by position, as the year and month of the same row are. */
  function MonthBounds(rows: seq<LabelledMonth>, monthIdx: nat): (span: MonthSpan)
    requires monthIdx < |rows|
    ensures span in SpansOf(rows)
  {
    assert SpansOf(rows)[monthIdx] == rows[monthIdx].span;
    rows[monthIdx].span
  }

  function SpansOf(rows: seq<LabelledMonth>): (spans: seq<MonthSpan>)
    ensures |spans| == |rows|
  {
    seq(|rows|, k requires 0 <= k < |rows| => rows[k].span)
  }

  /** Read by position, a block's month `i` is month `first + i` of the realisation. */
  lemma MonthBoundsArePositional(table: seq<MonthSpan>, months: MonthRange, i: nat)
    requires months.first <= months.end <= |table| && i < months.end - months.first
    ensures MonthBounds(SliceTable(table, months), i) == table[months.first + i]
  {
  }

  /**
    Read by position, every month of the realisation is discretised with its
    own bounds: month `12 * b * size + i`, for `i < 12 * size`, is position
    `i` of block `b`, a block the simulation pass visits.
  */
  lemma EveryMonthReadsItsBounds(table: seq<MonthSpan>, n: nat, size: nat, b: nat, i: nat)
    requires |table| == 12 * n && i < 12 * size && 12 * b * size + i < 12 * n
    ensures b < NumBlocks(n, size)
    ensures i < BlockMonths(n, size, b).end - BlockMonths(n, size, b).first
    ensures MonthBounds(SliceTable(table, BlockMonths(n, size, b)), i) == table[12 * b * size + i]
  {
    assert 12 * (b + 1) * size == 12 * b * size + 12 * size;
    assert b * size < n by {
      assert 12 * b * size == 12 * (b * size);
    }
    NumBlocksIsCeiling(n, size, b);
    MonthBoundsArePositional(table, BlockMonths(n, size, b), i);
  }

  /** In the first block labels and positions coincide, so the lookup as written is correct there. */
  lemma FirstBlockLabelsArePositions(table: seq<MonthSpan>, n: nat, size: nat, i: nat)
    requires |table| == 12 * n
    requires i < BlockMonths(n, size, 0).end
    ensures MonthBoundsAsWritten(SliceTable(table, BlockMonths(n, size, 0)), i)
            == Success(MonthBounds(SliceTable(table, BlockMonths(n, size, 0)), i))
  {
    var rows := SliceTable(table, BlockMonths(n, size, 0));
    assert rows[i].rowLabel == i;
    LabelsAreUnique(rows, i, table, BlockMonths(n, size, 0));
  }

  lemma LabelsAreUnique(rows: seq<LabelledMonth>, i: nat, table: seq<MonthSpan>, months: MonthRange)
    requires months.first <= months.end <= |table|
    requires rows == SliceTable(table, months) && i < |rows|
    ensures RowByLabel(rows, months.first + i) == Some(rows[i].span)
  {
    var r := RowByLabel(rows, months.first + i);
    assert rows[i].rowLabel == months.first + i;
    var k :| 0 <= k < |rows| && rows[k].rowLabel == months.first + i && rows[k].span == r.value;
    assert k == i;
  }

  /**
    In every later block the lookup as written fails for every month: the
    slice's labels start at `12 * b * size`, beyond every position in it.
  */
  lemma LaterBlockLosesItsMonths(table: seq<MonthSpan>, n: nat, size: nat, b: nat, i: nat)
    requires |table| == 12 * n && 0 < size && 0 < b && b * size < n
    requires i < BlockMonths(n, size, b).end - BlockMonths(n, size, b).first
    ensures MonthBoundsAsWritten(SliceTable(table, BlockMonths(n, size, b)), i) == Failure(MissingLabel)
  {
    LaterBlockStartsLate(n, size, b);
    LabelsBeforeSliceMissing(table, BlockMonths(n, size, b), i);
  }

  /** A later block spans at most `12 * size` months and starts at month `12 * size` or beyond. */
  lemma LaterBlockStartsLate(n: nat, size: nat, b: nat)
    requires 0 < size && 0 < b && b * size < n
    ensures BlockMonths(n, size, b).end - BlockMonths(n, size, b).first <= 12 * size <= BlockMonths(n, size, b).first
  {
    var m := b * size;
    MultiplyMonotone(1, b, size);
    assert 12 * b * size == 12 * m;
    assert 12 * (b + 1) * size == 12 * m + 12 * size;
  }

  /** No label of a slice lies below its first month. */
  lemma LabelsBeforeSliceMissing(table: seq<MonthSpan>, months: MonthRange, key: nat)
    requires months.first <= months.end <= |table| && key < months.first
    ensures MonthBoundsAsWritten(SliceTable(table, months), key) == Failure(MissingLabel)
  {
    var rows := SliceTable(table, months);
    assert forall k :: 0 <= k < |rows| ==> rows[k].rowLabel == months.first + k;
  }
}
