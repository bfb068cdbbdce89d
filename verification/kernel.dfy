/**
  Temporal discretisation of raincells (rectangular pulses) into a buffer of
  fixed-width timesteps: the point kernel of the rainfall simulator.

  Times are hours on the clock of the month table, counted from the start of
  the realisation; the kernel shifts them to the start of the period (a
  month) it discretises.  Entry `t`
  of the buffer holds the depth that fell during `[t*ts, (t+1)*ts)` of that
  period.
*/
module Kernel {

  /** One rectangular pulse: it rains at `intensity` from `arrival` to `end`. */
  datatype Raincell = Raincell(arrival: real, end: real, intensity: real)

  /** The generator's promise about every raincell it produces. */
  predicate WellFormed(c: Raincell) {
    c.arrival <= c.end && 0.0 <= c.intensity
  }

  function Min(a: real, b: real): real { if a <= b then a else b }

  function Max(a: real, b: real): real { if a <= b then b else a }

  /** Start time of timestep `t`, relative to the period start. */
  function SlotStart(t: int, ts: real): real {
    t as real * ts
  }

  lemma ScaleMonotone(i: int, j: int, ts: real)
    requires i <= j && 0.0 < ts
    ensures SlotStart(i, ts) <= SlotStart(j, ts)
  {
    assert j as real * ts - i as real * ts == (j - i) as real * ts;
  }

  lemma NextTimestep(t: int, ts: real)
    ensures SlotStart(t + 1, ts) == SlotStart(t, ts) + ts
  {
  }

  /** The timestep containing time `x`: `int(floor(x / ts))`. */
  function TimestepOf(x: real, ts: real): (k: int)
    requires 0.0 < ts
    ensures SlotStart(k, ts) <= x < SlotStart(k + 1, ts)
  {
    FloorLower(x, ts);
    FloorUpper(x, ts);
    (x / ts).Floor
  }

  lemma FloorLower(x: real, ts: real)
    requires 0.0 < ts
    ensures SlotStart((x / ts).Floor, ts) <= x
  {
    var q := x / ts;
    var k := q.Floor as real;
    assert (q - k) * ts >= 0.0;
    assert q * ts == x;
  }

  lemma FloorUpper(x: real, ts: real)
    requires 0.0 < ts
    ensures x < SlotStart((x / ts).Floor + 1, ts)
  {
    var q := x / ts;
    var k := (q.Floor + 1) as real;
    assert (k - q) * ts > 0.0;
    assert q * ts == x;
  }

  /** A timestep is determined by the bounds it places `x` between. */
  lemma TimestepOfUnique(x: real, ts: real, k: int)
    requires 0.0 < ts
    requires SlotStart(k, ts) <= x < SlotStart(k + 1, ts)
    ensures TimestepOf(x, ts) == k
  {
    var j := TimestepOf(x, ts);
    if j < k {
      ScaleMonotone(j + 1, k, ts);
    } else if k < j {
      ScaleMonotone(k + 1, j, ts);
    }
  }

  /** Length of the intersection of `[a, e]` with timestep `t`'s interval. */
  function Overlap(a: real, e: real, t: int, ts: real): real {
    Min(e, SlotStart(t + 1, ts)) - Max(a, SlotStart(t, ts))
  }

  /** Depth of rain falling at `intensity` for `duration` hours. */
  function Deposit(intensity: real, duration: real): real {
    intensity * duration
  }

  /**
    Depth raincell `c` adds to timestep `t` of the period starting at `start`:
    its intensity times the overlap, for the timesteps from the one holding its
    arrival to the one holding its end, and nothing elsewhere.
  */
  function CellDepth(c: Raincell, start: real, ts: real, t: int): real
    requires 0.0 < ts
  {
    var a := c.arrival - start;
    var e := c.end - start;
    if TimestepOf(a, ts) <= t <= TimestepOf(e, ts) then Deposit(c.intensity, Overlap(a, e, t, ts)) else 0.0
  }

  /** Total depth the raincells add to timestep `t`, accumulated in list order. */
  function SlotDepth(cells: seq<Raincell>, start: real, ts: real, t: int): real
    requires 0.0 < ts
  {
    if |cells| == 0 then 0.0
    else SlotDepth(cells[..|cells| - 1], start, ts, t) + CellDepth(cells[|cells| - 1], start, ts, t)
  }

  /** Reference buffer: timesteps `0 .. len-1`, each holding its slot depth. */
  function PointBuffer(cells: seq<Raincell>, start: real, ts: real, len: nat): seq<real>
    requires 0.0 < ts
  {
    seq(len, t => SlotDepth(cells, start, ts, t))
  }

  /**
    The buffer the source's kernel produces: a negative timestep passes the
    `timestep < len` guard and is written at `timestep + len`, so slot `t`
    also receives what the raincells deposit in timestep `t - len`.
  */
  function PointBufferAsWritten(cells: seq<Raincell>, start: real, ts: real, len: nat): seq<real>
    requires 0.0 < ts
  {
    seq(len, t => SlotDepth(cells, start, ts, t) + SlotDepth(cells, start, ts, t - len))
  }

  /** Negative indexing is only defined down to `-len`: no earlier timestep is written. */
  predicate WrapDefined(c: Raincell, start: real, ts: real, len: nat)
    requires 0.0 < ts
  {
    var lo := TimestepOf(c.arrival - start, ts);
    lo <= TimestepOf(c.end - start, ts) ==> -(len as int) <= lo
  }

  lemma SlotDepthAppend(cells: seq<Raincell>, c: Raincell, start: real, ts: real, t: int)
    requires 0.0 < ts
    ensures SlotDepth(cells + [c], start, ts, t) == SlotDepth(cells, start, ts, t) + CellDepth(c, start, ts, t)
  {
    assert (cells + [c])[..|cells|] == cells;
  }

  /**
    Adds one raincell to the buffer, dropping every timestep outside
    `0 .. |buf|-1`.
  */
  method AddCell(buf: seq<real>, c: Raincell, start: real, ts: real) returns (out: seq<real>)
    requires 0.0 < ts
    ensures |out| == |buf|
    ensures forall t :: 0 <= t < |buf| ==> out[t] == buf[t] + CellDepth(c, start, ts, t)
  {
    var a := c.arrival - start;
    var e := c.end - start;
    var lo := TimestepOf(a, ts);
    var hi := TimestepOf(e, ts);
    out := buf;
    var k := lo;
    while k <= hi
      invariant lo <= k && (k == lo || k <= hi + 1)
      invariant |out| == |buf|
      invariant forall t :: 0 <= t < |buf| ==>
                  out[t] == buf[t] + (if lo <= t < k then Deposit(c.intensity, Overlap(a, e, t, ts)) else 0.0)
      decreases hi - k
    {
      var coverage := Overlap(a, e, k, ts);
      if 0 <= k < |out| {
        out := out[k := out[k] + Deposit(c.intensity, coverage)];
      }
      k := k + 1;
    }
  }

  /**
    The kernel with the lower bound the guard evidently intends: the buffer
    is zeroed, then each raincell adds intensity times overlap to every
    timestep it covers, and timesteps outside `0 .. len-1` are dropped.
  */
  method DiscretisePoint(start: real, ts: real, cells: seq<Raincell>, len: nat) returns (buf: seq<real>)
    requires 0.0 < ts
    ensures buf == PointBuffer(cells, start, ts, len)
  {
    buf := seq(len, _ => 0.0);
    var i := 0;
    while i < |cells|
      invariant 0 <= i <= |cells|
      invariant |buf| == len
      invariant forall t :: 0 <= t < len ==> buf[t] == SlotDepth(cells[..i], start, ts, t)
    {
      buf := AddCell(buf, cells[i], start, ts);
      assert cells[..i + 1] == cells[..i] + [cells[i]];
      forall t | 0 <= t < len
        ensures buf[t] == SlotDepth(cells[..i + 1], start, ts, t)
      {
        SlotDepthAppend(cells[..i], cells[i], start, ts, t);
      }
      i := i + 1;
    }
    assert cells[..|cells|] == cells;
  }

  /** What the first `k - lo` iterations of the timestep loop have added to timestep `t`. */
  ghost function Partial(c: Raincell, start: real, ts: real, lo: int, k: int, t: int): real
    requires 0.0 < ts
  {
    if lo <= t < k then Deposit(c.intensity, Overlap(c.arrival - start, c.end - start, t, ts)) else 0.0
  }

  /**
    Adds one raincell as the source does: the only guard is
    `timestep < |buf|`, and a negative timestep indexes from the end.
  */
  method AddCellAsWritten(buf: seq<real>, c: Raincell, start: real, ts: real) returns (out: seq<real>)
    requires 0.0 < ts
    requires WrapDefined(c, start, ts, |buf|)
    ensures |out| == |buf|
    ensures forall t :: 0 <= t < |buf| ==>
              out[t] == buf[t] + CellDepth(c, start, ts, t) + CellDepth(c, start, ts, t - |buf|)
  {
    var n := |buf|;
    var a := c.arrival - start;
    var e := c.end - start;
    var lo := TimestepOf(a, ts);
    var hi := TimestepOf(e, ts);
    out := buf;
    var k := lo;
    while k <= hi
      invariant lo <= k && (k == lo || k <= hi + 1)
      invariant lo <= hi ==> -n <= lo
      invariant |out| == n
      invariant forall t :: 0 <= t < n ==>
                  out[t] == buf[t] + Partial(c, start, ts, lo, k, t) + Partial(c, start, ts, lo, k, t - n)
      decreases hi - k
    {
      var coverage := Overlap(a, e, k, ts);
      var depth := Deposit(c.intensity, coverage);
      ghost var previous := out;
      var index := if k < 0 then k + n else k;
      if k < n {
        out := out[index := out[index] + depth];
      }
      AsWrittenStep(buf, previous, out, c, start, ts, lo, k, index, depth);
      k := k + 1;
    }
    forall t | 0 <= t < n
      ensures out[t] == buf[t] + CellDepth(c, start, ts, t) + CellDepth(c, start, ts, t - n)
    {
      PartialComplete(c, start, ts, k, t);
      PartialComplete(c, start, ts, k, t - n);
    }
  }

  /** Once the timestep loop has passed the raincell's last timestep, it has added the raincell's depth. */
  lemma PartialComplete(c: Raincell, start: real, ts: real, k: int, t: int)
    requires 0.0 < ts
    requires var lo := TimestepOf(c.arrival - start, ts);
             var hi := TimestepOf(c.end - start, ts);
             lo <= k && (k == lo || k <= hi + 1) && hi < k
    ensures Partial(c, start, ts, TimestepOf(c.arrival - start, ts), k, t) == CellDepth(c, start, ts, t)
  {
  }

  /** One iteration of the as-written timestep loop adds timestep `k`'s depth at its wrapped index. */
  lemma AsWrittenStep(buf: seq<real>, previous: seq<real>, out: seq<real>, c: Raincell, start: real, ts: real,
                      lo: int, k: int, index: int, depth: real)
    requires 0.0 < ts && |previous| == |buf| && lo <= k && -|buf| <= k
    requires forall t :: 0 <= t < |buf| ==>
               previous[t] == buf[t] + Partial(c, start, ts, lo, k, t) + Partial(c, start, ts, lo, k, t - |buf|)
    requires index == (if k < 0 then k + |buf| else k)
    requires depth == Deposit(c.intensity, Overlap(c.arrival - start, c.end - start, k, ts))
    requires k < |buf| ==> 0 <= index < |buf| && out == previous[index := previous[index] + depth]
    requires |buf| <= k ==> out == previous
    ensures |out| == |buf|
    ensures forall t :: 0 <= t < |buf| ==>
              out[t] == buf[t] + Partial(c, start, ts, lo, k + 1, t) + Partial(c, start, ts, lo, k + 1, t - |buf|)
  {
    var n := |buf|;
    forall t | 0 <= t < n
      ensures out[t] == buf[t] + Partial(c, start, ts, lo, k + 1, t) + Partial(c, start, ts, lo, k + 1, t - n)
    {
      var p := Partial(c, start, ts, lo, k, t);
      var q := Partial(c, start, ts, lo, k, t - n);
      if k < n && t == index {
        if k < 0 {
          assert Partial(c, start, ts, lo, k + 1, t) == p;
          assert Partial(c, start, ts, lo, k + 1, t - n) == q + depth;
        } else {
          assert Partial(c, start, ts, lo, k + 1, t) == p + depth;
          assert Partial(c, start, ts, lo, k + 1, t - n) == q;
        }
        assert out[t] == previous[t] + depth;
      } else {
        assert Partial(c, start, ts, lo, k + 1, t) == p;
        assert Partial(c, start, ts, lo, k + 1, t - n) == q;
      }
    }
  }

  /** The kernel as written, negative timesteps included. */
  method DiscretisePointAsWritten(start: real, ts: real, cells: seq<Raincell>, len: nat) returns (buf: seq<real>)
    requires 0.0 < ts
    requires forall i :: 0 <= i < |cells| ==> WrapDefined(cells[i], start, ts, len)
    ensures buf == PointBufferAsWritten(cells, start, ts, len)
  {
    buf := seq(len, _ => 0.0);
    var i := 0;
    while i < |cells|
      invariant 0 <= i <= |cells|
      invariant |buf| == len
      invariant forall t :: 0 <= t < len ==>
                  buf[t] == SlotDepth(cells[..i], start, ts, t) + SlotDepth(cells[..i], start, ts, t - len)
    {
      buf := AddCellAsWritten(buf, cells[i], start, ts);
      assert cells[..i + 1] == cells[..i] + [cells[i]];
      forall t | 0 <= t < len
        ensures buf[t] == SlotDepth(cells[..i + 1], start, ts, t) + SlotDepth(cells[..i + 1], start, ts, t - len)
      {
        SlotDepthAppend(cells[..i], cells[i], start, ts, t);
        SlotDepthAppend(cells[..i], cells[i], start, ts, t - len);
      }
      i := i + 1;
    }
    assert cells[..|cells|] == cells;
  }

  // ---------------------------------------------------------------------------
  // Properties of the reference buffer

  /** A well-formed raincell never removes depth from a timestep. */
  lemma CellDepthNonNegative(c: Raincell, start: real, ts: real, t: int)
    requires 0.0 < ts && WellFormed(c)
    ensures 0.0 <= CellDepth(c, start, ts, t)
  {
    var a := c.arrival - start;
    var e := c.end - start;
    var lo := TimestepOf(a, ts);
    var hi := TimestepOf(e, ts);
    if lo <= t <= hi {
      ScaleMonotone(lo + 1, t + 1, ts);
      ScaleMonotone(t, hi, ts);
      assert Max(a, SlotStart(t, ts)) <= Min(e, SlotStart(t + 1, ts));
      assert 0.0 <= c.intensity * Overlap(a, e, t, ts);
    }
  }

  lemma {:induction false} SlotDepthNonNegative(cells: seq<Raincell>, start: real, ts: real, t: int)
    requires 0.0 < ts
    requires forall i :: 0 <= i < |cells| ==> WellFormed(cells[i])
    ensures 0.0 <= SlotDepth(cells, start, ts, t)
  {
    if |cells| > 0 {
      SlotDepthNonNegative(cells[..|cells| - 1], start, ts, t);
      CellDepthNonNegative(cells[|cells| - 1], start, ts, t);
    }
  }

  /** With well-formed raincells every entry of the buffer is non-negative. */
  lemma PointBufferNonNegative(cells: seq<Raincell>, start: real, ts: real, len: nat)
    requires 0.0 < ts
    requires forall i :: 0 <= i < |cells| ==> WellFormed(cells[i])
    ensures forall t :: 0 <= t < len ==> 0.0 <= PointBuffer(cells, start, ts, len)[t]
  {
    forall t | 0 <= t < len
      ensures 0.0 <= PointBuffer(cells, start, ts, len)[t]
    {
      SlotDepthNonNegative(cells, start, ts, t);
    }
  }

  /**
    A raincell whose arrival and end fall in the same timestep puts its whole
    depth, intensity times duration, in that timestep and nothing elsewhere.
  */
  lemma SingleSlotContainment(c: Raincell, start: real, ts: real, t: int)
    requires 0.0 < ts
    requires TimestepOf(c.arrival - start, ts) == TimestepOf(c.end - start, ts)
    ensures t == TimestepOf(c.arrival - start, ts) ==> CellDepth(c, start, ts, t) == Deposit(c.intensity, c.end - c.arrival)
    ensures t != TimestepOf(c.arrival - start, ts) ==> CellDepth(c, start, ts, t) == 0.0
  {
  }

  /** Sum of `CellDepth` over timesteps `lo .. hi-1`. */
  function CellSum(c: Raincell, start: real, ts: real, lo: int, hi: int): real
    requires 0.0 < ts
    decreases hi - lo
  {
    if hi <= lo then 0.0 else CellSum(c, start, ts, lo, hi - 1) + CellDepth(c, start, ts, hi - 1)
  }

  /** Length of the part of `[a, e]` that lies before time `limit`. */
  function DurationBefore(a: real, e: real, limit: real): real {
    Min(e, limit) - Min(a, limit)
  }

  lemma DepositAdd(intensity: real, x: real, y: real)
    ensures Deposit(intensity, x) + Deposit(intensity, y) == Deposit(intensity, x + y)
  {
  }

  lemma DepositOfNothing(intensity: real)
    ensures Deposit(intensity, 0.0) == 0.0
  {
  }

  /**
    Moving the limit from the start of timestep `m` to its end adds exactly
    the overlap with timestep `m` when the raincell covers it, and nothing
    otherwise.
  */
  lemma DurationBeforeStep(a: real, e: real, ts: real, m: int)
    requires 0.0 < ts && a <= e
    ensures DurationBefore(a, e, SlotStart(m + 1, ts)) - DurationBefore(a, e, SlotStart(m, ts))
            == (if TimestepOf(a, ts) <= m <= TimestepOf(e, ts) then Overlap(a, e, m, ts) else 0.0)
  {
    var lo := TimestepOf(a, ts);
    var hi := TimestepOf(e, ts);
    NextTimestep(m, ts);
    if m < lo {
      ScaleMonotone(m + 1, lo, ts);
    } else if m <= hi {
      ScaleMonotone(lo + 1, m + 1, ts);
      ScaleMonotone(m, hi, ts);
    } else {
      ScaleMonotone(hi + 1, m, ts);
    }
  }

  /**
    Clipping: over timesteps `0 .. n-1` a raincell that does not start before
    the period deposits exactly intensity times the part of its duration that
    lies before `n*ts`; what lies beyond is dropped.
  */
  lemma {:induction false} CellSumClipped(c: Raincell, start: real, ts: real, n: nat)
    requires 0.0 < ts
    requires start <= c.arrival <= c.end
    ensures CellSum(c, start, ts, 0, n)
            == Deposit(c.intensity, DurationBefore(c.arrival - start, c.end - start, SlotStart(n, ts)))
  {
    var a := c.arrival - start;
    var e := c.end - start;
    if n == 0 {
      assert SlotStart(0, ts) == 0.0;
      assert DurationBefore(a, e, 0.0) == 0.0;
      DepositOfNothing(c.intensity);
    } else {
      var m := n - 1;
      CellSumClipped(c, start, ts, m);
      var before := DurationBefore(a, e, SlotStart(m, ts));
      var after := DurationBefore(a, e, SlotStart(n, ts));
      DurationBeforeStep(a, e, ts, m);
      assert CellDepth(c, start, ts, m) == Deposit(c.intensity, after - before) by {
        if !(TimestepOf(a, ts) <= m <= TimestepOf(e, ts)) {
          DepositOfNothing(c.intensity);
        }
      }
      DepositAdd(c.intensity, before, after - before);
    }
  }

  /**
    Conservation of depth: a raincell inside the period `[start, start+n*ts]`
    deposits exactly intensity times its duration over the `n` timesteps.
  */
  lemma CellConservation(c: Raincell, start: real, ts: real, n: nat)
    requires 0.0 < ts
    requires start <= c.arrival <= c.end <= start + SlotStart(n, ts)
    ensures CellSum(c, start, ts, 0, n) == Deposit(c.intensity, c.end - c.arrival)
  {
    CellSumClipped(c, start, ts, n);
    assert DurationBefore(c.arrival - start, c.end - start, SlotStart(n, ts)) == c.end - c.arrival;
  }

  /** Sum of the first `n` slots of the reference buffer. */
  function SlotTotal(cells: seq<Raincell>, start: real, ts: real, n: nat): real
    requires 0.0 < ts
  {
    if n == 0 then 0.0 else SlotTotal(cells, start, ts, n - 1) + SlotDepth(cells, start, ts, n - 1)
  }

  /** Sum over raincells of what each deposits in the first `n` slots. */
  function CellsTotal(cells: seq<Raincell>, start: real, ts: real, n: nat): real
    requires 0.0 < ts
  {
    if |cells| == 0 then 0.0
    else CellsTotal(cells[..|cells| - 1], start, ts, n) + CellSum(cells[|cells| - 1], start, ts, 0, n)
  }

  /** Total rain the raincells carry: intensity times duration, summed. */
  function TotalDepth(cells: seq<Raincell>): real {
    if |cells| == 0 then 0.0
    else TotalDepth(cells[..|cells| - 1]) + Deposit(cells[|cells| - 1].intensity, cells[|cells| - 1].end - cells[|cells| - 1].arrival)
  }

  lemma {:induction false} CellsTotalStep(cells: seq<Raincell>, start: real, ts: real, n: nat)
    requires 0.0 < ts
    ensures CellsTotal(cells, start, ts, n + 1) == CellsTotal(cells, start, ts, n) + SlotDepth(cells, start, ts, n)
  {
    if |cells| > 0 {
      CellsTotalStep(cells[..|cells| - 1], start, ts, n);
    }
  }

  /** Summing the buffer slot by slot equals summing raincell by raincell. */
  lemma {:induction false} SlotTotalIsCellsTotal(cells: seq<Raincell>, start: real, ts: real, n: nat)
    requires 0.0 < ts
    ensures SlotTotal(cells, start, ts, n) == CellsTotal(cells, start, ts, n)
  {
    if n == 0 {
      EmptyCellsTotal(cells, start, ts);
    } else {
      SlotTotalIsCellsTotal(cells, start, ts, n - 1);
      CellsTotalStep(cells, start, ts, n - 1);
    }
  }

  lemma {:induction false} EmptyCellsTotal(cells: seq<Raincell>, start: real, ts: real)
    requires 0.0 < ts
    ensures CellsTotal(cells, start, ts, 0) == 0.0
  {
    if |cells| > 0 {
      EmptyCellsTotal(cells[..|cells| - 1], start, ts);
    }
  }

  /** Sum of a sequence of reals. */
  function Sum(s: seq<real>): real {
    if |s| == 0 then 0.0 else Sum(s[..|s| - 1]) + s[|s| - 1]
  }

  lemma {:induction false} SumOfPointBuffer(cells: seq<Raincell>, start: real, ts: real, n: nat)
    requires 0.0 < ts
    ensures Sum(PointBuffer(cells, start, ts, n)) == SlotTotal(cells, start, ts, n)
  {
    if n > 0 {
      assert PointBuffer(cells, start, ts, n)[..n - 1] == PointBuffer(cells, start, ts, n - 1);
      SumOfPointBuffer(cells, start, ts, n - 1);
    }
  }

  lemma {:induction false} CellsTotalConserves(cells: seq<Raincell>, start: real, ts: real, n: nat)
    requires 0.0 < ts
    requires forall i :: 0 <= i < |cells| ==>
               start <= cells[i].arrival <= cells[i].end <= start + SlotStart(n, ts)
    ensures CellsTotal(cells, start, ts, n) == TotalDepth(cells)
  {
    if |cells| > 0 {
      CellsTotalConserves(cells[..|cells| - 1], start, ts, n);
      CellConservation(cells[|cells| - 1], start, ts, n);
    }
  }

  /**
    Conservation for the whole buffer: when every raincell lies inside the
    period, the buffer's entries add up to the total rain the raincells carry.
  */
  lemma BufferConservesDepth(cells: seq<Raincell>, start: real, ts: real, len: nat)
    requires 0.0 < ts
    requires forall i :: 0 <= i < |cells| ==>
               start <= cells[i].arrival <= cells[i].end <= start + SlotStart(len, ts)
    ensures Sum(PointBuffer(cells, start, ts, len)) == TotalDepth(cells)
  {
    SumOfPointBuffer(cells, start, ts, len);
    SlotTotalIsCellsTotal(cells, start, ts, len);
    CellsTotalConserves(cells, start, ts, len);
  }

  // ---------------------------------------------------------------------------
  // The source's negative-timestep wrap-around

  lemma {:induction false} NoDepthBeforeStart(cells: seq<Raincell>, start: real, ts: real, t: int)
    requires 0.0 < ts && t < 0
    requires forall i :: 0 <= i < |cells| ==> start <= cells[i].arrival
    ensures SlotDepth(cells, start, ts, t) == 0.0
  {
    if |cells| > 0 {
      NoDepthBeforeStart(cells[..|cells| - 1], start, ts, t);
      assert 0 <= TimestepOf(cells[|cells| - 1].arrival - start, ts) by {
        var a := cells[|cells| - 1].arrival - start;
        if TimestepOf(a, ts) < 0 {
          ScaleMonotone(TimestepOf(a, ts) + 1, 0, ts);
        }
      }
    }
  }

  /**
    When no raincell arrives before the period starts, the kernel as written
    and the corrected kernel produce the same buffer.
  */
  lemma AsWrittenAgreesWithoutEarlyCells(cells: seq<Raincell>, start: real, ts: real, len: nat)
    requires 0.0 < ts
    requires forall i :: 0 <= i < |cells| ==> start <= cells[i].arrival
    ensures PointBufferAsWritten(cells, start, ts, len) == PointBuffer(cells, start, ts, len)
  {
    forall t | 0 <= t < len
      ensures PointBufferAsWritten(cells, start, ts, len)[t] == PointBuffer(cells, start, ts, len)[t]
    {
      NoDepthBeforeStart(cells, start, ts, t - len);
    }
  }

  /**
    An hourly 31-day buffer (744 slots) and a raincell from half an hour
    before the period to half an hour into it: as written, the half hour
    before the period lands in the last slot of the month; corrected, the last
    slot stays empty.
  */
  lemma EarlyRaincellWrapsToTail(c: Raincell, len: nat)
    requires c == Raincell(-0.5, 0.5, 1.0) && len == 744
    ensures PointBufferAsWritten([c], 0.0, 1.0, len)[len - 1] == 0.5
    ensures PointBuffer([c], 0.0, 1.0, len)[len - 1] == 0.0
    ensures PointBuffer([c], 0.0, 1.0, len)[0] == 0.5
  {
    PointBufferAsWrittenAt([c], 0.0, 1.0, len, len - 1);
    PointBufferAt([c], 0.0, 1.0, len, len - 1);
    PointBufferAt([c], 0.0, 1.0, len, 0);
    EarlySlot(c, -1);
    EarlySlot(c, len - 1);
    EarlySlot(c, 0);
  }

  /** Reading one slot of the buffer as written. */
  lemma PointBufferAsWrittenAt(cells: seq<Raincell>, start: real, ts: real, len: nat, t: nat)
    requires 0.0 < ts && t < len
    ensures PointBufferAsWritten(cells, start, ts, len)[t]
            == SlotDepth(cells, start, ts, t) + SlotDepth(cells, start, ts, t - len)
  {
  }

  /** The raincell from -0.5 h to 0.5 h puts half an hour into timesteps -1 and 0. */
  lemma EarlySlot(c: Raincell, t: int)
    requires c == Raincell(-0.5, 0.5, 1.0)
    ensures SlotDepth([c], 0.0, 1.0, t) == (if t == -1 || t == 0 then 0.5 else 0.0)
  {
    assert [c][..0] == [];
    TimestepOfUnique(-0.5, 1.0, -1);
    TimestepOfUnique(0.5, 1.0, 0);
    assert SlotStart(-1, 1.0) == -1.0 && SlotStart(0, 1.0) == 0.0 && SlotStart(1, 1.0) == 1.0;
    if t == -1 {
      assert Overlap(-0.5, 0.5, -1, 1.0) == 0.5;
    } else if t == 0 {
      assert Overlap(-0.5, 0.5, 0, 1.0) == 0.5;
    }
  }

  /** As written, the raincell from -1.5 h to -0.5 h lands in the last two slots. */
  lemma LateRaincellWraps(c: Raincell, len: nat)
    requires c == Raincell(-1.5, -0.5, 1.0) && len == 744
    ensures PointBufferAsWritten([c], 0.0, 1.0, len)[len - 2] == 0.5
    ensures PointBufferAsWritten([c], 0.0, 1.0, len)[len - 1] == 0.5
  {
    PointBufferAsWrittenAt([c], 0.0, 1.0, len, len - 2);
    PointBufferAsWrittenAt([c], 0.0, 1.0, len, len - 1);
    LateSlot(c, len - 2);
    LateSlot(c, len - 1);
    LateSlot(c, -2);
    LateSlot(c, -1);
  }

  /** As written, no raincell puts nothing anywhere. */
  lemma EmptyBufferAsWritten(start: real, ts: real, len: nat, t: nat)
    requires 0.0 < ts && t < len
    ensures PointBufferAsWritten([], start, ts, len)[t] == 0.0
  {
    PointBufferAsWrittenAt([], start, ts, len, t);
  }

  /** The raincell from -1.5 h to -0.5 h puts half an hour into timesteps -2 and -1. */
  lemma LateSlot(c: Raincell, t: int)
    requires c == Raincell(-1.5, -0.5, 1.0)
    ensures SlotDepth([c], 0.0, 1.0, t) == (if t == -2 || t == -1 then 0.5 else 0.0)
  {
    assert [c][..0] == [];
    TimestepOfUnique(-1.5, 1.0, -2);
    TimestepOfUnique(-0.5, 1.0, -1);
    assert SlotStart(-2, 1.0) == -2.0 && SlotStart(-1, 1.0) == -1.0 && SlotStart(0, 1.0) == 0.0;
    if t == -2 {
      assert Overlap(-1.5, -0.5, -2, 1.0) == 0.5;
    } else if t == -1 {
      assert Overlap(-1.5, -0.5, -1, 1.0) == 0.5;
    }
  }

  /**
    Hourly timesteps and one raincell from hour 0 to hour 1.5 at intensity 2:
    the buffer reads 2, 1, then zeros.
  */
  lemma ThreeHalfHourExample(c: Raincell, len: nat, t: nat)
    requires c == Raincell(0.0, 1.5, 2.0)
    requires 2 <= len && 2 <= t < len
    ensures PointBuffer([c], 0.0, 1.0, len)[0] == 2.0
    ensures PointBuffer([c], 0.0, 1.0, len)[1] == 1.0
    ensures PointBuffer([c], 0.0, 1.0, len)[t] == 0.0
  {
    ExampleBufferAt(c, len, 0);
    ExampleBufferAt(c, len, 1);
    ExampleBufferAt(c, len, t);
  }

  lemma ExampleBufferAt(c: Raincell, len: nat, t: nat)
    requires c == Raincell(0.0, 1.5, 2.0) && t < len
    ensures PointBuffer([c], 0.0, 1.0, len)[t] == (if t == 0 then 2.0 else if t == 1 then 1.0 else 0.0)
  {
    PointBufferAt([c], 0.0, 1.0, len, t);
    ExampleSlot(c, t);
  }

  /** Reading one slot of the point buffer. */
  lemma PointBufferAt(cells: seq<Raincell>, start: real, ts: real, len: nat, t: nat)
    requires 0.0 < ts && t < len
    ensures PointBuffer(cells, start, ts, len)[t] == SlotDepth(cells, start, ts, t)
  {
  }

  lemma ExampleSlot(c: Raincell, t: int)
    requires c == Raincell(0.0, 1.5, 2.0)
    ensures SlotDepth([c], 0.0, 1.0, t) == (if t == 0 then 2.0 else if t == 1 then 1.0 else 0.0)
  {
    assert [c][..0] == [];
    ExampleCellDepth(c, t);
  }

  lemma ExampleCellDepth(c: Raincell, t: int)
    requires c == Raincell(0.0, 1.5, 2.0)
    ensures CellDepth(c, 0.0, 1.0, t) == (if t == 0 then 2.0 else if t == 1 then 1.0 else 0.0)
  {
    TimestepOfUnique(0.0, 1.0, 0);
    TimestepOfUnique(1.5, 1.0, 1);
    assert SlotStart(0, 1.0) == 0.0 && SlotStart(1, 1.0) == 1.0 && SlotStart(2, 1.0) == 2.0;
    if t == 0 {
      assert Overlap(0.0, 1.5, 0, 1.0) == 1.0;
    } else if t == 1 {
      assert Overlap(0.0, 1.5, 1, 1.0) == 0.5;
    }
  }
}
