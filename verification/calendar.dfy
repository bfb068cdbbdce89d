/**
  The calendar partition of a realisation: per-month timestep counts turned
  into cumulative timestep and time bounds, the overlap test that selects the
  raincells of one month, and the fixed per-month buffer length.
*/
module Calendar {
  import opened Results
  import opened Kernel

  /** One row of the month table: timestep and time bounds of a calendar month. */
  datatype MonthSpan = MonthSpan(
    nTimesteps: nat,
    startTimestep: nat,   // first timestep of the month
    endTimestep: nat,     // first timestep of the next month
    startTime: real,
    endTime: real,
    nHours: real)

  /** Timesteps in the months before month `i`. */
  function TimestepsBefore(counts: seq<nat>, i: nat): nat
    requires i <= |counts|
  {
    if i == 0 then 0 else TimestepsBefore(counts, i - 1) + counts[i - 1]
  }

  /** Month `i` of the table, in closed form. */
  function Span(counts: seq<nat>, ts: real, i: nat): MonthSpan
    requires i < |counts|
  {
    var first := TimestepsBefore(counts, i);
    var next := TimestepsBefore(counts, i + 1);
    MonthSpan(counts[i], first, next, SlotStart(first, ts), SlotStart(next, ts), SlotStart(next, ts) - SlotStart(first, ts))
  }

  /** Reference month table: one row per month, each in closed form. */
  function CalendarOf(counts: seq<nat>, ts: real): (table: seq<MonthSpan>)
    ensures |table| == |counts|
  {
    seq(|counts|, i requires 0 <= i < |counts| => Span(counts, ts, i))
  }

  /**
    Builds the month table as the source does: a cumulative sum gives each
    month's end timestep, the end timesteps shifted by one month give the start
    timesteps with the first set to zero, and times are timesteps times the
    timestep length.  Setting the first start fails on an empty table.
  */
  method BuildCalendar(counts: seq<nat>, ts: real) returns (r: Result<seq<MonthSpan>>)
    ensures |counts| == 0 ==> r == Failure(EmptyCalendar)
    ensures |counts| > 0 ==> r == Success(CalendarOf(counts, ts))
  {
    if |counts| == 0 {
      return Failure(EmptyCalendar);
    }
    var ends: seq<nat> := [];
    var total := 0;
    var i := 0;
    while i < |counts|
      invariant 0 <= i <= |counts| && |ends| == i
      invariant total == TimestepsBefore(counts, i)
      invariant forall k :: 0 <= k < i ==> ends[k] == TimestepsBefore(counts, k + 1)
    {
      total := total + counts[i];
      ends := ends + [total];
      i := i + 1;
    }
    var table: seq<MonthSpan> := [];
    i := 0;
    while i < |counts|
      invariant 0 <= i <= |counts| && |table| == i
      invariant forall k :: 0 <= k < i ==> table[k] == Span(counts, ts, k)
    {
      var first := if i == 0 then 0 else ends[i - 1];
      var startTime := first as real * ts;
      var endTime := ends[i] as real * ts;
      table := table + [MonthSpan(counts[i], first, ends[i], startTime, endTime, endTime - startTime)];
      i := i + 1;
    }
    assert table == CalendarOf(counts, ts);
    return Success(table);
  }

  lemma SlotStartDifference(i: int, j: int, ts: real)
    ensures SlotStart(j, ts) - SlotStart(i, ts) == SlotStart(j - i, ts)
  {
    assert j as real * ts - i as real * ts == (j - i) as real * ts;
  }

  /** The facts about one row of the month table. */
  lemma SpanFacts(counts: seq<nat>, ts: real, i: nat)
    requires i < |counts|
    ensures Span(counts, ts, i).endTimestep - Span(counts, ts, i).startTimestep == counts[i]
    ensures Span(counts, ts, i).nHours == SlotStart(counts[i], ts)
    ensures Span(counts, ts, i).endTime == Span(counts, ts, i).startTime + SlotStart(counts[i], ts)
  {
    SlotStartDifference(TimestepsBefore(counts, i), TimestepsBefore(counts, i + 1), ts);
  }

  /**
    The month table partitions the timeline: the first month starts at
    timestep and time zero, each month starts where the previous one ended,
    and the last ends after all the realisation's timesteps.
  */
  lemma CalendarContiguous(counts: seq<nat>, ts: real)
    ensures |counts| > 0 ==> CalendarOf(counts, ts)[0].startTimestep == 0
    ensures |counts| > 0 ==> CalendarOf(counts, ts)[0].startTime == 0.0
    ensures forall i :: 0 <= i < |counts| - 1 ==>
              CalendarOf(counts, ts)[i + 1].startTimestep == CalendarOf(counts, ts)[i].endTimestep &&
              CalendarOf(counts, ts)[i + 1].startTime == CalendarOf(counts, ts)[i].endTime
    ensures |counts| > 0 ==> CalendarOf(counts, ts)[|counts| - 1].endTimestep == TimestepsBefore(counts, |counts|)
  {
    var table := CalendarOf(counts, ts);
    forall i | 0 <= i < |counts| - 1
      ensures table[i + 1].startTimestep == table[i].endTimestep && table[i + 1].startTime == table[i].endTime
    {
      assert table[i] == Span(counts, ts, i);
      assert table[i + 1] == Span(counts, ts, i + 1);
    }
    if |counts| > 0 {
      assert table[0] == Span(counts, ts, 0);
      assert table[|counts| - 1] == Span(counts, ts, |counts| - 1);
    }
  }

  /**
    Each month spans exactly its number of timesteps, and its hours (and the
    distance between its start and end times) are that number times the
    timestep length.
  */
  lemma CalendarWidths(counts: seq<nat>, ts: real)
    ensures forall i :: 0 <= i < |counts| ==>
              CalendarOf(counts, ts)[i].endTimestep - CalendarOf(counts, ts)[i].startTimestep == counts[i] &&
              CalendarOf(counts, ts)[i].nTimesteps == counts[i]
    ensures forall i :: 0 <= i < |counts| ==> CalendarOf(counts, ts)[i].nHours == SlotStart(counts[i], ts)
    ensures forall i :: 0 <= i < |counts| ==>
              CalendarOf(counts, ts)[i].endTime == CalendarOf(counts, ts)[i].startTime + SlotStart(counts[i], ts)
  {
    var table := CalendarOf(counts, ts);
    forall i | 0 <= i < |counts|
      ensures table[i].endTimestep - table[i].startTimestep == counts[i] && table[i].nTimesteps == counts[i]
      ensures table[i].nHours == SlotStart(counts[i], ts)
      ensures table[i].endTime == table[i].startTime + SlotStart(counts[i], ts)
    {
      assert table[i] == Span(counts, ts, i);
      SpanFacts(counts, ts, i);
    }
  }

  /** The month holding timestep `t` of the realisation. */
  function MonthContaining(counts: seq<nat>, t: nat): (i: nat)
    requires t < TimestepsBefore(counts, |counts|)
    ensures i < |counts|
    ensures TimestepsBefore(counts, i) <= t < TimestepsBefore(counts, i + 1)
    decreases |counts|
  {
    if t < TimestepsBefore(counts, |counts| - 1) then
      PrefixOfPrefix(counts, |counts| - 1);
      var i := MonthContaining(counts[..|counts| - 1], t);
      PrefixOfPrefix(counts, i);
      PrefixOfPrefix(counts, i + 1);
      i
    else
      |counts| - 1
  }

  lemma {:induction false} PrefixOfPrefix(counts: seq<nat>, i: nat)
    requires i < |counts|
    ensures TimestepsBefore(counts[..|counts| - 1], i) == TimestepsBefore(counts, i)
  {
    if i > 0 {
      PrefixOfPrefix(counts, i - 1);
      assert counts[..|counts| - 1][i - 1] == counts[i - 1];
    }
  }

  lemma {:induction false} TimestepsBeforeMonotone(counts: seq<nat>, i: nat, j: nat)
    requires i <= j <= |counts|
    ensures TimestepsBefore(counts, i) <= TimestepsBefore(counts, j)
    decreases j - i
  {
    if i < j {
      TimestepsBeforeMonotone(counts, i, j - 1);
    }
  }

  /** Months do not overlap: a timestep lies in no month but the one containing it. */
  lemma MonthContainingUnique(counts: seq<nat>, t: nat, j: nat)
    requires j < |counts|
    requires TimestepsBefore(counts, j) <= t < TimestepsBefore(counts, j + 1)
    ensures t < TimestepsBefore(counts, |counts|)
    ensures MonthContaining(counts, t) == j
  {
    TimestepsBeforeMonotone(counts, j + 1, |counts|);
    var i := MonthContaining(counts, t);
    if i < j {
      TimestepsBeforeMonotone(counts, i + 1, j);
    } else if j < i {
      TimestepsBeforeMonotone(counts, j + 1, i);
    }
  }

  // ---------------------------------------------------------------------------
  // Raincells of one month

  /** The temporal mask: the raincell is still raining after the month starts and arrived before it ends. */
  predicate KeptForMonth(c: Raincell, span: MonthSpan) {
    c.arrival < span.endTime && c.end > span.startTime
  }

  /** The raincells the temporal mask keeps, in their original order. */
  function MonthCells(cells: seq<Raincell>, span: MonthSpan): (kept: seq<Raincell>)
    ensures |kept| <= |cells|
  {
    if |cells| == 0 then []
    else
      var rest := MonthCells(cells[..|cells| - 1], span);
      if KeptForMonth(cells[|cells| - 1], span) then rest + [cells[|cells| - 1]] else rest
  }

  /** A raincell is kept for a month if and only if it is generated and overlaps the month. */
  lemma {:induction false} MonthCellsMembers(cells: seq<Raincell>, span: MonthSpan, c: Raincell)
    ensures c in MonthCells(cells, span) <==> c in cells && KeptForMonth(c, span)
  {
    if |cells| > 0 {
      var init := cells[..|cells| - 1];
      MonthCellsMembers(init, span, c);
      assert cells == init + [cells[|cells| - 1]];
    }
  }

  /** The mask applied to the raincell arrays. */
  method SelectMonthCells(cells: seq<Raincell>, span: MonthSpan) returns (kept: seq<Raincell>)
    ensures kept == MonthCells(cells, span)
  {
    kept := [];
    var i := 0;
    while i < |cells|
      invariant 0 <= i <= |cells|
      invariant kept == MonthCells(cells[..i], span)
    {
      assert cells[..i + 1][..i] == cells[..i];
      if cells[i].arrival < span.endTime && cells[i].end > span.startTime {
        kept := kept + [cells[i]];
      }
      i := i + 1;
    }
    assert cells[..|cells|] == cells;
  }

  /**
    A well-formed raincell the mask drops deposits nothing in the month's
    timesteps: it either arrives at or after the month's end or stops by its start.
  */
  lemma DroppedCellAddsNothing(c: Raincell, start: real, ts: real, n: nat, t: int)
    requires 0.0 < ts && WellFormed(c) && 0 <= t < n
    requires !(c.arrival < start + SlotStart(n, ts) && c.end > start)
    ensures CellDepth(c, start, ts, t) == 0.0
  {
    var a := c.arrival - start;
    var e := c.end - start;
    var lo := TimestepOf(a, ts);
    var hi := TimestepOf(e, ts);
    if lo <= t <= hi {
      if c.end <= start {
        if hi > 0 {
          ScaleMonotone(1, hi, ts);
        }
        assert hi == 0 && t == 0 && e == 0.0;
        assert Overlap(a, e, t, ts) == 0.0;
        DepositOfNothing(c.intensity);
      } else {
        assert SlotStart(n, ts) <= a;
        if lo < n {
          ScaleMonotone(lo + 1, n, ts);
        }
        assert false;
      }
    }
  }

  /**
    Masking changes none of the month's timesteps: within the month, the
    kept raincells deposit exactly what all raincells deposit.
  */
  lemma {:induction false} MonthFilterPreservesSlots(cells: seq<Raincell>, span: MonthSpan, ts: real, t: int)
    requires 0.0 < ts && 0 <= t < span.nTimesteps
    requires span.endTime == span.startTime + SlotStart(span.nTimesteps, ts)
    requires forall i :: 0 <= i < |cells| ==> WellFormed(cells[i])
    ensures SlotDepth(MonthCells(cells, span), span.startTime, ts, t) == SlotDepth(cells, span.startTime, ts, t)
  {
    if |cells| > 0 {
      var init := cells[..|cells| - 1];
      var last := cells[|cells| - 1];
      MonthFilterPreservesSlots(init, span, ts, t);
      if KeptForMonth(last, span) {
        SlotDepthAppend(MonthCells(init, span), last, span.startTime, ts, t);
      } else {
        DroppedCellAddsNothing(last, span.startTime, ts, span.nTimesteps, t);
      }
    }
  }

  /**
    With the point kernel as written the mask does change a slot: a raincell
    that stopped half an hour before the month starts wraps into the month's
    last two slots when discretised, and the mask drops it.
  */
  lemma MonthFilterChangesSlotAsWritten(c: Raincell, span: MonthSpan, len: nat)
    requires c == Raincell(-1.5, -0.5, 1.0) && len == 744
    requires span.startTime == 0.0 && span.endTime == 744.0
    ensures MonthCells([c], span) == []
    ensures PointBufferAsWritten([c], span.startTime, 1.0, len)[len - 2] == 0.5
    ensures PointBufferAsWritten(MonthCells([c], span), span.startTime, 1.0, len)[len - 2] == 0.0
  {
    LateCellDropped(c, span);
    LateRaincellWraps(c, len);
    EmptyBufferAsWritten(span.startTime, 1.0, len, len - 2);
  }

  lemma LateCellDropped(c: Raincell, span: MonthSpan)
    requires c == Raincell(-1.5, -0.5, 1.0) && span.startTime == 0.0
    ensures MonthCells([c], span) == []
  {
    assert [c][..0] == [];
    assert !KeptForMonth(c, span);
  }

  // ---------------------------------------------------------------------------
  // The per-month buffer

  /** `int((24 / timestep_length) * 31)`: the timesteps of the longest month. */
  function BufferLength(ts: real): (len: nat)
    requires 0.0 < ts
    ensures SlotStart(len, ts) <= 744.0 < SlotStart(len + 1, ts)
  {
    assert (24.0 / ts) * 31.0 == 744.0 / ts;
    NonNegativeTimestep(744.0, ts);
    ((24.0 / ts) * 31.0).Floor
  }

  lemma NonNegativeTimestep(x: real, ts: real)
    requires 0.0 < ts && 0.0 <= x
    ensures 0 <= TimestepOf(x, ts)
  {
    var k := TimestepOf(x, ts);
    if k < 0 {
      ScaleMonotone(k + 1, 0, ts);
    }
  }

  /** Every month of at most 31 days fits in the buffer. */
  lemma MonthFitsBuffer(n: nat, ts: real)
    requires 0.0 < ts && SlotStart(n, ts) <= 744.0
    ensures n <= BufferLength(ts)
  {
    var len := BufferLength(ts);
    if len < n {
      ScaleMonotone(len + 1, n, ts);
    }
  }

  /** A month's series: the buffer of its kept raincells cut to the month's timesteps. */
  function MonthSeries(cells: seq<Raincell>, span: MonthSpan, ts: real, len: nat): (series: seq<real>)
    requires 0.0 < ts
    ensures |series| == (if span.nTimesteps <= len then span.nTimesteps else len)
  {
    var buf := PointBuffer(MonthCells(cells, span), span.startTime, ts, len);
    buf[..(if span.nTimesteps <= len then span.nTimesteps else len)]
  }

  /**
    The month's series loses nothing to the mask: for a month that fits the
    buffer it holds, timestep by timestep, the depth all raincells deposit.
  */
  lemma MonthSeriesComplete(cells: seq<Raincell>, span: MonthSpan, ts: real, len: nat)
    requires 0.0 < ts && span.nTimesteps <= len
    requires span.endTime == span.startTime + SlotStart(span.nTimesteps, ts)
    requires forall i :: 0 <= i < |cells| ==> WellFormed(cells[i])
    ensures |MonthSeries(cells, span, ts, len)| == span.nTimesteps
    ensures forall t :: 0 <= t < span.nTimesteps ==>
              MonthSeries(cells, span, ts, len)[t] == SlotDepth(cells, span.startTime, ts, t)
  {
    forall t | 0 <= t < span.nTimesteps
      ensures MonthSeries(cells, span, ts, len)[t] == SlotDepth(cells, span.startTime, ts, t)
    {
      MonthFilterPreservesSlots(cells, span, ts, t);
    }
  }

  /** Every row of the month table satisfies the span condition the mask lemmas need. */
  lemma CalendarSpanFits(counts: seq<nat>, ts: real, i: nat)
    requires i < |counts|
    ensures CalendarOf(counts, ts)[i].endTime
            == CalendarOf(counts, ts)[i].startTime + SlotStart(CalendarOf(counts, ts)[i].nTimesteps, ts)
  {
    CalendarWidths(counts, ts);
  }
}
