/**
  The spatial kernel: every target location receives, in its own column, the
  point-kernel buffer of the raincells whose circle of influence contains it,
  scaled by the location's phi (its ratio to the reference rainfall).
*/
module Spatial {
  import opened Kernel

  /** A raincell with the centre and radius of its circular footprint (metres). */
  datatype SpatialRaincell = SpatialRaincell(cell: Raincell, x: real, y: real, radius: real)

  /**
    The location `(px, py)` lies within the raincell's radius of its centre:
    `sqrt(dx^2 + dy^2) <= radius`, stated without the square root.
  */
  predicate Covers(rc: SpatialRaincell, px: real, py: real) {
    0.0 <= rc.radius && (px - rc.x) * (px - rc.x) + (py - rc.y) * (py - rc.y) <= rc.radius * rc.radius
  }

  /**
    Comparing a square root with a radius is comparing the squared distance
    with the squared radius: `s` is the non-negative root of `d`.
  */
  lemma RootComparison(d: real, s: real, r: real)
    requires 0.0 <= s && s * s == d
    ensures (0.0 <= r && d <= r * r) <==> s <= r
  {
    if 0.0 <= r && d <= r * r && r < s {
      MulNonNegative(r, s - r);
      MulPositive(s, s - r);
    }
    if s <= r {
      MulNonNegative(s, r - s);
      MulNonNegative(r, r - s);
      assert s * (r - s) == s * r - s * s;
      assert r * (r - s) == r * r - s * r;
    }
  }

  lemma MulNonNegative(a: real, b: real)
    requires 0.0 <= a && 0.0 <= b
    ensures 0.0 <= a * b
  {
  }

  lemma MulPositive(a: real, b: real)
    requires 0.0 < a && 0.0 < b
    ensures 0.0 < a * b
  {
  }

  /** The raincells covering `(px, py)`, in their original order (the spatial mask). */
  function ActiveAt(rcs: seq<SpatialRaincell>, px: real, py: real): (active: seq<Raincell>)
    ensures |active| <= |rcs|
    ensures (forall i :: 0 <= i < |rcs| ==> Covers(rcs[i], px, py)) ==> |active| == |rcs|
    ensures (forall i :: 0 <= i < |rcs| ==> !Covers(rcs[i], px, py)) ==> active == []
  {
    if |rcs| == 0 then []
    else
      var rest := ActiveAt(rcs[..|rcs| - 1], px, py);
      if Covers(rcs[|rcs| - 1], px, py) then rest + [rcs[|rcs| - 1].cell] else rest
  }

  /** A raincell is selected exactly when some raincell covering the location carries it. */
  lemma {:induction false} ActiveMembers(rcs: seq<SpatialRaincell>, px: real, py: real, c: Raincell)
    ensures c in ActiveAt(rcs, px, py) <==> exists i :: 0 <= i < |rcs| && Covers(rcs[i], px, py) && rcs[i].cell == c
  {
    if |rcs| > 0 {
      var init := rcs[..|rcs| - 1];
      ActiveMembers(init, px, py, c);
      if c in ActiveAt(rcs, px, py) {
        if c in ActiveAt(init, px, py) {
          var i :| 0 <= i < |init| && Covers(init[i], px, py) && init[i].cell == c;
          assert rcs[i] == init[i];
        } else {
          assert Covers(rcs[|rcs| - 1], px, py) && rcs[|rcs| - 1].cell == c;
        }
      }
      if exists i :: 0 <= i < |rcs| && Covers(rcs[i], px, py) && rcs[i].cell == c {
        var i :| 0 <= i < |rcs| && Covers(rcs[i], px, py) && rcs[i].cell == c;
        if i < |init| {
          assert init[i] == rcs[i];
        }
      }
    }
  }

  /** A depth scaled by a location's phi. */
  function Weighted(depth: real, factor: real): real {
    depth * factor
  }

  /** Every entry of a buffer scaled by the location's phi. */
  function Scale(s: seq<real>, factor: real): (r: seq<real>)
    ensures |r| == |s|
    ensures forall t :: 0 <= t < |s| ==> r[t] == Weighted(s[t], factor)
  {
    seq(|s|, t requires 0 <= t < |s| => Weighted(s[t], factor))
  }

  /** Column of location `(px, py)`: phi times the point buffer of the raincells covering it. */
  function Column(rcs: seq<SpatialRaincell>, start: real, ts: real, px: real, py: real, phi: real, len: nat): seq<real>
    requires 0.0 < ts
  {
    Scale(PointBuffer(ActiveAt(rcs, px, py), start, ts, len), phi)
  }

  /** The whole spatial buffer: one column per target location. */
  function SpatialBuffer(rcs: seq<SpatialRaincell>, start: real, ts: real,
                         xs: seq<real>, ys: seq<real>, phi: seq<real>, len: nat): seq<seq<real>>
    requires 0.0 < ts && |xs| <= |ys| && |xs| <= |phi|
  {
    seq(|xs|, i requires 0 <= i < |xs| => Column(rcs, start, ts, xs[i], ys[i], phi[i], len))
  }

  /** The spatial mask applied to the raincell arrays. */
  method SelectActive(rcs: seq<SpatialRaincell>, px: real, py: real) returns (active: seq<Raincell>)
    ensures active == ActiveAt(rcs, px, py)
  {
    active := [];
    var i := 0;
    while i < |rcs|
      invariant 0 <= i <= |rcs|
      invariant active == ActiveAt(rcs[..i], px, py)
    {
      assert rcs[..i + 1][..i] == rcs[..i];
      if Covers(rcs[i], px, py) {
        active := active + [rcs[i].cell];
      }
      i := i + 1;
    }
    assert rcs[..|rcs|] == rcs;
  }

  /** The in-place `column *= phi`. */
  method ScaleColumn(column: seq<real>, factor: real) returns (out: seq<real>)
    ensures out == Scale(column, factor)
  {
    out := column;
    var t := 0;
    while t < |out|
      invariant 0 <= t <= |out| == |column|
      invariant forall k :: 0 <= k < t ==> out[k] == Weighted(column[k], factor)
      invariant forall k :: t <= k < |out| ==> out[k] == column[k]
    {
      out := out[t := out[t] * factor];
      t := t + 1;
    }
  }

  /**
    The spatial kernel: for each target location, in order, select the
    raincells covering it, run the point kernel on them into its column and
    scale the column by the location's phi.
  */
  method DiscretiseSpatial(start: real, ts: real, rcs: seq<SpatialRaincell>,
                           xs: seq<real>, ys: seq<real>, phi: seq<real>, len: nat)
    returns (columns: seq<seq<real>>)
    requires 0.0 < ts && |xs| <= |ys| && |xs| <= |phi|
    ensures |columns| == |xs|
    ensures forall i :: 0 <= i < |xs| ==>
              columns[i] == Scale(PointBuffer(ActiveAt(rcs, xs[i], ys[i]), start, ts, len), phi[i])
  {
    columns := [];
    var i := 0;
    while i < |xs|
      invariant 0 <= i <= |xs| && |columns| == i
      invariant forall j :: 0 <= j < i ==> columns[j] == Column(rcs, start, ts, xs[j], ys[j], phi[j], len)
    {
      var active := SelectActive(rcs, xs[i], ys[i]);
      var column := DiscretisePoint(start, ts, active, len);
      column := ScaleColumn(column, phi[i]);
      columns := columns + [column];
      i := i + 1;
    }
  }

  // ---------------------------------------------------------------------------
  // Properties of the spatial buffer

  /** The method computes exactly the reference spatial buffer. */
  lemma DiscretiseSpatialIsBuffer(columns: seq<seq<real>>, rcs: seq<SpatialRaincell>, start: real, ts: real,
                                  xs: seq<real>, ys: seq<real>, phi: seq<real>, len: nat)
    requires 0.0 < ts && |xs| <= |ys| && |xs| <= |phi|
    requires |columns| == |xs|
    requires forall i :: 0 <= i < |xs| ==>
               columns[i] == Scale(PointBuffer(ActiveAt(rcs, xs[i], ys[i]), start, ts, len), phi[i])
    ensures columns == SpatialBuffer(rcs, start, ts, xs, ys, phi, len)
  {
  }

  /**
    A raincell that does not cover a location contributes nothing to it:
    removing it from the raincell list leaves the location's raincells unchanged.
  */
  lemma {:induction false} FarRaincellIgnored(pre: seq<SpatialRaincell>, rc: SpatialRaincell,
                                              post: seq<SpatialRaincell>, px: real, py: real)
    requires !Covers(rc, px, py)
    ensures ActiveAt(pre + [rc] + post, px, py) == ActiveAt(pre + post, px, py)
    decreases |post|
  {
    if |post| == 0 {
      assert pre + [rc] + post == pre + [rc];
      assert (pre + [rc])[..|pre|] == pre;
      assert pre + post == pre;
    } else {
      var init := post[..|post| - 1];
      var last := post[|post| - 1];
      FarRaincellIgnored(pre, rc, init, px, py);
      assert (pre + [rc] + post)[..|pre + [rc] + post| - 1] == pre + [rc] + init;
      assert (pre + post)[..|pre + post| - 1] == pre + init;
      assert (pre + [rc] + post)[|pre + [rc] + post| - 1] == last;
      assert (pre + post)[|pre + post| - 1] == last;
    }
  }

  /** Consequently a far raincell never changes the location's column. */
  lemma FarRaincellLeavesColumn(pre: seq<SpatialRaincell>, rc: SpatialRaincell, post: seq<SpatialRaincell>,
                                start: real, ts: real, px: real, py: real, phi: real, len: nat)
    requires 0.0 < ts && !Covers(rc, px, py)
    ensures Column(pre + [rc] + post, start, ts, px, py, phi, len) == Column(pre + post, start, ts, px, py, phi, len)
  {
    FarRaincellIgnored(pre, rc, post, px, py);
  }

  /** A location whose phi is zero receives no rain at all. */
  lemma ZeroPhiColumn(rcs: seq<SpatialRaincell>, start: real, ts: real, px: real, py: real, len: nat)
    requires 0.0 < ts
    ensures Column(rcs, start, ts, px, py, 0.0, len) == seq(len, _ => 0.0)
  {
  }

  /**
    Each column depends only on its own location and phi: changing another
    location's coordinates or phi leaves it as it was.
  */
  lemma ColumnsIndependent(rcs: seq<SpatialRaincell>, start: real, ts: real,
                           xs: seq<real>, ys: seq<real>, phi: seq<real>, len: nat,
                           j: nat, x: real, y: real, f: real, i: nat)
    requires 0.0 < ts && |xs| <= |ys| && |xs| <= |phi|
    requires j < |xs| && i < |xs| && i != j
    ensures SpatialBuffer(rcs, start, ts, xs[j := x], ys[j := y], phi[j := f], len)[i]
            == SpatialBuffer(rcs, start, ts, xs, ys, phi, len)[i]
  {
  }

  /** The raincells covering a location are among the generated, well-formed ones. */
  lemma ActiveWellFormed(rcs: seq<SpatialRaincell>, px: real, py: real)
    requires forall i :: 0 <= i < |rcs| ==> WellFormed(rcs[i].cell)
    ensures forall j :: 0 <= j < |ActiveAt(rcs, px, py)| ==> WellFormed(ActiveAt(rcs, px, py)[j])
  {
    var active := ActiveAt(rcs, px, py);
    forall j | 0 <= j < |active|
      ensures WellFormed(active[j])
    {
      ActiveMembers(rcs, px, py, active[j]);
    }
  }

  /** With well-formed raincells and a non-negative phi every column entry is non-negative. */
  lemma ColumnNonNegative(rcs: seq<SpatialRaincell>, start: real, ts: real, px: real, py: real, phi: real, len: nat)
    requires 0.0 < ts && 0.0 <= phi
    requires forall i :: 0 <= i < |rcs| ==> WellFormed(rcs[i].cell)
    ensures forall t :: 0 <= t < len ==> 0.0 <= Column(rcs, start, ts, px, py, phi, len)[t]
  {
    var active := ActiveAt(rcs, px, py);
    var buffer := PointBuffer(active, start, ts, len);
    ActiveWellFormed(rcs, px, py);
    PointBufferNonNegative(active, start, ts, len);
    forall t | 0 <= t < len
      ensures 0.0 <= Scale(buffer, phi)[t]
    {
      MulNonNegative(buffer[t], phi);
    }
  }

  lemma {:induction false} SumOfScale(s: seq<real>, factor: real)
    ensures Sum(Scale(s, factor)) == Weighted(Sum(s), factor)
  {
    if |s| > 0 {
      var init := s[..|s| - 1];
      assert Scale(s, factor)[..|s| - 1] == Scale(init, factor) by {
        forall k | 0 <= k < |init|
          ensures Scale(s, factor)[..|s| - 1][k] == Scale(init, factor)[k]
        {
          assert init[k] == s[k];
        }
      }
      SumOfScale(init, factor);
      assert Weighted(Sum(init) + s[|s| - 1], factor) == Weighted(Sum(init), factor) + Weighted(s[|s| - 1], factor);
    }
  }

  lemma ActiveInsidePeriod(rcs: seq<SpatialRaincell>, px: real, py: real, lo: real, hi: real)
    requires forall i :: 0 <= i < |rcs| ==> lo <= rcs[i].cell.arrival <= rcs[i].cell.end <= hi
    ensures forall j :: 0 <= j < |ActiveAt(rcs, px, py)| ==>
              lo <= ActiveAt(rcs, px, py)[j].arrival <= ActiveAt(rcs, px, py)[j].end <= hi
  {
    var active := ActiveAt(rcs, px, py);
    forall j | 0 <= j < |active|
      ensures lo <= active[j].arrival <= active[j].end <= hi
    {
      ActiveMembers(rcs, px, py, active[j]);
    }
  }

  /**
    Conservation at a location: when the raincells lie inside the period, the
    column adds up to phi times the rain carried by the raincells covering it.
  */
  lemma ColumnConservesDepth(rcs: seq<SpatialRaincell>, start: real, ts: real, px: real, py: real, phi: real, len: nat)
    requires 0.0 < ts
    requires forall i :: 0 <= i < |rcs| ==>
               start <= rcs[i].cell.arrival <= rcs[i].cell.end <= start + SlotStart(len, ts)
    ensures Sum(Column(rcs, start, ts, px, py, phi, len)) == Weighted(TotalDepth(ActiveAt(rcs, px, py)), phi)
  {
    var active := ActiveAt(rcs, px, py);
    var buf := PointBuffer(active, start, ts, len);
    assert Column(rcs, start, ts, px, py, phi, len) == Scale(buf, phi);
    assert Sum(buf) == TotalDepth(active) by {
      ActiveInsidePeriod(rcs, px, py, start, start + SlotStart(len, ts));
      BufferConservesDepth(active, start, ts, len);
    }
    ScaledTotal(buf, TotalDepth(active), phi);
  }

  lemma ScaledTotal(s: seq<real>, total: real, factor: real)
    requires Sum(s) == total
    ensures Sum(Scale(s, factor)) == Weighted(total, factor)
  {
    SumOfScale(s, factor);
  }

  /** A location covered by one raincell of the list only selects that raincell. */
  lemma {:induction false} OnlyCoveringRaincell(rcs: seq<SpatialRaincell>, k: nat, px: real, py: real)
    requires k < |rcs| && Covers(rcs[k], px, py)
    requires forall i :: 0 <= i < |rcs| && i != k ==> !Covers(rcs[i], px, py)
    ensures ActiveAt(rcs, px, py) == [rcs[k].cell]
  {
    var n := |rcs|;
    var init := rcs[..n - 1];
    if k == n - 1 {
      forall i | 0 <= i < |init|
        ensures !Covers(init[i], px, py)
      {
        assert init[i] == rcs[i];
      }
    } else {
      forall i | 0 <= i < |init| && i != k
        ensures !Covers(init[i], px, py)
      {
        assert init[i] == rcs[i];
      }
      OnlyCoveringRaincell(init, k, px, py);
    }
  }

  /**
    A location with phi one that only raincell `k` covers: the column is
    the point kernel's buffer of that raincell alone.
  */
  lemma SingleRaincellColumn(rcs: seq<SpatialRaincell>, k: nat, start: real, ts: real, px: real, py: real, len: nat)
    requires 0.0 < ts && k < |rcs| && Covers(rcs[k], px, py)
    requires forall i :: 0 <= i < |rcs| && i != k ==> !Covers(rcs[i], px, py)
    ensures Column(rcs, start, ts, px, py, 1.0, len) == PointBuffer([rcs[k].cell], start, ts, len)
  {
    OnlyCoveringRaincell(rcs, k, px, py);
  }
}
