/**
  Catchment weights and grid pruning.

  Each catchment gives every grid point a weight, its contribution to the
  catchment average.  When catchment output is wanted without grid output,
  the grid keeps only the points some catchment uses (a weight above zero),
  and the same mask is applied to every per-point array so that position
  `i` of each still refers to the same point.  The catchment average of a
  timestep is the weighted mean over the grid's columns.
*/
module Catchment {
  import opened Results
  import opened Kernel
  import opened Spatial

  /** The kinds of output a simulation can write. */
  datatype OutputType = Point | CatchmentOutput | Grid

  /** One catchment's points, in the order its weights come in. */
  datatype CatchmentPoints = CatchmentPoints(x: seq<real>, y: seq<real>, weight: seq<real>)

  /**
    The grid's per-point arrays: coordinates, optional elevation, phi for
    each season and weights for each catchment.
  */
  datatype GridMetadata = GridMetadata(
    x: seq<real>,
    y: seq<real>,
    z: Option<seq<real>>,
    phi: map<int, seq<real>>,
    weights: map<int, seq<real>>)

  /** Every per-point array has one entry per grid point. */
  predicate Consistent(g: GridMetadata) {
    |g.y| == |g.x| &&
    (g.z.Some? ==> |g.z.value| == |g.x|) &&
    (forall s :: s in g.phi ==> |g.phi[s]| == |g.x|) &&
    (forall id :: id in g.weights ==> |g.weights[id]| == |g.x|)
  }

  /**
    The ordering check: a non-empty set of points equal, element by
    element, to the grid's coordinates.
  */
  predicate Aligned(p: CatchmentPoints, g: GridMetadata) {
    0 < |g.x| && p.x == g.x && p.y == g.y
  }

  /**
    Records each catchment's weights in the grid metadata, after checking
    that its points are ordered as the grid's.
  */
  function AttachWeights(g: GridMetadata, points: map<int, CatchmentPoints>): (r: Result<GridMetadata>)
    ensures r.Success? <==> forall id :: id in points ==> Aligned(points[id], g)
    ensures r.Failure? ==> r.error == Misaligned
    ensures r.Success? ==> r.value.x == g.x && r.value.y == g.y && r.value.z == g.z && r.value.phi == g.phi
    ensures r.Success? ==> r.value.weights.Keys == g.weights.Keys + points.Keys
    ensures r.Success? ==> forall id :: id in points ==> r.value.weights[id] == points[id].weight
    ensures r.Success? ==> forall id :: id in g.weights && id !in points ==> r.value.weights[id] == g.weights[id]
  {
    if forall id :: id in points ==> Aligned(points[id], g) then
      Success(g.(weights := g.weights + map id | id in points :: points[id].weight))
    else
      Failure(Misaligned)
  }

  // ---------------------------------------------------------------------------
  // Boolean masks

  /** `array[mask]`: the entries whose mask entry is set, in their order. */
  function Select<T>(s: seq<T>, keep: seq<bool>): (r: seq<T>)
    requires |s| == |keep|
    ensures |r| == |KeptIndices(keep)|
  {
    if |s| == 0 then []
    else
      var rest := Select(s[..|s| - 1], keep[..|keep| - 1]);
      if keep[|keep| - 1] then rest + [s[|s| - 1]] else rest
  }

  /** The positions a mask keeps, in increasing order. */
  function KeptIndices(keep: seq<bool>): (ks: seq<nat>)
    ensures forall i :: 0 <= i < |ks| ==> ks[i] < |keep| && keep[ks[i]]
    ensures forall i, j :: 0 <= i < j < |ks| ==> ks[i] < ks[j]
  {
    if |keep| == 0 then []
    else
      var rest := KeptIndices(keep[..|keep| - 1]);
      if keep[|keep| - 1] then rest + [|keep| - 1] else rest
  }

  /** Entry `i` of a masked array is the original entry at the `i`-th kept position. */
  lemma {:induction false} SelectAt<T>(s: seq<T>, keep: seq<bool>, i: nat)
    requires |s| == |keep| && i < |KeptIndices(keep)|
    ensures Select(s, keep)[i] == s[KeptIndices(keep)[i]]
  {
    var n := |s|;
    var rest := KeptIndices(keep[..n - 1]);
    if i < |rest| {
      SelectAt(s[..n - 1], keep[..n - 1], i);
    }
  }

  /** A mask keeps exactly the positions whose entry is set. */
  lemma {:induction false} KeptIndicesMembers(keep: seq<bool>, j: nat)
    ensures j in KeptIndices(keep) <==> j < |keep| && keep[j]
  {
    if |keep| > 0 {
      KeptIndicesMembers(keep[..|keep| - 1], j);
    }
  }

  /** The catchment mask: point `j` is used by some catchment with a weight above zero. */
  predicate UsedPoint(g: GridMetadata, catchments: set<int>, j: nat)
    requires forall id :: id in catchments ==> id in g.weights && j < |g.weights[id]|
  {
    exists id :: id in catchments && g.weights[id][j] > 0.0
  }

  /** What pruning needs: weights for every catchment and phi for every season, one entry per point. */
  predicate Prunable(g: GridMetadata, catchments: set<int>, seasons: set<int>) {
    |g.y| == |g.x| &&
    (g.z.Some? ==> |g.z.value| == |g.x|) &&
    (forall s :: s in seasons ==> s in g.phi && |g.phi[s]| == |g.x|) &&
    (forall id :: id in catchments ==> id in g.weights && |g.weights[id]| == |g.x|)
  }

  function MaskOf(g: GridMetadata, catchments: set<int>): (mask: seq<bool>)
    requires forall id :: id in catchments ==> id in g.weights && |g.weights[id]| == |g.x|
    ensures |mask| == |g.x|
  {
    seq(|g.x|, j requires 0 <= j < |g.x| => UsedPoint(g, catchments, j))
  }

  /**
    Builds the catchment mask as the source does: start from all false and,
    catchment by catchment, set every position whose weight is above zero.
  */
  method CatchmentMask(g: GridMetadata, catchments: set<int>) returns (mask: seq<bool>)
    requires forall id :: id in catchments ==> id in g.weights && |g.weights[id]| == |g.x|
    ensures |mask| == |g.x|
    ensures forall j :: 0 <= j < |mask| ==> (mask[j] <==> exists id :: id in catchments && g.weights[id][j] > 0.0)
  {
    mask := seq(|g.x|, _ => false);
    var remaining := catchments;
    ghost var done: set<int> := {};
    while remaining != {}
      invariant remaining + done == catchments && remaining !! done
      invariant |mask| == |g.x|
      invariant forall j :: 0 <= j < |mask| ==> (mask[j] <==> exists id :: id in done && g.weights[id][j] > 0.0)
      decreases |remaining|
    {
      assert exists id :: id in remaining by {
        if forall id :: id !in remaining {
          assert false;
        }
      }
      var id :| id in remaining;
      var w := g.weights[id];
      mask := seq(|mask|, j requires 0 <= j < |mask| => mask[j] || w[j] > 0.0);
      remaining := remaining - {id};
      done := done + {id};
    }
  }

  /** The same mask applied to coordinates, elevation, the seasons' phi and the catchments' weights. */
  function ApplyMask(g: GridMetadata, mask: seq<bool>, catchments: set<int>, seasons: set<int>): (p: GridMetadata)
    requires Prunable(g, catchments, seasons) && |mask| == |g.x|
    ensures p.phi.Keys == g.phi.Keys && p.weights.Keys == g.weights.Keys
  {
    GridMetadata(
      Select(g.x, mask),
      Select(g.y, mask),
      if g.z.Some? then Some(Select(g.z.value, mask)) else None,
      map s | s in g.phi :: if s in seasons then Select(g.phi[s], mask) else g.phi[s],
      map id | id in g.weights :: if id in catchments then Select(g.weights[id], mask) else g.weights[id])
  }

  /** Pruning applies only when catchment output is wanted and grid output is not. */
  predicate PruningApplies(outputs: set<OutputType>) {
    CatchmentOutput in outputs && Grid !in outputs
  }

  /** The grid rationalisation step of the catchment-weights computation. */
  method PruneGrid(g: GridMetadata, outputs: set<OutputType>, catchments: set<int>, seasons: set<int>)
    returns (pruned: GridMetadata)
    requires PruningApplies(outputs) ==> Prunable(g, catchments, seasons)
    ensures !PruningApplies(outputs) ==> pruned == g
    ensures PruningApplies(outputs) ==> pruned == ApplyMask(g, MaskOf(g, catchments), catchments, seasons)
  {
    if !PruningApplies(outputs) {
      return g;
    }
    var mask := CatchmentMask(g, catchments);
    assert mask == MaskOf(g, catchments);
    pruned := ApplyMask(g, mask, catchments, seasons);
  }

  /**
    Attaching the weights, then pruning: fails on a catchment whose points
    are ordered differently; when pruning applies, also on a weight array
    whose length is not the grid's and on a season whose grid phi is missing.
  */
  method CatchmentWeights(g: GridMetadata, points: map<int, CatchmentPoints>, outputs: set<OutputType>, seasons: set<int>)
    returns (r: Result<GridMetadata>)
    requires Consistent(g)
    ensures AttachWeights(g, points).Failure? ==> r == Failure(Misaligned)
    ensures r.Success? ==> AttachWeights(g, points).Success?
    ensures !PruningApplies(outputs) ==> r == AttachWeights(g, points)
    ensures r.Success? && PruningApplies(outputs) ==>
              Prunable(AttachWeights(g, points).value, points.Keys, seasons) &&
              r.value == ApplyMask(AttachWeights(g, points).value, MaskOf(AttachWeights(g, points).value, points.Keys),
                                   points.Keys, seasons)
    ensures PruningApplies(outputs) && AttachWeights(g, points).Success? ==>
              (r.Success? <==> (forall id :: id in points ==> |points[id].weight| == |g.x|) && seasons <= g.phi.Keys)
    ensures PruningApplies(outputs) && AttachWeights(g, points).Success? &&
            (forall id :: id in points ==> |points[id].weight| == |g.x|) ==>
              (r == Failure(MissingPhi) <==> !(seasons <= g.phi.Keys))
  {
    var attached := AttachWeights(g, points);
    if attached.Failure? {
      return Failure(Misaligned);
    }
    var a := attached.value;
    if !PruningApplies(outputs) {
      return Success(a);
    }
    if !(forall id :: id in points ==> |points[id].weight| == |g.x|) {
      return Failure(MaskLengthMismatch);
    }
    if !(seasons <= a.phi.Keys) {
      return Failure(MissingPhi);
    }
    var pruned := PruneGrid(a, outputs, points.Keys, seasons);
    return Success(pruned);
  }

  // ---------------------------------------------------------------------------
  // Phi for the grid, and the preparation of the grid metadata

  /** Lines 216-219: negative interpolated phi is replaced by zero. */
  function ClipNegative(values: seq<real>): (r: seq<real>)
    ensures |r| == |values|
    ensures forall j :: 0 <= j < |r| ==> 0.0 <= r[j]
    ensures forall j :: 0 <= j < |r| ==> (r[j] == values[j] <==> 0.0 <= values[j])
    ensures forall j :: 0 <= j < |r| && values[j] < 0.0 ==> r[j] == 0.0
  {
    seq(|values|, j requires 0 <= j < |values| => if values[j] < 0.0 then 0.0 else values[j])
  }

  /**
    Clipping leaves phi unchanged exactly when no entry is negative, so
    clipping twice is clipping once.
  */
  lemma ClipNegativeFixedPoints(values: seq<real>)
    ensures ClipNegative(values) == values <==> forall j :: 0 <= j < |values| ==> 0.0 <= values[j]
    ensures ClipNegative(ClipNegative(values)) == ClipNegative(values)
  {
    if forall j :: 0 <= j < |values| ==> 0.0 <= values[j] {
      assert ClipNegative(values) == values;
    }
  }

  /**
    The grid phi that phi estimation leaves: the clipped interpolated phi of
    every season when grid phi is computed at all, and no entry otherwise.
  */
  function GridPhi(computed: bool, seasons: set<int>, interpolated: map<int, seq<real>>): (phi: map<int, seq<real>>)
    requires seasons <= interpolated.Keys
    ensures phi.Keys == (if computed then seasons else {})
    ensures forall s :: s in phi ==> phi[s] == ClipNegative(interpolated[s])
  {
    if computed then map s | s in seasons :: ClipNegative(interpolated[s]) else map[]
  }

  /** Phi estimation as written computes grid phi only for grid output (the output types of line 198). */
  predicate GridPhiComputedAsWritten(outputs: set<OutputType>) {
    Grid in outputs
  }

  /** The grid phi that catchment output, discretised on the grid, needs as well. */
  predicate GridPhiComputed(outputs: set<OutputType>) {
    Grid in outputs || CatchmentOutput in outputs
  }

  /** What the interpolator must deliver: phi for every season at every grid point. */
  predicate InterpolatedFor(g: GridMetadata, seasons: set<int>, interpolated: map<int, seq<real>>) {
    seasons <= interpolated.Keys && forall s :: s in seasons ==> |interpolated[s]| == |g.x|
  }

  /**
    Lines 59-68 for the grid metadata: phi for every season, then the
    catchment weights when catchment output is wanted.  `computeGridPhi`
    says whether phi estimation covers the grid.
  */
  method PrepareGrid(g: GridMetadata, points: map<int, CatchmentPoints>, outputs: set<OutputType>,
                     seasons: set<int>, interpolated: map<int, seq<real>>, computeGridPhi: bool)
    returns (r: Result<GridMetadata>)
    requires Consistent(g) && g.phi == map[] && InterpolatedFor(g, seasons, interpolated)
    ensures CatchmentOutput !in outputs ==> r == Success(g.(phi := GridPhi(computeGridPhi, seasons, interpolated)))
    ensures CatchmentOutput in outputs && AttachWeights(g, points).Failure? ==> r == Failure(Misaligned)
    ensures CatchmentOutput in outputs && !PruningApplies(outputs) ==>
              r == AttachWeights(g.(phi := GridPhi(computeGridPhi, seasons, interpolated)), points)
    ensures PruningApplies(outputs) && AttachWeights(g, points).Success? &&
            (forall id :: id in points ==> |points[id].weight| == |g.x|) ==>
              ((r.Success? <==> computeGridPhi || seasons == {}) && (r.Failure? ==> r.error == MissingPhi))
    ensures r.Success? && PruningApplies(outputs) ==>
              var full := AttachWeights(g.(phi := GridPhi(computeGridPhi, seasons, interpolated)), points).value;
              Prunable(full, points.Keys, seasons) && r.value == ApplyMask(full, MaskOf(full, points.Keys), points.Keys, seasons)
  {
    var withPhi := g.(phi := GridPhi(computeGridPhi, seasons, interpolated));
    assert Consistent(withPhi);
    if CatchmentOutput !in outputs {
      return Success(withPhi);
    }
    r := CatchmentWeights(withPhi, points, outputs, seasons);
  }

  /**
    The preparation as written: with catchment output and no grid output,
    grid phi is never computed, so pruning fails on the first season.
  */
  method PrepareGridAsWritten(g: GridMetadata, points: map<int, CatchmentPoints>, outputs: set<OutputType>,
                              seasons: set<int>, interpolated: map<int, seq<real>>)
    returns (r: Result<GridMetadata>)
    requires Consistent(g) && g.phi == map[] && InterpolatedFor(g, seasons, interpolated)
    ensures PruningApplies(outputs) && seasons != {} ==> r.Failure?
    ensures PruningApplies(outputs) && seasons != {} && AttachWeights(g, points).Success? &&
            (forall id :: id in points ==> |points[id].weight| == |g.x|) ==>
              r == Failure(MissingPhi)
  {
    r := PrepareGrid(g, points, outputs, seasons, interpolated, GridPhiComputedAsWritten(outputs));
  }

  /**
    The preparation with grid phi computed for catchment output too: an
    aligned catchment set with weights for every point is always pruned.
  */
  method PrepareGridCorrected(g: GridMetadata, points: map<int, CatchmentPoints>, outputs: set<OutputType>,
                              seasons: set<int>, interpolated: map<int, seq<real>>)
    returns (r: Result<GridMetadata>)
    requires Consistent(g) && g.phi == map[] && InterpolatedFor(g, seasons, interpolated)
    ensures PruningApplies(outputs) && AttachWeights(g, points).Success? &&
            (forall id :: id in points ==> |points[id].weight| == |g.x|) ==>
              r.Success? &&
              var full := AttachWeights(g.(phi := GridPhi(true, seasons, interpolated)), points).value;
              Prunable(full, points.Keys, seasons) && r.value == ApplyMask(full, MaskOf(full, points.Keys), points.Keys, seasons)
    ensures CatchmentOutput in outputs ==> r.Success? ==> forall s :: s in seasons ==> s in r.value.phi
  {
    r := PrepareGrid(g, points, outputs, seasons, interpolated, GridPhiComputed(outputs));
  }

  // ---------------------------------------------------------------------------
  // Properties of pruning

  /** Pruning keeps grid point `j` exactly when some catchment gives it a weight above zero. */
  lemma PruneKeepsUsedPoints(g: GridMetadata, catchments: set<int>, j: nat)
    requires forall id :: id in catchments ==> id in g.weights && |g.weights[id]| == |g.x|
    ensures j in KeptIndices(MaskOf(g, catchments)) <==>
              j < |g.x| && exists id :: id in catchments && g.weights[id][j] > 0.0
  {
    KeptIndicesMembers(MaskOf(g, catchments), j);
  }

  /**
    Pruning keeps the arrays aligned: all have the same length, and
    position `i` of each holds the entry of the same original point.
  */
  lemma PruneKeepsAlignment(g: GridMetadata, mask: seq<bool>, catchments: set<int>, seasons: set<int>, i: nat)
    requires Consistent(g) && g.phi.Keys == seasons && g.weights.Keys == catchments && |mask| == |g.x|
    requires i < |KeptIndices(mask)|
    ensures Consistent(ApplyMask(g, mask, catchments, seasons))
    ensures |ApplyMask(g, mask, catchments, seasons).x| == |KeptIndices(mask)|
    ensures ApplyMask(g, mask, catchments, seasons).x[i] == g.x[KeptIndices(mask)[i]]
    ensures ApplyMask(g, mask, catchments, seasons).y[i] == g.y[KeptIndices(mask)[i]]
    ensures g.z.Some? ==> ApplyMask(g, mask, catchments, seasons).z.value[i] == g.z.value[KeptIndices(mask)[i]]
    ensures forall s :: s in seasons ==> ApplyMask(g, mask, catchments, seasons).phi[s][i] == g.phi[s][KeptIndices(mask)[i]]
    ensures forall id :: id in catchments ==>
              ApplyMask(g, mask, catchments, seasons).weights[id][i] == g.weights[id][KeptIndices(mask)[i]]
  {
    var p := ApplyMask(g, mask, catchments, seasons);
    SelectAt(g.x, mask, i);
    SelectAt(g.y, mask, i);
    if g.z.Some? {
      SelectAt(g.z.value, mask, i);
    }
    forall s | s in seasons
      ensures p.phi[s][i] == g.phi[s][KeptIndices(mask)[i]]
    {
      SelectAt(g.phi[s], mask, i);
    }
    forall id | id in catchments
      ensures p.weights[id][i] == g.weights[id][KeptIndices(mask)[i]]
    {
      SelectAt(g.weights[id], mask, i);
    }
  }

  // ---------------------------------------------------------------------------
  // The catchment average

  /** Sum of weight times value over the grid's points. */
  function WeightedTotal(values: seq<real>, w: seq<real>): real
    requires |values| == |w|
  {
    if |values| == 0 then 0.0
    else WeightedTotal(values[..|values| - 1], w[..|w| - 1]) + Weighted(values[|values| - 1], w[|w| - 1])
  }

  /** `np.average(values, weights=w)`: the weighted mean, an error when the weights sum to zero. */
  function CatchmentAverage(values: seq<real>, w: seq<real>): (r: Result<real>)
    requires |values| == |w|
    ensures r.Failure? <==> Sum(w) == 0.0
    ensures r.Failure? ==> r.error == ZeroTotalWeight
    ensures r.Success? ==> r.value * Sum(w) == WeightedTotal(values, w)
  {
    if Sum(w) == 0.0 then Failure(ZeroTotalWeight) else Success(WeightedTotal(values, w) / Sum(w))
  }

  lemma {:induction false} WeightedTotalOfEqualWeights(values: seq<real>, w: seq<real>, c: real)
    requires |values| == |w| && forall j :: 0 <= j < |w| ==> w[j] == c
    ensures WeightedTotal(values, w) == Weighted(Sum(values), c)
    ensures Sum(w) == |w| as real * c
  {
    if |values| > 0 {
      var n := |values|;
      WeightedTotalOfEqualWeights(values[..n - 1], w[..n - 1], c);
      assert Weighted(Sum(values[..n - 1]), c) + Weighted(values[n - 1], c) == Weighted(Sum(values[..n - 1]) + values[n - 1], c);
      assert (n - 1) as real * c + c == n as real * c;
    }
  }

  /** With all weights equal (and not zero) the catchment average is the plain mean. */
  lemma EqualWeightsGivePlainMean(values: seq<real>, w: seq<real>, c: real)
    requires |values| == |w| && 0 < |w| && c != 0.0
    requires forall j :: 0 <= j < |w| ==> w[j] == c
    ensures CatchmentAverage(values, w) == Success(Sum(values) / |values| as real)
  {
    WeightedTotalOfEqualWeights(values, w, c);
    var n := |values| as real;
    assert Sum(w) == n * c;
    CancelFactor(Sum(values), n, c);
  }

  lemma CancelFactor(x: real, n: real, c: real)
    requires n != 0.0 && c != 0.0
    ensures Weighted(x, c) / (n * c) == x / n
  {
    var q := x / n;
    assert x == q * n;
    assert x * c == q * (n * c);
    assert n * c != 0.0;
  }

  /** Row `t` of the grid buffer: every column's entry at timestep `t`. */
  function Row(columns: seq<seq<real>>, t: nat): (row: seq<real>)
    requires forall j :: 0 <= j < |columns| ==> t < |columns[j]|
    ensures |row| == |columns|
  {
    seq(|columns|, j requires 0 <= j < |columns| => columns[j][t])
  }

  /** The catchment's series over the first `len` timesteps of the grid buffer. */
  function CatchmentSeries(columns: seq<seq<real>>, w: seq<real>, len: nat): (r: Result<seq<real>>)
    requires |columns| == |w| && forall j :: 0 <= j < |columns| ==> len <= |columns[j]|
    ensures r.Failure? <==> Sum(w) == 0.0
    ensures r.Success? ==>
              (|r.value| == len && forall t :: 0 <= t < len ==> CatchmentAverage(Row(columns, t), w) == Success(r.value[t]))
  {
    if Sum(w) == 0.0 then Failure(ZeroTotalWeight)
    else Success(seq(len, t requires 0 <= t < len => WeightedTotal(Row(columns, t), w) / Sum(w)))
  }

  /** Dropping points of weight zero changes neither the weighted total nor the total weight. */
  lemma {:induction false} DropZeroWeights(values: seq<real>, w: seq<real>, keep: seq<bool>)
    requires |values| == |w| == |keep|
    requires forall j :: 0 <= j < |keep| && !keep[j] ==> w[j] == 0.0
    ensures WeightedTotal(Select(values, keep), Select(w, keep)) == WeightedTotal(values, w)
    ensures Sum(Select(w, keep)) == Sum(w)
  {
    var n := |values|;
    if n > 0 {
      var vs := Select(values[..n - 1], keep[..n - 1]);
      var ws := Select(w[..n - 1], keep[..n - 1]);
      DropZeroWeights(values[..n - 1], w[..n - 1], keep[..n - 1]);
      if keep[n - 1] {
        assert (vs + [values[n - 1]])[..|vs|] == vs;
        assert (ws + [w[n - 1]])[..|ws|] == ws;
      } else {
        assert Weighted(values[n - 1], w[n - 1]) == 0.0;
      }
    }
  }

  lemma RowOfSelect(columns: seq<seq<real>>, keep: seq<bool>, t: nat)
    requires |columns| == |keep| && forall j :: 0 <= j < |columns| ==> t < |columns[j]|
    ensures forall i :: 0 <= i < |Select(columns, keep)| ==> t < |Select(columns, keep)[i]|
    ensures Row(Select(columns, keep), t) == Select(Row(columns, t), keep)
  {
    var picked := Select(columns, keep);
    forall i | 0 <= i < |picked|
      ensures t < |picked[i]|
    {
      SelectAt(columns, keep, i);
    }
    forall i | 0 <= i < |picked|
      ensures Row(picked, t)[i] == Select(Row(columns, t), keep)[i]
    {
      SelectAt(columns, keep, i);
      SelectAt(Row(columns, t), keep, i);
    }
  }

  /** The spatial buffer over the kept points is the kept columns of the full buffer. */
  lemma SpatialBufferOfSelect(rcs: seq<SpatialRaincell>, start: real, ts: real,
                              xs: seq<real>, ys: seq<real>, phi: seq<real>, keep: seq<bool>, len: nat)
    requires 0.0 < ts && |xs| == |ys| == |phi| == |keep|
    ensures SpatialBuffer(rcs, start, ts, Select(xs, keep), Select(ys, keep), Select(phi, keep), len)
            == Select(SpatialBuffer(rcs, start, ts, xs, ys, phi, len), keep)
  {
    var full := SpatialBuffer(rcs, start, ts, xs, ys, phi, len);
    var pruned := SpatialBuffer(rcs, start, ts, Select(xs, keep), Select(ys, keep), Select(phi, keep), len);
    forall i | 0 <= i < |pruned|
      ensures pruned[i] == Select(full, keep)[i]
    {
      SelectAt(xs, keep, i);
      SelectAt(ys, keep, i);
      SelectAt(phi, keep, i);
      SelectAt(full, keep, i);
    }
  }

  /**
    Pruning the grid changes no catchment's series: the spatial buffer over
    the kept points is the kept columns of the full buffer, and the dropped
    points carry no weight in the catchment.
  */
  lemma PruningPreservesCatchmentSeries(rcs: seq<SpatialRaincell>, start: real, ts: real,
                                        xs: seq<real>, ys: seq<real>, phi: seq<real>, w: seq<real>,
                                        keep: seq<bool>, len: nat)
    requires 0.0 < ts && |xs| == |ys| == |phi| == |w| == |keep|
    requires forall j :: 0 <= j < |keep| && !keep[j] ==> w[j] == 0.0
    ensures CatchmentSeries(SpatialBuffer(rcs, start, ts, Select(xs, keep), Select(ys, keep), Select(phi, keep), len),
                            Select(w, keep), len)
            == CatchmentSeries(SpatialBuffer(rcs, start, ts, xs, ys, phi, len), w, len)
  {
    var full := SpatialBuffer(rcs, start, ts, xs, ys, phi, len);
    SpatialBufferOfSelect(rcs, start, ts, xs, ys, phi, keep, len);
    SeriesOfSelect(full, w, keep, len);
  }

  /** Catchment weights are areal fractions: none is below zero. */
  predicate NonNegativeWeights(g: GridMetadata, catchments: set<int>) {
    forall id, j :: id in catchments && id in g.weights && 0 <= j < |g.weights[id]| ==> 0.0 <= g.weights[id][j]
  }

  /** With weights that are never negative, every point the mask drops weighs nothing in every catchment. */
  lemma MaskDropsOnlyZeroWeights(g: GridMetadata, catchments: set<int>, id: int, j: nat)
    requires forall id :: id in catchments ==> id in g.weights && |g.weights[id]| == |g.x|
    requires NonNegativeWeights(g, catchments)
    requires id in catchments && j < |g.x| && !MaskOf(g, catchments)[j]
    ensures g.weights[id][j] == 0.0
  {
    assert !UsedPoint(g, catchments, j);
  }

  /**
    Pruning the grid with its own catchment mask leaves every catchment's
    series, in every season, as it was on the full grid.
  */
  lemma PruningKeepsCatchmentSeries(rcs: seq<SpatialRaincell>, start: real, ts: real, g: GridMetadata,
                                    catchments: set<int>, seasons: set<int>, id: int, s: int, len: nat)
    requires 0.0 < ts && Prunable(g, catchments, seasons) && NonNegativeWeights(g, catchments)
    requires id in catchments && s in seasons
    ensures var p := ApplyMask(g, MaskOf(g, catchments), catchments, seasons);
            CatchmentSeries(SpatialBuffer(rcs, start, ts, p.x, p.y, p.phi[s], len), p.weights[id], len)
            == CatchmentSeries(SpatialBuffer(rcs, start, ts, g.x, g.y, g.phi[s], len), g.weights[id], len)
  {
    var mask := MaskOf(g, catchments);
    forall j | 0 <= j < |mask| && !mask[j]
      ensures g.weights[id][j] == 0.0
    {
      MaskDropsOnlyZeroWeights(g, catchments, id, j);
    }
    PruningPreservesCatchmentSeries(rcs, start, ts, g.x, g.y, g.phi[s], g.weights[id], mask, len);
  }

  /** Selecting columns whose dropped points weigh nothing leaves the catchment series unchanged. */
  lemma SeriesOfSelect(columns: seq<seq<real>>, w: seq<real>, keep: seq<bool>, len: nat)
    requires |columns| == |w| == |keep| && forall j :: 0 <= j < |columns| ==> len <= |columns[j]|
    requires forall j :: 0 <= j < |keep| && !keep[j] ==> w[j] == 0.0
    ensures forall i :: 0 <= i < |Select(columns, keep)| ==> len <= |Select(columns, keep)[i]|
    ensures CatchmentSeries(Select(columns, keep), Select(w, keep), len) == CatchmentSeries(columns, w, len)
  {
    var picked := Select(columns, keep);
    forall i | 0 <= i < |picked|
      ensures len <= |picked[i]|
    {
      SelectAt(columns, keep, i);
    }
    DropZeroWeights(w, w, keep);
    if Sum(w) != 0.0 {
      var a := CatchmentSeries(picked, Select(w, keep), len).value;
      var b := CatchmentSeries(columns, w, len).value;
      forall t | 0 <= t < len
        ensures a[t] == b[t]
      {
        RowOfSelect(columns, keep, t);
        DropZeroWeights(Row(columns, t), w, keep);
      }
      assert a == b;
    }
  }
}
