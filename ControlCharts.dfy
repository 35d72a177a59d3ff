/**
  The control-chart logic of `create_plots` in pro/app.py (lines 99-164,
  limits and classification only): the shared `check_control` rule, the
  non-overlapping pair ranges of the R chart, and the `center ± 3 · spread`
  limits of the X, P, R and C charts.

  Square roots are not computed: each chart takes the root of its radicand as
  a parameter, pinned down by `IsRoot`. A limit is a `Bound`, the float it
  would be: a number, or NaN where numpy takes the root of a negative number.
  NaN propagates through `center ± 3 · root`, and every comparison with it is
  false.
 */
module ControlCharts {
  import opened SampleStatistics

  datatype Status = InControl | OutOfControl

  /** The value of a float limit: a number, or NaN. */
  datatype Bound = Num(v: real) | NaN

  /** The float comparison `x > b`: false when `b` is NaN. */
  predicate Above(x: real, b: Bound)
  {
    b.Num? && x > b.v
  }

  /** The float comparison `x < b`: false when `b` is NaN. */
  predicate Below(x: real, b: Bound)
  {
    b.Num? && x < b.v
  }

  /** `check_control`: out of control iff some point compares strictly beyond a limit. */
  function CheckControl(data: seq<real>, ucl: Bound, lcl: Bound): (st: Status)
    ensures st == OutOfControl <==> exists i :: 0 <= i < |data| && (Above(data[i], ucl) || Below(data[i], lcl))
  {
    if data == [] then InControl
    else if Above(data[0], ucl) || Below(data[0], lcl) then OutOfControl
    else
      var rest := CheckControl(data[1..], ucl, lcl);
      assert forall i :: 1 <= i < |data| ==> data[i] == data[1..][i - 1];
      rest
  }

  /** With numeric limits, points on a limit are in control; so is an empty sequence. */
  lemma InControlWithin(data: seq<real>, ucl: real, lcl: real)
    ensures CheckControl(data, Num(ucl), Num(lcl)) == InControl <==> forall i :: 0 <= i < |data| ==> lcl <= data[i] <= ucl
    ensures data == [] ==> CheckControl(data, Num(ucl), Num(lcl)) == InControl
  {
  }

  /** No point compares beyond a NaN limit, so NaN limits never flag a series. */
  lemma NaNLimitsInControl(data: seq<real>, ucl: Bound, lcl: Bound)
    requires ucl == NaN && lcl == NaN
    ensures CheckControl(data, ucl, lcl) == InControl
  {
  }

  /** What one chart shows: the plotted points, the center line, the limits and the verdict. */
  datatype Chart = Chart(plotted: seq<real>, center: real, ucl: Bound, lcl: Bound, status: Status)

  /** `r` is the non-negative square root of `v`, as `np.sqrt` returns it. */
  ghost predicate IsRoot(r: real, v: real)
  {
    r >= 0.0 && r * r == v
  }

  /** `np.sqrt(v)`, where `r` is the root when there is one: NaN for a negative `v`. */
  function Sqrt(v: real, r: real): (b: Bound)
    requires v >= 0.0 ==> IsRoot(r, v)
    ensures b.NaN? <==> v < 0.0
    ensures b.Num? ==> IsRoot(b.v, v)
  {
    if v < 0.0 then NaN else Num(r)
  }

  /** The float `center + k · b`: NaN stays NaN. */
  function Offset(center: real, k: real, b: Bound): Bound
  {
    if b.NaN? then NaN else Num(center + k * b.v)
  }

  /** The limits `center ± 3 · spread` shared by the four charts, and the verdict for `plotted`. */
  function Shewhart(plotted: seq<real>, center: real, spread: Bound): (c: Chart)
    ensures c.plotted == plotted && c.center == center
    ensures spread.Num? ==> c.ucl == Num(center + 3.0 * spread.v) && c.lcl == Num(center - 3.0 * spread.v)
    ensures spread.NaN? ==> c.ucl == NaN && c.lcl == NaN
    ensures spread.Num? && spread.v >= 0.0 ==> c.lcl.v <= center <= c.ucl.v
    ensures c.status == OutOfControl <==>
      exists i :: 0 <= i < |plotted| && (Above(plotted[i], c.ucl) || Below(plotted[i], c.lcl))
    ensures spread.NaN? ==> c.status == InControl
  {
    var ucl, lcl := Offset(center, 3.0, spread), Offset(center, -3.0, spread);
    Chart(plotted, center, ucl, lcl, CheckControl(plotted, ucl, lcl))
  }

  // ---------------------------------------------------------------------------
  // X chart (individuals)
  // ---------------------------------------------------------------------------

  /** Lines 101-105: mean ± 3 · np.std(data), where `sd` is np.std(data). */
  function XChart(data: seq<real>, sd: real): (c: Chart)
    requires |data| > 0 && IsRoot(sd, PopulationVariance(data))
    ensures c.plotted == data && c.center == Mean(data)
    ensures Min(data) <= c.center <= Max(data)
    ensures c.ucl == Num(c.center + 3.0 * sd) && c.lcl == Num(c.center - 3.0 * sd)
    ensures c.lcl.v <= c.center <= c.ucl.v
    ensures c.status == OutOfControl <==>
      exists i :: 0 <= i < |data| && (data[i] > c.ucl.v || data[i] < c.lcl.v)
  {
    Shewhart(data, Mean(data), Num(sd))
  }

  // ---------------------------------------------------------------------------
  // P chart (proportion defective)
  // ---------------------------------------------------------------------------

  /** `p * (1 - p) / n`, the variance of a proportion estimated from n points. */
  function ProportionVariance(p: real, n: real): real
    requires n > 0.0
  {
    p * (1.0 - p) / n
  }

  /** The radicand `p_bar * (1 - p_bar) / n` of lines 120-121. */
  function PRadicand(data: seq<real>): real
    requires |data| > 0
  {
    ProportionVariance(Mean(data), |data| as real)
  }

  lemma ProductNonNegative(a: real, b: real)
    requires a >= 0.0 && b >= 0.0
    ensures a * b >= 0.0
  {
  }

  lemma ProductNegative(a: real, b: real)
    requires a < 0.0 && b > 0.0
    ensures a * b < 0.0
  {
  }

  lemma QuotientSign(a: real, b: real)
    requires b > 0.0
    ensures a >= 0.0 <==> a / b >= 0.0
  {
  }

  lemma ProportionVarianceSign(p: real, n: real)
    requires n > 0.0
    ensures ProportionVariance(p, n) >= 0.0 <==> 0.0 <= p <= 1.0
  {
    QuotientSign(p * (1.0 - p), n);
    if p < 0.0 {
      ProductNegative(p, 1.0 - p);
    } else if p > 1.0 {
      ProductNegative(1.0 - p, p);
      assert (1.0 - p) * p == p * (1.0 - p);
    } else {
      ProductNonNegative(p, 1.0 - p);
    }
  }

  /** The P-chart radicand is non-negative exactly when the mean is a proportion. */
  lemma PRadicandSign(data: seq<real>)
    requires |data| > 0
    ensures PRadicand(data) >= 0.0 <==> 0.0 <= Mean(data) <= 1.0
  {
    ProportionVarianceSign(Mean(data), |data| as real);
  }

  /** Lines 118-122: p_bar ± 3 · np.sqrt(p_bar (1 - p_bar) / n); `root` is that square root when it exists. */
  function PChart(data: seq<real>, root: real): (c: Chart)
    requires |data| > 0
    requires PRadicand(data) >= 0.0 ==> IsRoot(root, PRadicand(data))
    ensures c.plotted == data && c.center == Mean(data)
    ensures c.ucl.Num? <==> 0.0 <= Mean(data) <= 1.0
    ensures c.lcl.Num? <==> 0.0 <= Mean(data) <= 1.0
    ensures c.ucl.Num? ==> c.ucl.v == c.center + 3.0 * root && c.lcl.v == c.center - 3.0 * root
    ensures c.ucl.Num? ==> c.lcl.v <= c.center <= c.ucl.v
    ensures c.status == OutOfControl <==>
      exists i :: 0 <= i < |data| && (Above(data[i], c.ucl) || Below(data[i], c.lcl))
    ensures !(0.0 <= Mean(data) <= 1.0) ==> c.status == InControl
  {
    PRadicandSign(data);
    Shewhart(data, Mean(data), Sqrt(PRadicand(data), root))
  }

  /** Data that are proportions always get numeric P-chart limits. */
  lemma ProportionsHaveLimits(data: seq<real>, root: real)
    requires |data| > 0
    requires forall i :: 0 <= i < |data| ==> 0.0 <= data[i] <= 1.0
    requires PRadicand(data) >= 0.0 ==> IsRoot(root, PRadicand(data))
    ensures PChart(data, root).ucl.Num? && PChart(data, root).lcl.Num?
  {
  }

  // ---------------------------------------------------------------------------
  // R chart (ranges)
  // ---------------------------------------------------------------------------

  function Abs(x: real): real
  {
    if x < 0.0 then -x else x
  }

  /** `max(w) - min(w)` for the slice `w = data[2k : 2k + 2]`. */
  function PairRange(data: seq<real>, k: int): (r: real)
    requires 0 <= 2 * k < |data|
    ensures r >= 0.0
  {
    var w := data[2 * k .. if 2 * k + 2 <= |data| then 2 * k + 2 else |data|];
    Max(w) - Min(w)
  }

  /** Line 135: the ranges of consecutive non-overlapping pairs, the last one possibly a single point. */
  function Ranges(data: seq<real>): (r: seq<real>)
    ensures |r| == (|data| + 1) / 2
    ensures forall k :: 0 <= k < |r| ==> r[k] >= 0.0
  {
    seq((|data| + 1) / 2, k requires 0 <= k < (|data| + 1) / 2 => PairRange(data, k))
  }

  /** Entry k is the distance between the two points of pair k; a trailing single point has range 0. */
  lemma RangeOfPair(data: seq<real>, k: int)
    requires 0 <= k < (|data| + 1) / 2
    ensures 2 * k + 1 < |data| ==> Ranges(data)[k] == Abs(data[2 * k] - data[2 * k + 1])
    ensures 2 * k + 1 == |data| ==> Ranges(data)[k] == 0.0
  {
  }

  /** The ranges of [1, 3, 2, 8, 5, 5] are [2, 6, 0]. */
  lemma RangesExample()
    ensures Ranges([1.0, 3.0, 2.0, 8.0, 5.0, 5.0]) == [2.0, 6.0, 0.0]
  {
    var data := [1.0, 3.0, 2.0, 8.0, 5.0, 5.0];
    RangeOfPair(data, 0);
    RangeOfPair(data, 1);
    RangeOfPair(data, 2);
  }

  /** The mean range of a non-empty sample is non-negative. */
  lemma RangesCenter(data: seq<real>)
    requires |data| > 0
    ensures Mean(Ranges(data)) >= 0.0
  {
    assert Min(Ranges(data)) >= 0.0;
  }

  /** Lines 135-139: mean(ranges) ± 3 · np.std(ranges), plotted over the ranges. */
  function RChart(data: seq<real>, sd: real): (c: Chart)
    requires |data| > 0 && IsRoot(sd, PopulationVariance(Ranges(data)))
    ensures c.plotted == Ranges(data) && c.center == Mean(Ranges(data))
    ensures c.center >= 0.0
    ensures c.ucl == Num(c.center + 3.0 * sd) && c.lcl == Num(c.center - 3.0 * sd)
    ensures c.lcl.v <= c.center <= c.ucl.v
    ensures c.status == OutOfControl <==>
      exists k :: 0 <= k < |c.plotted| && (c.plotted[k] > c.ucl.v || c.plotted[k] < c.lcl.v)
  {
    RangesCenter(data);
    Shewhart(Ranges(data), Mean(Ranges(data)), Num(sd))
  }

  // ---------------------------------------------------------------------------
  // C chart (count of defects)
  // ---------------------------------------------------------------------------

  /** Lines 152-155: c_bar ± 3 · np.sqrt(c_bar); `root` is that square root when it exists. */
  function CChart(data: seq<real>, root: real): (c: Chart)
    requires |data| > 0
    requires Mean(data) >= 0.0 ==> IsRoot(root, Mean(data))
    ensures c.plotted == data && c.center == Mean(data)
    ensures c.ucl.Num? <==> Mean(data) >= 0.0
    ensures c.lcl.Num? <==> Mean(data) >= 0.0
    ensures c.ucl.Num? ==> c.ucl.v == c.center + 3.0 * root && c.lcl.v == c.center - 3.0 * root
    ensures c.ucl.Num? ==> c.lcl.v <= c.center <= c.ucl.v
    ensures c.status == OutOfControl <==>
      exists i :: 0 <= i < |data| && (Above(data[i], c.ucl) || Below(data[i], c.lcl))
    ensures Mean(data) < 0.0 ==> c.status == InControl
  {
    Shewhart(data, Mean(data), Sqrt(Mean(data), root))
  }

  /** Counts are never negative, so count data always get numeric C-chart limits. */
  lemma CountsHaveLimits(data: seq<real>, root: real)
    requires |data| > 0
    requires forall i :: 0 <= i < |data| ==> data[i] >= 0.0
    requires Mean(data) >= 0.0 ==> IsRoot(root, Mean(data))
    ensures CChart(data, root).ucl.Num? && CChart(data, root).lcl.Num?
  {
  }
}
