/**
  The summary statistics of `calculate_statistics` in pro/app.py, over exact
  reals: mean, median, the multimode report, the sample variance (the standard
  deviation without its square root) and the quartile deviation.
 */
module SampleStatistics {
  import opened Wrappers
  import Text

  // ---------------------------------------------------------------------------
  // Sums, extremes and sorting
  // ---------------------------------------------------------------------------

  function Sum(s: seq<real>): real
  {
    if s == [] then 0.0 else s[0] + Sum(s[1..])
  }

  /** The least element of a non-empty sample. */
  function Min(s: seq<real>): (m: real)
    requires |s| > 0
    ensures m in s
    ensures forall i :: 0 <= i < |s| ==> m <= s[i]
  {
    if |s| == 1 then s[0]
    else
      var rest := Min(s[1..]);
      if s[0] <= rest then s[0] else rest
  }

  /** The greatest element of a non-empty sample. */
  function Max(s: seq<real>): (m: real)
    requires |s| > 0
    ensures m in s
    ensures forall i :: 0 <= i < |s| ==> s[i] <= m
  {
    if |s| == 1 then s[0]
    else
      var rest := Max(s[1..]);
      if s[0] >= rest then s[0] else rest
  }

  predicate Sorted(s: seq<real>)
  {
    forall i, j :: 0 <= i < j < |s| ==> s[i] <= s[j]
  }

  lemma SortedCons(h: real, t: seq<real>)
    requires Sorted(t)
    requires forall k :: 0 <= k < |t| ==> h <= t[k]
    ensures Sorted([h] + t)
  {
  }

  /** A bound below `x` and every element of `s` stays below every element of a rearrangement of both. */
  lemma LowerBoundKept(b: real, x: real, s: seq<real>, r: seq<real>)
    requires b <= x && forall k :: 0 <= k < |s| ==> b <= s[k]
    requires multiset(r) == multiset(s) + multiset{x}
    ensures forall k :: 0 <= k < |r| ==> b <= r[k]
  {
    forall k | 0 <= k < |r| ensures b <= r[k] {
      assert r[k] in multiset(r);
      assert r[k] == x || r[k] in s;
    }
  }

  function Insert(x: real, s: seq<real>): (r: seq<real>)
    requires Sorted(s)
    ensures Sorted(r)
    ensures multiset(r) == multiset(s) + multiset{x}
  {
    if s == [] || x <= s[0] then [x] + s
    else
      var rest := Insert(x, s[1..]);
      assert s == [s[0]] + s[1..];
      LowerBoundKept(s[0], x, s[1..], rest);
      SortedCons(s[0], rest);
      [s[0]] + rest
  }

  /** `sorted(data)`: an ascending permutation of the sample. */
  function Sort(s: seq<real>): (r: seq<real>)
    ensures Sorted(r)
    ensures multiset(r) == multiset(s)
  {
    if s == [] then []
    else
      assert s == [s[0]] + s[1..];
      Insert(s[0], Sort(s[1..]))
  }

  /** Every element of a rearrangement of `s` lies between the extremes of `s`. */
  lemma WithinExtremes(s: seq<real>, t: seq<real>, k: int)
    requires |s| > 0 && multiset(t) == multiset(s) && 0 <= k < |t|
    ensures Min(s) <= t[k] <= Max(s)
  {
    assert t[k] in multiset(t);
    assert t[k] in s;
  }

  // ---------------------------------------------------------------------------
  // Mean and median
  // ---------------------------------------------------------------------------

  /** An average is at least any lower bound of the values. */
  lemma AverageAtLeast(s: seq<real>, c: real)
    requires |s| > 0 && forall i :: 0 <= i < |s| ==> c <= s[i]
    ensures c <= Sum(s) / (|s| as real)
  {
  }

  /** An average is at most any upper bound of the values. */
  lemma AverageAtMost(s: seq<real>, c: real)
    requires |s| > 0 && forall i :: 0 <= i < |s| ==> s[i] <= c
    ensures Sum(s) / (|s| as real) <= c
  {
  }

  /** `statistics.mean`: the arithmetic average, which lies between the extremes. */
  function Mean(s: seq<real>): (m: real)
    requires |s| > 0
    ensures Min(s) <= m <= Max(s)
  {
    AverageAtLeast(s, Min(s));
    AverageAtMost(s, Max(s));
    Sum(s) / (|s| as real)
  }

  /** `statistics.median`: the middle of the sorted sample, or the average of the two middle values. */
  function Median(s: seq<real>): (m: real)
    requires |s| > 0
    ensures Min(s) <= m <= Max(s)
  {
    var t := Sort(s);
    var n := |t|;
    assert n == |s| by {
      assert |multiset(t)| == |multiset(s)|;
    }
    WithinExtremes(s, t, n / 2);
    if n % 2 == 1 then t[n / 2]
    else
      WithinExtremes(s, t, n / 2 - 1);
      (t[n / 2 - 1] + t[n / 2]) / 2.0
  }

  // ---------------------------------------------------------------------------
  // Multimode
  // ---------------------------------------------------------------------------

  predicate NoDuplicates(s: seq<real>)
  {
    forall i, j :: 0 <= i < j < |s| ==> s[i] != s[j]
  }

  /** The distinct values of `s` (the keys of a `Counter`). */
  function Distinct(s: seq<real>): (d: seq<real>)
    ensures forall x :: x in d <==> x in s
    ensures NoDuplicates(d)
    ensures |d| <= |s|
  {
    if s == [] then []
    else
      var last := s[|s| - 1];
      var earlier := Distinct(s[..|s| - 1]);
      assert s == s[..|s| - 1] + [last];
      if last in earlier then earlier else earlier + [last]
  }

  /** The largest count in `m` of a value listed in `vals` (0 when there is none). */
  function MaxCount(vals: seq<real>, m: multiset<real>): (c: nat)
    ensures forall i :: 0 <= i < |vals| ==> m[vals[i]] <= c
    ensures vals != [] ==> exists i :: 0 <= i < |vals| && m[vals[i]] == c
  {
    if vals == [] then 0
    else
      var rest := MaxCount(vals[1..], m);
      if m[vals[0]] >= rest then m[vals[0]] else rest
  }

  /** The values of `vals` whose count in `m` is `c`, in their order. */
  function KeepCount(vals: seq<real>, m: multiset<real>, c: nat): (r: seq<real>)
    ensures forall x :: x in r <==> x in vals && m[x] == c
    ensures |r| <= |vals|
    ensures NoDuplicates(vals) ==> NoDuplicates(r)
  {
    if vals == [] then []
    else
      var rest := KeepCount(vals[1..], m, c);
      assert vals == [vals[0]] + vals[1..];
      if m[vals[0]] == c then [vals[0]] + rest else rest
  }

  /** The highest multiplicity of any value of the sample. */
  function MaxFrequency(s: seq<real>): nat
  {
    MaxCount(Distinct(s), multiset(s))
  }

  /** `statistics.multimode`: the values of greatest multiplicity, each listed once. */
  function Multimode(s: seq<real>): (m: seq<real>)
    ensures NoDuplicates(m)
    ensures |m| <= |s|
  {
    KeepCount(Distinct(s), multiset(s), MaxFrequency(s))
  }

  datatype ModeReport = NoUniqueMode | Modes(values: seq<real>)

  /** Lines 20-24: the sentinel when there are as many modal values as data points. */
  function Mode(s: seq<real>): (r: ModeReport)
    ensures r.Modes? ==> 0 < |r.values| < |s| && NoDuplicates(r.values)
    ensures s == [] ==> r == NoUniqueMode
  {
    var modes := Multimode(s);
    assert s != [] ==> |modes| > 0 by {
      if s != [] {
        MultimodeNonEmpty(s);
      }
    }
    if |modes| == |s| then NoUniqueMode else Modes(modes)
  }

  /** The report as text, given the `str` rendering of a value. */
  function ModeText(report: ModeReport, show: real -> string): (t: string)
    ensures report == NoUniqueMode ==> t == "No unique mode"
    ensures report.Modes? && |report.values| == 1 ==> t == show(report.values[0])
    ensures report.Modes? && |report.values| >= 2 ==> show(report.values[0]) + ", " <= t
    ensures report.Modes? && |report.values| >= 2 ==>
      t == show(report.values[0]) + ", " + ModeText(Modes(report.values[1..]), show)
    decreases if report.Modes? then |report.values| else 0
  {
    match report
    case NoUniqueMode => "No unique mode"
    case Modes(values) =>
      var shown := seq(|values|, i requires 0 <= i < |values| => show(values[i]));
      assert |values| >= 2 ==>
        shown[1..] == seq(|values[1..]|, i requires 0 <= i < |values[1..]| => show(values[1..][i]));
      Text.Join(shown, ", ")
  }

  /** A value is modal exactly when it occurs and no value occurs more often. */
  lemma MultimodeMembers(s: seq<real>, x: real)
    ensures x in Multimode(s) <==> x in s && forall y :: y in s ==> multiset(s)[y] <= multiset(s)[x]
  {
  }

  /** A non-empty sample has at least one modal value. */
  lemma MultimodeNonEmpty(s: seq<real>)
    requires |s| > 0
    ensures |Multimode(s)| > 0
  {
  }

  lemma {:induction false} DistinctOfDistinct(s: seq<real>)
    requires NoDuplicates(s)
    ensures Distinct(s) == s
  {
    if s != [] {
      var p := s[..|s| - 1];
      assert NoDuplicates(p);
      DistinctOfDistinct(p);
      assert s[|s| - 1] !in Distinct(p);
      assert s == p + [s[|s| - 1]];
    }
  }

  lemma {:induction false} FullDistinctHasNoDuplicates(s: seq<real>)
    requires |Distinct(s)| == |s|
    ensures NoDuplicates(s)
  {
    if s != [] {
      var p := s[..|s| - 1];
      var last := s[|s| - 1];
      assert s == p + [last];
      assert last !in Distinct(p);
      FullDistinctHasNoDuplicates(p);
      assert last !in p;
    }
  }

  lemma {:induction false} SingleCounts(s: seq<real>, i: int)
    requires NoDuplicates(s) && 0 <= i < |s|
    ensures multiset(s)[s[i]] == 1
  {
    var p := s[..|s| - 1];
    var last := s[|s| - 1];
    assert s == p + [last];
    assert multiset(s) == multiset(p) + multiset{last};
    if i == |s| - 1 {
      assert last !in p;
    } else {
      assert NoDuplicates(p);
      SingleCounts(p, i);
      assert p[i] == s[i];
    }
  }

  lemma {:induction false} KeepAll(vals: seq<real>, m: multiset<real>, c: nat)
    requires forall i :: 0 <= i < |vals| ==> m[vals[i]] == c
    ensures KeepCount(vals, m, c) == vals
  {
    if vals != [] {
      KeepAll(vals[1..], m, c);
      assert vals == [vals[0]] + vals[1..];
    }
  }

  /**
    "No unique mode" is reported exactly when no value repeats: equally many
    modal values and data points can only arise when every value occurs once.
   */
  lemma NoUniqueModeIffDistinct(s: seq<real>)
    ensures Mode(s) == NoUniqueMode <==> NoDuplicates(s)
  {
    if NoDuplicates(s) {
      DistinctOfDistinct(s);
      forall i | 0 <= i < |s| ensures multiset(s)[s[i]] == 1 {
        SingleCounts(s, i);
      }
      if s != [] {
        var i :| 0 <= i < |s| && multiset(s)[s[i]] == MaxFrequency(s);
        assert MaxFrequency(s) == 1;
        KeepAll(s, multiset(s), 1);
      }
    }
    if |Multimode(s)| == |s| {
      FullDistinctHasNoDuplicates(s);
    }
  }

  /** Otherwise the report lists exactly the values of greatest multiplicity. */
  lemma ModesListed(s: seq<real>, x: real)
    requires Mode(s).Modes?
    ensures x in Mode(s).values <==> x in s && forall y :: y in s ==> multiset(s)[y] <= multiset(s)[x]
  {
  }

  // ---------------------------------------------------------------------------
  // Dispersion
  // ---------------------------------------------------------------------------

  lemma SquareNonNegative(x: real)
    ensures x * x >= 0.0
  {
  }

  /** The sum of squared deviations from `c`. */
  function SquaredDeviations(s: seq<real>, c: real): (r: real)
    ensures r >= 0.0
  {
    if s == [] then 0.0
    else
      SquareNonNegative(s[0] - c);
      (s[0] - c) * (s[0] - c) + SquaredDeviations(s[1..], c)
  }

  lemma QuotientNonNegative(a: real, b: real)
    requires a >= 0.0 && b > 0.0
    ensures a / b >= 0.0
  {
  }

  /** The square of `statistics.stdev` (divisor n - 1). */
  function SampleVariance(s: seq<real>): (v: real)
    requires |s| >= 2
    ensures v >= 0.0
  {
    QuotientNonNegative(SquaredDeviations(s, Mean(s)), (|s| - 1) as real);
    SquaredDeviations(s, Mean(s)) / ((|s| - 1) as real)
  }

  /** The square of `np.std` (divisor n). */
  function PopulationVariance(s: seq<real>): (v: real)
    requires |s| > 0
    ensures v >= 0.0
  {
    QuotientNonNegative(SquaredDeviations(s, Mean(s)), |s| as real);
    SquaredDeviations(s, Mean(s)) / (|s| as real)
  }

  // ---------------------------------------------------------------------------
  // Quartiles
  // ---------------------------------------------------------------------------

  /** `sorted_data[:n//2]`: the floor(n/2) smallest values, ascending. */
  function LowerHalf(s: seq<real>): (h: seq<real>)
    ensures |h| == |s| / 2 && Sorted(h)
  {
    assert |Sort(s)| == |s| by {
      assert |multiset(Sort(s))| == |multiset(s)|;
    }
    Sort(s)[..|Sort(s)| / 2]
  }

  /** `sorted_data[n//2:]`: the other n - floor(n/2) values, ascending. */
  function UpperHalf(s: seq<real>): (h: seq<real>)
    ensures |h| == |s| - |s| / 2 && Sorted(h)
  {
    assert |Sort(s)| == |s| by {
      assert |multiset(Sort(s))| == |multiset(s)|;
    }
    Sort(s)[|Sort(s)| / 2..]
  }

  lemma SortedSplit(t: seq<real>, h: int)
    requires Sorted(t) && 0 <= h <= |t|
    ensures forall i, j :: 0 <= i < h && 0 <= j < |t| - h ==> t[..h][i] <= t[h..][j]
  {
  }

  /**
    The halves partition the sorted sample at n//2: the lower half holds the
    floor(n/2) smallest values and no lower value exceeds an upper one.
   */
  lemma QuartileHalves(s: seq<real>)
    ensures |LowerHalf(s)| == |s| / 2 && |UpperHalf(s)| == |s| - |s| / 2
    ensures LowerHalf(s) + UpperHalf(s) == Sort(s)
    ensures forall i, j :: 0 <= i < |LowerHalf(s)| && 0 <= j < |UpperHalf(s)| ==> LowerHalf(s)[i] <= UpperHalf(s)[j]
  {
    var t := Sort(s);
    assert |t| == |s| by {
      assert |multiset(t)| == |multiset(s)|;
    }
    assert t[..|t| / 2] + t[|t| / 2..] == t;
    SortedSplit(t, |t| / 2);
  }

  /** `(q3 - q1) / 2` with q1 and q3 the medians of the two halves. */
  function QuartileDeviation(s: seq<real>): (q: real)
    requires |s| >= 2
    ensures q >= 0.0
  {
    QuartileHalves(s);
    var lower, upper := LowerHalf(s), UpperHalf(s);
    var q1, q3 := Median(lower), Median(upper);
    assert Max(lower) <= Min(upper) by {
      var i :| 0 <= i < |lower| && lower[i] == Max(lower);
      var j :| 0 <= j < |upper| && upper[j] == Min(upper);
    }
    (q3 - q1) / 2.0
  }

  // ---------------------------------------------------------------------------
  // calculate_statistics
  // ---------------------------------------------------------------------------

  /** The two ways the statistics library rejects a short sample. */
  datatype StatisticsError =
    | MeanOfEmpty     // statistics.mean: "mean requires at least one data point"
    | StdevOfOne      // statistics.stdev: "stdev requires at least two data points"

  datatype Summary = Summary(mean: real, median: real, mode: ModeReport, variance: real, quartileDeviation: real)

  /** `calculate_statistics(data)`: the five summary values, or the error the first failing call raises. */
  function CalculateStatistics(data: seq<real>): (r: Result<Summary, StatisticsError>)
    ensures r.Success? <==> |data| >= 2
    ensures |data| == 0 ==> r == Failure(MeanOfEmpty)
    ensures |data| == 1 ==> r == Failure(StdevOfOne)
    ensures r.Success? ==> Min(data) <= r.value.mean <= Max(data)
    ensures r.Success? ==> Min(data) <= r.value.median <= Max(data)
    ensures r.Success? ==> (r.value.mode == NoUniqueMode <==> NoDuplicates(data))
    ensures r.Success? ==> r.value.variance >= 0.0 && r.value.quartileDeviation >= 0.0
  {
    if |data| == 0 then Failure(MeanOfEmpty)
    else if |data| == 1 then Failure(StdevOfOne)
    else
      NoUniqueModeIffDistinct(data);
      Success(Summary(Mean(data), Median(data), Mode(data), SampleVariance(data), QuartileDeviation(data)))
  }
}
