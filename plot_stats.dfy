/**
 * The statistics plotter's input handling: choosing a percentage range of the
 * input lines, detecting how many lines make up one sampling period, and
 * collecting every `name: [value]` sample into sparse per-metric series.
 */
module PlotStats {
  import opened Outcomes
  import opened Numerics

  // ---------------------------------------------------------------------------
  // slice_lines_by_percent
  // ---------------------------------------------------------------------------

  /** `max(0.0, min(100.0, p))`. */
  function ClampPercent(p: real): (c: real)
    ensures 0.0 <= c <= 100.0
    ensures 0.0 <= p <= 100.0 ==> c == p
    ensures p < 0.0 ==> c == 0.0
    ensures p > 100.0 ==> c == 100.0
  {
    if p < 0.0 then 0.0 else if p > 100.0 then 100.0 else p
  }

  lemma FractionBelowWhole(f: real, n: nat)
    requires 0.0 <= f <= 1.0
    ensures 0.0 <= f * n as real <= n as real
  {
  }

  /** `int((p / 100.0) * n)`: the line index `p` percent into `n` lines. */
  function PercentLine(p: real, n: nat): (i: nat)
    requires 0.0 <= p <= 100.0
    ensures i <= n
    ensures i as real <= p / 100.0 * n as real < i as real + 1.0
  {
    var f := p / 100.0;
    FractionBelowWhole(f, n);
    var x := f * n as real;
    assert 0.0 <= x <= n as real;
    var i := Trunc(x);
    assert i as real <= x;
    i
  }

  /** The first line of the selection. */
  function StartLine(n: nat, sp: real): (i: nat)
    requires 0.0 <= sp < 100.0
    ensures i < n || n == 0
  {
    var i := PercentLine(sp, n);
    if n > 0 then
      assert sp / 100.0 < 1.0;
      FractionBelowWhole(sp / 100.0, n);
      assert sp / 100.0 * n as real < n as real;
      i
    else i
  }

  /** One past the last line of the selection: at least one line past the start. */
  function EndLine(n: nat, sp: real, ep: real): (j: nat)
    requires 0.0 <= sp < ep <= 100.0 && n > 0
    ensures StartLine(n, sp) < j <= n
    ensures PercentLine(ep, n) > StartLine(n, sp) ==> j == PercentLine(ep, n)
    ensures PercentLine(ep, n) <= StartLine(n, sp) ==> j == StartLine(n, sp) + 1
  {
    var i := StartLine(n, sp);
    var j := PercentLine(ep, n);
    if j <= i then i + 1 else j
  }

  datatype SliceError = EndNotAfterStart(startPercent: real, endPercent: real)

  /**
   * The lines between `startPercent` and `endPercent` of the input. Both are
   * first clamped into [0, 100]; an end at or before the start is an error.
   */
  function SliceLinesByPercent<T>(lines: seq<T>, startPercent: real, endPercent: real): (r: Result<seq<T>, SliceError>)
    ensures |lines| == 0 ==> r == Ok([])
    ensures |lines| > 0 ==> (r.Err? <==> ClampPercent(endPercent) <= ClampPercent(startPercent))
    ensures r.Err? ==> r.error == EndNotAfterStart(startPercent, endPercent)
    ensures r.Ok? && |lines| > 0 ==>
              var sp, ep := ClampPercent(startPercent), ClampPercent(endPercent);
              && 1 <= |r.value|
              && r.value == lines[StartLine(|lines|, sp)..EndLine(|lines|, sp, ep)]
  {
    var n := |lines|;
    if n == 0 then Ok([])
    else
      var sp := ClampPercent(startPercent);
      var ep := ClampPercent(endPercent);
      if ep <= sp then Err(EndNotAfterStart(startPercent, endPercent))
      else Ok(lines[StartLine(n, sp)..EndLine(n, sp, ep)])
  }

  /** The default range, 0 to 100 percent, selects every line. */
  lemma WholeRangeSelectsAll<T>(lines: seq<T>)
    ensures SliceLinesByPercent(lines, 0.0, 100.0) == Ok(lines)
  {
    var n := |lines|;
    if n > 0 {
      assert PercentLine(0.0, n) == 0;
      assert 100.0 / 100.0 * n as real == n as real;
      IntegralFixed(n);
      assert PercentLine(100.0, n) == n;
      assert ClampPercent(0.0) == 0.0 && ClampPercent(100.0) == 100.0;
      assert StartLine(n, 0.0) == 0;
      assert EndLine(n, 0.0, 100.0) == n;
      assert lines[0..n] == lines;
    }
  }

  /**
   * Adjacent ranges tile: when neither end had to be pushed past its start,
   * the lines of [a, b) followed by those of [b, c) are those of [a, c).
   */
  lemma AdjacentRangesConcatenate<T>(lines: seq<T>, a: real, b: real, c: real)
    requires |lines| > 0 && 0.0 <= a < b < c <= 100.0
    requires PercentLine(a, |lines|) < PercentLine(b, |lines|) < PercentLine(c, |lines|)
    ensures SliceLinesByPercent(lines, a, b).Ok? && SliceLinesByPercent(lines, b, c).Ok?
    ensures SliceLinesByPercent(lines, a, b).value + SliceLinesByPercent(lines, b, c).value
            == SliceLinesByPercent(lines, a, c).value
  {
    var n := |lines|;
    var i, j, k := PercentLine(a, n), PercentLine(b, n), PercentLine(c, n);
    assert SliceLinesByPercent(lines, a, b) == Ok(lines[i..j]);
    assert SliceLinesByPercent(lines, b, c) == Ok(lines[j..k]);
    assert SliceLinesByPercent(lines, a, c) == Ok(lines[i..k]);
    assert lines[i..j] + lines[j..k] == lines[i..k];
  }

  // ---------------------------------------------------------------------------
  // parse_sparse: the sampling period
  // ---------------------------------------------------------------------------

  predicate StartsWithTab(line: string) {
    |line| > 0 && line[0] == '\t'
  }

  /** The number of consecutive lines from index `i` on that begin with a tab. */
  function TabRun(lines: seq<string>, i: nat): (k: nat)
    requires i <= |lines|
    ensures i + k <= |lines|
    ensures forall j | i <= j < i + k :: StartsWithTab(lines[j])
    ensures i + k == |lines| || !StartsWithTab(lines[i + k])
    decreases |lines| - i
  {
    if i == |lines| || !StartsWithTab(lines[i]) then 0 else 1 + TabRun(lines, i + 1)
  }

  /** `line[0]` on an empty line raises `IndexError`. */
  datatype ParseError = EmptyLine(index: nat)

  /**
   * One period is the first line plus the tab-indented continuation lines that
   * follow it; the scan stops at the first line that does not begin with a tab.
   */
  function PeriodOf(lines: seq<string>): (r: Result<nat, ParseError>)
    ensures r.Ok? ==>
              && 1 <= r.value
              && (|lines| <= 1 ==> r.value == 1)
              && (|lines| > 1 ==> r.value <= |lines|)
              && (forall j | 1 <= j < r.value :: StartsWithTab(lines[j]))
              && (r.value < |lines| ==> |lines[r.value]| > 0 && lines[r.value][0] != '\t')
    ensures r.Err? ==>
              && 1 <= r.error.index < |lines|
              && lines[r.error.index] == ""
              && (forall j | 1 <= j < r.error.index :: StartsWithTab(lines[j]))
  {
    if |lines| <= 1 then Ok(1)
    else
      var k := TabRun(lines, 1);
      if 1 + k < |lines| && |lines[1 + k]| == 0 then Err(EmptyLine(1 + k)) else Ok(1 + k)
  }

  /** The `period` loop of `parse_sparse`. */
  method Period(lines: seq<string>) returns (r: Result<nat, ParseError>)
    ensures r == PeriodOf(lines)
  {
    var period := 1;
    var i := 1;
    while i < |lines|
      invariant 1 <= i <= |lines| || (|lines| == 0 && i == 1)
      invariant period == i
      invariant forall j | 1 <= j < i :: StartsWithTab(lines[j])
    {
      var line := lines[i];
      if |line| == 0 {
        return Err(EmptyLine(i));
      }
      if line[0] != '\t' {
        break;
      }
      period := period + 1;
      i := i + 1;
    }
    r := Ok(period);
  }

  // ---------------------------------------------------------------------------
  // parse_sparse: accumulating samples
  // ---------------------------------------------------------------------------

  /**
   * One `name: [value]` match found on a line; `value` is `None` when the
   * number does not convert to a float (such a match is skipped).
   */
  datatype Sample = Sample(name: string, value: Option<real>)

  /** The sparse series of one metric: x positions and their values. */
  datatype Series = Series(xs: seq<real>, ys: seq<real>)

  function Concat(a: Series, b: Series): Series {
    Series(a.xs + b.xs, a.ys + b.ys)
  }

  /** The x position of line `idx`: `float(idx) / period`. */
  function XOf(idx: nat, period: nat): (x: real)
    requires period > 0
    ensures 0.0 <= x
  {
    idx as real / period as real
  }

  lemma XOfIncreasing(a: nat, b: nat, period: nat)
    requires period > 0 && a < b
    ensures XOf(a, period) < XOf(b, period)
  {
  }

  /** The samples of `name` among the first `j` matches of one line, all at position `x`. */
  function LineSeries(ms: seq<Sample>, name: string, x: real, j: nat): (s: Series)
    requires j <= |ms|
    ensures |s.xs| == |s.ys| <= j
    ensures forall t | 0 <= t < |s.xs| :: s.xs[t] == x
  {
    if j == 0 then Series([], [])
    else
      var s := LineSeries(ms, name, x, j - 1);
      var m := ms[j - 1];
      if m.name == name && m.value.Some? then Series(s.xs + [x], s.ys + [m.value.value]) else s
  }

  /**
   * The series of `name` over the first `n` lines. Its two lists have equal
   * length and its x positions never decrease and stay below line `n`'s.
   */
  function SeriesUpTo(samples: seq<seq<Sample>>, period: nat, name: string, n: nat): (s: Series)
    requires n <= |samples| && period > 0
    ensures |s.xs| == |s.ys|
    ensures forall t | 0 <= t < |s.xs| :: 0.0 <= s.xs[t] < XOf(n, period)
    ensures forall a, b | 0 <= a < b < |s.xs| :: s.xs[a] <= s.xs[b]
  {
    if n == 0 then Series([], [])
    else
      var s := SeriesUpTo(samples, period, name, n - 1);
      var x := XOf(n - 1, period);
      XOfIncreasing(n - 1, n, period);
      Concat(s, LineSeries(samples[n - 1], name, x, |samples[n - 1]|))
  }

  /** Some line among the first `n` holds a converted sample of `name`. */
  predicate Occurs(samples: seq<seq<Sample>>, name: string, n: nat)
    requires n <= |samples|
  {
    exists i, j | 0 <= i < n && 0 <= j < |samples[i]| :: samples[i][j].name == name && samples[i][j].value.Some?
  }

  /** A line's series of `name` is non-empty exactly when one of its matches is a converted `name` sample. */
  lemma {:induction false} LineSeriesNonEmpty(ms: seq<Sample>, name: string, x: real, j: nat)
    requires j <= |ms|
    ensures |LineSeries(ms, name, x, j).xs| > 0 <==> exists t | 0 <= t < j :: ms[t].name == name && ms[t].value.Some?
  {
    if j > 0 {
      LineSeriesNonEmpty(ms, name, x, j - 1);
    }
  }

  /** A metric has samples over the first `n` lines exactly when it occurs among them. */
  lemma {:induction false} SeriesNonEmpty(samples: seq<seq<Sample>>, period: nat, name: string, n: nat)
    requires n <= |samples| && period > 0
    ensures |SeriesUpTo(samples, period, name, n).xs| > 0 <==> Occurs(samples, name, n)
  {
    if n > 0 {
      SeriesNonEmpty(samples, period, name, n - 1);
      var ms := samples[n - 1];
      LineSeriesNonEmpty(ms, name, XOf(n - 1, period), |ms|);
      if Occurs(samples, name, n) && !Occurs(samples, name, n - 1) {
        var i, j :| 0 <= i < n && 0 <= j < |samples[i]| && samples[i][j].name == name && samples[i][j].value.Some?;
        assert i == n - 1;
      }
      if exists t | 0 <= t < |ms| :: ms[t].name == name && ms[t].value.Some? {
        var t :| 0 <= t < |ms| && ms[t].name == name && ms[t].value.Some?;
        assert samples[n - 1][t] == ms[t];
      }
    }
  }

  /** The metrics after the first `n` lines: one entry per occurring name, holding its series. */
  ghost predicate MetricsUpTo(metrics: map<string, Series>, samples: seq<seq<Sample>>, period: nat, n: nat)
    requires n <= |samples| && period > 0
  {
    forall name ::
      && (name in metrics <==> Occurs(samples, name, n))
      && (name in metrics ==> metrics[name] == SeriesUpTo(samples, period, name, n))
  }

  /** The series of `name` part-way through line `idx`, after its first `j` matches. */
  function PartialSeries(samples: seq<seq<Sample>>, period: nat, name: string, idx: nat, j: nat): Series
    requires idx < |samples| && j <= |samples[idx]| && period > 0
  {
    Concat(SeriesUpTo(samples, period, name, idx), LineSeries(samples[idx], name, XOf(idx, period), j))
  }

  ghost predicate MetricsPartWay(metrics: map<string, Series>, samples: seq<seq<Sample>>, period: nat, idx: nat, j: nat)
    requires idx < |samples| && j <= |samples[idx]| && period > 0
  {
    forall name ::
      && (name in metrics <==> |PartialSeries(samples, period, name, idx, j).xs| > 0)
      && (name in metrics ==> metrics[name] == PartialSeries(samples, period, name, idx, j))
  }

  lemma LineStarts(metrics: map<string, Series>, samples: seq<seq<Sample>>, period: nat, idx: nat)
    requires idx < |samples| && period > 0
    requires MetricsUpTo(metrics, samples, period, idx)
    ensures MetricsPartWay(metrics, samples, period, idx, 0)
  {
    forall name
      ensures && (name in metrics <==> |PartialSeries(samples, period, name, idx, 0).xs| > 0)
              && (name in metrics ==> metrics[name] == PartialSeries(samples, period, name, idx, 0))
    {
      SeriesNonEmpty(samples, period, name, idx);
      var s := SeriesUpTo(samples, period, name, idx);
      assert PartialSeries(samples, period, name, idx, 0) == Concat(s, Series([], []));
      assert s.xs + [] == s.xs && s.ys + [] == s.ys;
    }
  }

  lemma LineEnds(metrics: map<string, Series>, samples: seq<seq<Sample>>, period: nat, idx: nat)
    requires idx < |samples| && period > 0
    requires MetricsPartWay(metrics, samples, period, idx, |samples[idx]|)
    ensures MetricsUpTo(metrics, samples, period, idx + 1)
  {
    forall name
      ensures && (name in metrics <==> Occurs(samples, name, idx + 1))
              && (name in metrics ==> metrics[name] == SeriesUpTo(samples, period, name, idx + 1))
    {
      SeriesNonEmpty(samples, period, name, idx + 1);
      assert PartialSeries(samples, period, name, idx, |samples[idx]|) == SeriesUpTo(samples, period, name, idx + 1);
    }
  }

  /** One more match of line `idx`: a converted sample of `name` extends its partial series, anything else leaves it. */
  lemma PartialSeriesStep(samples: seq<seq<Sample>>, period: nat, name: string, idx: nat, j: nat)
    requires idx < |samples| && j < |samples[idx]| && period > 0
    ensures var m, before := samples[idx][j], PartialSeries(samples, period, name, idx, j);
            PartialSeries(samples, period, name, idx, j + 1)
            == if m.name == name && m.value.Some?
               then Series(before.xs + [XOf(idx, period)], before.ys + [m.value.value])
               else before
  {
    var m := samples[idx][j];
    var x := XOf(idx, period);
    var u := SeriesUpTo(samples, period, name, idx);
    var l := LineSeries(samples[idx], name, x, j);
    if m.name == name && m.value.Some? {
      assert u.xs + (l.xs + [x]) == (u.xs + l.xs) + [x];
      assert u.ys + (l.ys + [m.value.value]) == (u.ys + l.ys) + [m.value.value];
    }
  }

  /** Recording match `j` of line `idx`: a converted sample is appended to its metric's series. */
  lemma SampleStep(metrics: map<string, Series>, next: map<string, Series>, samples: seq<seq<Sample>>, period: nat, idx: nat, j: nat)
    requires idx < |samples| && j < |samples[idx]| && period > 0
    requires MetricsPartWay(metrics, samples, period, idx, j)
    requires var m := samples[idx][j];
             var s := if m.name in metrics then metrics[m.name] else Series([], []);
             next == if m.value.Some? then metrics[m.name := Series(s.xs + [XOf(idx, period)], s.ys + [m.value.value])] else metrics
    ensures MetricsPartWay(next, samples, period, idx, j + 1)
  {
    var m := samples[idx][j];
    forall name
      ensures && (name in next <==> |PartialSeries(samples, period, name, idx, j + 1).xs| > 0)
              && (name in next ==> next[name] == PartialSeries(samples, period, name, idx, j + 1))
    {
      var before := PartialSeries(samples, period, name, idx, j);
      PartialSeriesStep(samples, period, name, idx, j);
      if m.name == name && m.value.Some? && name !in metrics {
        assert before.xs == [] && before.ys == [];
      }
    }
  }

  /**
   * The accumulation loop of `parse_sparse`: every converted sample on line
   * `idx` is appended, at position `idx / period`, to its metric's series.
   */
  method Accumulate(samples: seq<seq<Sample>>, period: nat) returns (metrics: map<string, Series>)
    requires period > 0
    ensures MetricsUpTo(metrics, samples, period, |samples|)
  {
    metrics := map[];
    forall name ensures name !in metrics <==> !Occurs(samples, name, 0) { }
    for idx := 0 to |samples|
      invariant MetricsUpTo(metrics, samples, period, idx)
    {
      LineStarts(metrics, samples, period, idx);
      metrics := AccumulateLine(samples, period, idx, metrics);
      LineEnds(metrics, samples, period, idx);
    }
  }

  /** The inner loop of `parse_sparse`: append every converted sample of line `idx` at `idx / period`. */
  method AccumulateLine(samples: seq<seq<Sample>>, period: nat, idx: nat, metrics0: map<string, Series>)
    returns (metrics: map<string, Series>)
    requires idx < |samples| && period > 0
    requires MetricsPartWay(metrics0, samples, period, idx, 0)
    ensures MetricsPartWay(metrics, samples, period, idx, |samples[idx]|)
  {
    var x := XOf(idx, period);
    var ms := samples[idx];
    metrics := metrics0;
    for j := 0 to |ms|
      invariant MetricsPartWay(metrics, samples, period, idx, j)
    {
      var m := ms[j];
      var next := metrics;
      if m.value.Some? {
        var s := if m.name in metrics then metrics[m.name] else Series([], []);
        next := metrics[m.name := Series(s.xs + [x], s.ys + [m.value.value])];
      }
      SampleStep(metrics, next, samples, period, idx, j);
      metrics := next;
    }
  }

  /**
   * `parse_sparse`: the period of the lines, then their samples, where
   * `samples[i]` are the matches the metric pattern finds on `lines[i]`.
   */
  method ParseSparse(lines: seq<string>, samples: seq<seq<Sample>>) returns (r: Result<map<string, Series>, ParseError>)
    requires |samples| == |lines|
    ensures PeriodOf(lines).Err? ==> r == Err(PeriodOf(lines).error)
    ensures PeriodOf(lines).Ok? ==> r.Ok? && MetricsUpTo(r.value, samples, PeriodOf(lines).value, |lines|)
  {
    var p := Period(lines);
    if p.Err? {
      return Err(p.error);
    }
    var metrics := Accumulate(samples, p.value);
    r := Ok(metrics);
  }
}
