/**
 * plot_pred_accs.py: the accuracy of one prediction trace for many window
 * widths at once. Every width keeps its own pair of indices and its own
 * counter, advanced exactly as the single-window evaluator does, so the
 * accuracy of a width depends on that width alone.
 */
module MultiWindow {
  import opened Outcomes
  import opened Sorting
  import opened Permutations
  import opened SlidingWindow
  import opened Normalization

  datatype EvalError =
    | NoPredictions   // `h / total` with `total == 0` raises ZeroDivisionError
    | EmptyTrace      // `np.max` of an empty array raises ValueError

  /** The per-width state of `accuracy_multiwindows`: `left[w]`, `right[w]`, `counters[w]`, `hits[w]`, `misses[w]`. */
  datatype Lane = Lane(left: nat, right: nat, counter: Counter, hits: nat, misses: nat)

  /** `lane` is the state of width `w` after the first `k` predictions. */
  predicate LaneAfter(cyc: seq<real>, va: seq<Addr>, pCyc: seq<real>, pVa: seq<Addr>, w: real,
                      k: nat, lane: Lane)
    requires k <= |pCyc| && k <= |pVa|
  {
    && StateAfter(cyc, va, pCyc, w, k, lane.left, lane.right, lane.counter)
    && lane.hits == HitsUpTo(cyc, va, pCyc, pVa, w, k)
    && lane.hits + lane.misses == k
  }

  /** One width's share of handling prediction `k`: advance, test, count. */
  method StepLane(cyc: seq<real>, va: seq<Addr>, pCyc: seq<real>, pVa: seq<Addr>, w: real,
                  k: nat, lane: Lane)
    returns (next: Lane)
    requires |pCyc| == |pVa| && k < |pCyc|
    requires Sorted(cyc) && Sorted(pCyc) && w >= 0.0
    requires LaneAfter(cyc, va, pCyc, pVa, w, k, lane)
    ensures LaneAfter(cyc, va, pCyc, pVa, w, k + 1, next)
  {
    var ts, paddr := pCyc[k], pVa[k];
    StateAfterIsReady(cyc, va, pCyc, w, k, lane.left, lane.right, lane.counter);
    var l, r, c := Advance(cyc, va, ts, w, lane.left, lane.right, lane.counter);
    MembershipIsHit(cyc, va, ts, w, l, r, c, paddr);
    if paddr in c {
      next := Lane(l, r, c, lane.hits + 1, lane.misses);
    } else {
      next := Lane(l, r, c, lane.hits, lane.misses + 1);
    }
  }

  /**
   * `accuracy_multiwindows`: one pass over the predictions; for each
   * prediction every width is advanced and tested in turn. The percentages
   * are formed without a guard, so with no predictions and at least one
   * width the division fails; with no widths the result is empty.
   */
  method AccuracyMultiWindows(cyc: seq<real>, va: seq<Addr>, pCyc: seq<real>, pVa: seq<Addr>,
                              windows: seq<real>)
    returns (r: Result<seq<real>, EvalError>)
    requires |cyc| == |va| && |pCyc| == |pVa|
    requires Sorted(cyc) && Sorted(pCyc)
    requires forall k | 0 <= k < |windows| :: windows[k] >= 0.0
    ensures r.Err? <==> |pCyc| == 0 && |windows| > 0
    ensures r.Err? ==> r.error == NoPredictions
    ensures r.Ok? ==> |r.value| == |windows|
    ensures r.Ok? ==> forall k | 0 <= k < |windows| ::
                        r.value[k] == Accuracy(HitCount(cyc, va, pCyc, pVa, windows[k]), |pCyc|)
  {
    var W := |windows|;
    var lanes: seq<Lane> := seq(W, _ => Lane(0, 0, map[], 0, 0));
    var total := |pCyc|;
    for idx := 0 to |pCyc|
      invariant |lanes| == W
      invariant forall w | 0 <= w < W :: LaneAfter(cyc, va, pCyc, pVa, windows[w], idx, lanes[w])
    {
      for wi := 0 to W
        invariant |lanes| == W
        invariant forall w | 0 <= w < wi :: LaneAfter(cyc, va, pCyc, pVa, windows[w], idx + 1, lanes[w])
        invariant forall w | wi <= w < W :: LaneAfter(cyc, va, pCyc, pVa, windows[w], idx, lanes[w])
      {
        var next := StepLane(cyc, va, pCyc, pVa, windows[wi], idx, lanes[wi]);
        lanes := lanes[wi := next];
      }
    }
    var accs: seq<real> := [];
    for k := 0 to W
      invariant |accs| == k
      invariant total > 0 ==> forall j | 0 <= j < k ::
                  accs[j] == Accuracy(HitCount(cyc, va, pCyc, pVa, windows[j]), total)
      invariant total == 0 ==> k == 0
    {
      if total == 0 {
        return Err(NoPredictions);
      }
      assert LaneAfter(cyc, va, pCyc, pVa, windows[k], total, lanes[k]);
      accs := accs + [lanes[k].hits as real / total as real * 100.0];
    }
    r := Ok(accs);
  }

  /**
   * The accuracy for normalised width `w`, stated on the raw traces in
   * their original order: a width `w` in normalised time is `w` times the
   * range in cycles. With a zero range, 0 (every comparison with NaN fails).
   */
  function RawAccuracy(cycRaw: seq<nat>, vaRaw: seq<Addr>, pCycRaw: seq<nat>, pVaRaw: seq<Addr>,
                       w: real): real
    requires |cycRaw| > 0 && |pCycRaw| == |pVaRaw| > 0
  {
    var lo, hi := JointMin(cycRaw, pCycRaw), JointMax(cycRaw, pCycRaw);
    if lo == hi then 0.0
    else Accuracy(HitCount(AsReals(cycRaw), vaRaw, AsReals(pCycRaw), pVaRaw, Stretch(w, lo, hi)), |pCycRaw|)
  }

  /** A width in normalised time as a number of cycles: `w * (hi - lo)`. */
  function Stretch(w: real, lo: nat, hi: nat): real {
    w * (hi - lo) as real
  }

  /**
   * `evaluate_for_windows`: sort the widths, normalise both traces by
   * their joint range, sort each trace by timestamp (keeping every address
   * with its timestamp), then evaluate every width at once. The result is
   * stated against the raw traces in their original order: entry `k` is
   * the accuracy for the `k`-th smallest width, measured in raw cycles as
   * that width times the range (`RawAccuracy`). When every timestamp is the same the
   * normalised timestamps are NaN, no comparison holds, and every
   * accuracy is 0.
   */
  method EvaluateForWindows(cycRaw: seq<nat>, vaRaw: seq<Addr>, pCycRaw: seq<nat>, pVaRaw: seq<Addr>,
                            windows: seq<real>)
    returns (r: Result<seq<real>, EvalError>)
    requires |cycRaw| == |vaRaw| && |pCycRaw| == |pVaRaw|
    requires forall k | 0 <= k < |windows| :: windows[k] >= 0.0
    ensures r.Err? <==> |cycRaw| == 0 || |pCycRaw| == 0
    ensures r.Err? ==> r.error == EmptyTrace
    ensures r.Ok? ==> |r.value| == |windows|
    ensures r.Ok? ==> forall k | 0 <= k < |windows| ::
                        r.value[k] == RawAccuracy(cycRaw, vaRaw, pCycRaw, pVaRaw, SortReals(windows)[k])
  {
    if |cycRaw| == 0 || |pCycRaw| == 0 {
      return Err(EmptyTrace);
    }
    var ws := SortReals(windows);
    var lo, hi := JointMin(cycRaw, pCycRaw), JointMax(cycRaw, pCycRaw);
    if lo == hi {
      return Ok(seq(|ws|, _ => 0.0));
    }
    var cyc, pc := ScaleTraces(cycRaw, vaRaw, pCycRaw, pVaRaw, lo, hi);
    var sc, sv, spc, spv := SortTraces(cyc, vaRaw, pc, pVaRaw);
    NonNegativeAfterSort(windows);
    r := AccuracyMultiWindows(sc, sv, spc, spv, ws);
    assert |spc| == |pCycRaw|;
  }

  /**
   * `cyc = (cyc_raw - min_cyc) / (max_cyc - min_cyc)` and the same for the
   * predictions: every width `w` in the scaled traces is a width of
   * `w * (hi - lo)` cycles in the raw ones.
   */
  method ScaleTraces(cycRaw: seq<nat>, va: seq<Addr>, pCycRaw: seq<nat>, pVa: seq<Addr>, lo: nat, hi: nat)
    returns (cyc: seq<real>, pc: seq<real>)
    requires |cycRaw| == |va| && |pCycRaw| == |pVa| && lo < hi
    ensures |cyc| == |cycRaw| && |pc| == |pCycRaw|
    ensures forall w :: HitCount(cyc, va, pc, pVa, w)
                        == HitCount(AsReals(cycRaw), va, AsReals(pCycRaw), pVa, Stretch(w, lo, hi))
  {
    var span := (hi - lo) as real;
    cyc := Normalize(AsReals(cycRaw), lo as real, span);
    pc := Normalize(AsReals(pCycRaw), lo as real, span);
    forall w ensures HitCount(cyc, va, pc, pVa, w)
                     == HitCount(AsReals(cycRaw), va, AsReals(pCycRaw), pVa, Stretch(w, lo, hi)) {
      NormalizedHitCount(AsReals(cycRaw), va, AsReals(pCycRaw), pVa, w, lo as real, span);
      assert w * span == Stretch(w, lo, hi);
    }
  }

  lemma NonNegativeAfterSort(windows: seq<real>)
    requires forall k | 0 <= k < |windows| :: windows[k] >= 0.0
    ensures forall k | 0 <= k < |SortReals(windows)| :: SortReals(windows)[k] >= 0.0
  {
    var ws := SortReals(windows);
    forall k | 0 <= k < |ws| ensures ws[k] >= 0.0 {
      assert ws[k] in multiset(windows);
    }
  }

  /**
   * `idx = np.argsort(cyc); cyc = cyc[idx]; va = va_raw[idx]`, and the same
   * for the predictions: both traces sorted by timestamp, every address
   * staying with its timestamp, so that no width's hit count changes.
   */
  method SortTraces(cyc: seq<real>, va: seq<Addr>, pCyc: seq<real>, pVa: seq<Addr>)
    returns (sc: seq<real>, sv: seq<Addr>, spc: seq<real>, spv: seq<Addr>)
    requires |cyc| == |va| && |pCyc| == |pVa|
    ensures |sc| == |sv| == |cyc| && |spc| == |spv| == |pCyc|
    ensures Sorted(sc) && Sorted(spc)
    ensures forall w :: HitCount(sc, sv, spc, spv, w) == HitCount(cyc, va, pCyc, pVa, w)
  {
    var idx := ArgSort(cyc);
    sc, sv := Permute(cyc, idx), Permute(va, idx);
    var pidx := ArgSort(pCyc);
    spc, spv := Permute(pCyc, pidx), Permute(pVa, pidx);
    forall w {
      ReorderedHitCount(cyc, va, pCyc, pVa, w, idx, pidx);
    }
  }

  /** Both trace halves reordered by the same permutation, keeping every address with its timestamp. */
  lemma ReorderedTraceHit(cyc: seq<real>, va: seq<Addr>, idx: seq<nat>, ts: real, w: real, paddr: Addr)
    requires |cyc| == |va| && IsPermutationOf(idx, |cyc|)
    ensures forall k | 0 <= k < |idx| :: idx[k] < |cyc|
    ensures Hit(Permute(cyc, idx), Permute(va, idx), ts, w, paddr) <==> Hit(cyc, va, ts, w, paddr)
  {
    PermutationInRange(idx, |cyc|);
    var c, v := Permute(cyc, idx), Permute(va, idx);
    if Hit(c, v, ts, w, paddr) {
      var k :| 0 <= k < |c| && k < |v| && v[k] == paddr && ts <= c[k] <= ts + w;
      assert va[idx[k]] == paddr && ts <= cyc[idx[k]] <= ts + w;
    }
    if Hit(cyc, va, ts, w, paddr) {
      var i :| 0 <= i < |cyc| && i < |va| && va[i] == paddr && ts <= cyc[i] <= ts + w;
      PermutationOnto(idx, |cyc|, i);
      var k :| 0 <= k < |idx| && idx[k] == i;
      assert v[k] == paddr && ts <= c[k] <= ts + w;
    }
  }

  /** A prediction paired with its timestamp. */
  function Zip(pCyc: seq<real>, pVa: seq<Addr>): (z: seq<(real, Addr)>)
    requires |pCyc| == |pVa|
    ensures |z| == |pCyc|
    ensures forall k | 0 <= k < |z| :: z[k] == (pCyc[k], pVa[k])
  {
    seq(|pCyc|, k requires 0 <= k < |pCyc| => (pCyc[k], pVa[k]))
  }

  /** The hit count is the number of (timestamp, address) pairs that are hits. */
  lemma {:induction false} HitsUpToCount(cyc: seq<real>, va: seq<Addr>, pCyc: seq<real>, pVa: seq<Addr>,
                                         w: real, k: nat)
    requires |pCyc| == |pVa| && k <= |pCyc|
    ensures HitsUpTo(cyc, va, pCyc, pVa, w, k)
            == CountWhere(Zip(pCyc, pVa)[..k], (q: (real, Addr)) => Hit(cyc, va, q.0, w, q.1))
  {
    if k > 0 {
      HitsUpToCount(cyc, va, pCyc, pVa, w, k - 1);
      assert Zip(pCyc, pVa)[..k][..k - 1] == Zip(pCyc, pVa)[..k - 1];
    }
  }

  /**
   * The hit count does not depend on the order of either trace: reordering
   * both halves of the observed trace by one permutation and both halves of
   * the prediction trace by another keeps it.
   */
  lemma ReorderedHitCount(cyc: seq<real>, va: seq<Addr>, pCyc: seq<real>, pVa: seq<Addr>, w: real,
                          idx: seq<nat>, pidx: seq<nat>)
    requires |cyc| == |va| && |pCyc| == |pVa|
    requires IsPermutationOf(idx, |cyc|) && IsPermutationOf(pidx, |pCyc|)
    ensures forall k | 0 <= k < |idx| :: idx[k] < |cyc|
    ensures forall k | 0 <= k < |pidx| :: pidx[k] < |pCyc|
    ensures HitCount(Permute(cyc, idx), Permute(va, idx), Permute(pCyc, pidx), Permute(pVa, pidx), w)
            == HitCount(cyc, va, pCyc, pVa, w)
  {
    PermutationInRange(idx, |cyc|);
    PermutationInRange(pidx, |pCyc|);
    var c, v, pc, pv := Permute(cyc, idx), Permute(va, idx), Permute(pCyc, pidx), Permute(pVa, pidx);
    var p := (q: (real, Addr)) => Hit(c, v, q.0, w, q.1);
    var p' := (q: (real, Addr)) => Hit(cyc, va, q.0, w, q.1);
    HitsUpToCount(c, v, pc, pv, w, |pc|);
    HitsUpToCount(cyc, va, pCyc, pVa, w, |pCyc|);
    assert Zip(pc, pv)[..|pc|] == Zip(pc, pv);
    assert Zip(pCyc, pVa)[..|pCyc|] == Zip(pCyc, pVa);
    var z := Zip(pCyc, pVa);
    assert Zip(pc, pv) == Permute(z, pidx);
    PermutePreservesMultiset(z, pidx);
    CountWhereMultiset(Permute(z, pidx), z, p);
    SamePredicateCount(z, p, p', c, v, cyc, va, w, idx);
  }

  lemma SamePredicateCount(z: seq<(real, Addr)>, p: ((real, Addr)) -> bool, p': ((real, Addr)) -> bool,
                           c: seq<real>, v: seq<Addr>, cyc: seq<real>, va: seq<Addr>, w: real,
                           idx: seq<nat>)
    requires |cyc| == |va| && IsPermutationOf(idx, |cyc|)
    requires forall k | 0 <= k < |idx| :: idx[k] < |cyc|
    requires c == Permute(cyc, idx) && v == Permute(va, idx)
    requires forall q :: p(q) == Hit(c, v, q.0, w, q.1)
    requires forall q :: p'(q) == Hit(cyc, va, q.0, w, q.1)
    ensures CountWhere(z, p) == CountWhere(z, p')
  {
    forall q: (real, Addr) ensures p(q) == p'(q) {
      ReorderedTraceHit(cyc, va, idx, q.0, w, q.1);
    }
    SameCount(z, p, p');
  }

  lemma {:induction false} SameCount<T>(z: seq<T>, p: T -> bool, p': T -> bool)
    requires forall q :: p(q) == p'(q)
    ensures CountWhere(z, p) == CountWhere(z, p')
  {
    if |z| > 0 {
      SameCount(z[..|z| - 1], p, p');
    }
  }
}
