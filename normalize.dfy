/**
 * Mapping raw cycle counts linearly onto `[0, 1]`, as both accuracy
 * scripts do before evaluating windows: `(t - lo) / (hi - lo)`, where `lo`
 * and `hi` are the smallest and largest timestamps of the observed and the
 * predicted trace together.
 */
module Normalization {
  import opened Outcomes
  import opened Sorting
  import opened SlidingWindow

  /** The smallest element of `xs` (`np.min`). */
  function Min(xs: seq<nat>): (m: nat)
    requires |xs| > 0
    ensures m in xs
    ensures forall x | x in xs :: m <= x
  {
    if |xs| == 1 then xs[0]
    else
      var m := Min(xs[1..]);
      assert forall x | x in xs :: x == xs[0] || x in xs[1..];
      if xs[0] <= m then xs[0] else m
  }

  /** The largest element of `xs` (`np.max`). */
  function Max(xs: seq<nat>): (m: nat)
    requires |xs| > 0
    ensures m in xs
    ensures forall x | x in xs :: x <= m
  {
    if |xs| == 1 then xs[0]
    else
      var m := Max(xs[1..]);
      assert forall x | x in xs :: x == xs[0] || x in xs[1..];
      if xs[0] >= m then xs[0] else m
  }

  function NatMin(a: nat, b: nat): nat { if a <= b then a else b }
  function NatMax(a: nat, b: nat): nat { if a >= b then a else b }

  /** Raw cycle counts as exact reals. */
  function AsReals(xs: seq<nat>): (r: seq<real>)
    ensures |r| == |xs|
    ensures forall i | 0 <= i < |xs| :: r[i] == xs[i] as real
  {
    seq(|xs|, i requires 0 <= i < |xs| => xs[i] as real)
  }

  /** `(t - lo) / span`. */
  function Scale(t: real, lo: real, span: real): real
    requires span > 0.0
  {
    (t - lo) / span
  }

  /** Every timestamp of `xs` mapped through `Scale`. */
  function Normalize(xs: seq<real>, lo: real, span: real): (r: seq<real>)
    requires span > 0.0
    ensures |r| == |xs|
    ensures forall i | 0 <= i < |xs| :: r[i] == Scale(xs[i], lo, span)
  {
    seq(|xs|, i requires 0 <= i < |xs| => Scale(xs[i], lo, span))
  }

  /** Scaling is strictly monotone, so it keeps the order of timestamps in both directions. */
  lemma ScaleMonotone(a: real, b: real, lo: real, span: real)
    requires span > 0.0
    ensures a <= b <==> Scale(a, lo, span) <= Scale(b, lo, span)
  {
    if a <= b {
      assert (b - lo) - (a - lo) >= 0.0;
      assert Scale(b, lo, span) - Scale(a, lo, span) == ((b - lo) - (a - lo)) / span;
    }
    if Scale(a, lo, span) <= Scale(b, lo, span) {
      assert (Scale(b, lo, span) - Scale(a, lo, span)) * span == (b - lo) - (a - lo);
    }
  }

  /**
   * A window of width `w` in normalised time is a window of width
   * `w * span` in raw time.
   */
  lemma ScaledWindow(t: real, c: real, w: real, lo: real, span: real)
    requires span > 0.0
    ensures (Scale(t, lo, span) <= Scale(c, lo, span) <= Scale(t, lo, span) + w)
            <==> (t <= c <= t + w * span)
  {
    ScaleMonotone(t, c, lo, span);
    ScaleMonotone(c, t + w * span, lo, span);
    assert Scale(t + w * span, lo, span) == Scale(t, lo, span) + w by {
      assert (t + w * span - lo) / span == (t - lo) / span + (w * span) / span;
    }
  }

  /** Normalising both traces keeps every prediction's hit status, with the width scaled. */
  lemma NormalizedHit(cyc: seq<real>, va: seq<Addr>, ts: real, w: real, paddr: Addr,
                      lo: real, span: real)
    requires span > 0.0
    ensures Hit(Normalize(cyc, lo, span), va, Scale(ts, lo, span), w, paddr)
            <==> Hit(cyc, va, ts, w * span, paddr)
  {
    var n := Normalize(cyc, lo, span);
    if Hit(n, va, Scale(ts, lo, span), w, paddr) {
      var i :| 0 <= i < |n| && i < |va| && va[i] == paddr
               && Scale(ts, lo, span) <= n[i] <= Scale(ts, lo, span) + w;
      ScaledWindow(ts, cyc[i], w, lo, span);
    }
    if Hit(cyc, va, ts, w * span, paddr) {
      var i :| 0 <= i < |cyc| && i < |va| && va[i] == paddr && ts <= cyc[i] <= ts + w * span;
      ScaledWindow(ts, cyc[i], w, lo, span);
      assert va[i] == paddr && Scale(ts, lo, span) <= n[i] <= Scale(ts, lo, span) + w;
    }
  }

  /** Normalising both traces keeps the hit count, with the width scaled by `span`. */
  lemma {:induction false} NormalizedHitsUpTo(cyc: seq<real>, va: seq<Addr>,
                                              pCyc: seq<real>, pVa: seq<Addr>,
                                              w: real, lo: real, span: real, k: nat)
    requires span > 0.0 && k <= |pCyc| && k <= |pVa|
    ensures HitsUpTo(Normalize(cyc, lo, span), va, Normalize(pCyc, lo, span), pVa, w, k)
            == HitsUpTo(cyc, va, pCyc, pVa, w * span, k)
  {
    if k > 0 {
      NormalizedHitsUpTo(cyc, va, pCyc, pVa, w, lo, span, k - 1);
      NormalizedHit(cyc, va, pCyc[k - 1], w, pVa[k - 1], lo, span);
    }
  }

  lemma NormalizedHitCount(cyc: seq<real>, va: seq<Addr>, pCyc: seq<real>, pVa: seq<Addr>,
                           w: real, lo: real, span: real)
    requires span > 0.0 && |pCyc| == |pVa|
    ensures HitCount(Normalize(cyc, lo, span), va, Normalize(pCyc, lo, span), pVa, w)
            == HitCount(cyc, va, pCyc, pVa, w * span)
  {
    NormalizedHitsUpTo(cyc, va, pCyc, pVa, w, lo, span, |pCyc|);
  }

  /** The joint smallest and largest timestamp of two non-empty traces. */
  function JointMin(cyc: seq<nat>, pCyc: seq<nat>): nat
    requires |cyc| > 0 && |pCyc| > 0
  {
    NatMin(Min(cyc), Min(pCyc))
  }

  function JointMax(cyc: seq<nat>, pCyc: seq<nat>): nat
    requires |cyc| > 0 && |pCyc| > 0
  {
    NatMax(Max(cyc), Max(pCyc))
  }

  /** The joint range's width in cycles. */
  function JointSpan(cyc: seq<nat>, pCyc: seq<nat>): real
    requires |cyc| > 0 && |pCyc| > 0
  {
    (JointMax(cyc, pCyc) - JointMin(cyc, pCyc)) as real
  }

  datatype NormError = DegenerateRange

  /**
   * The normalisation in pred_acc.py's `main`: both traces mapped onto
   * `[0, 1]` by the joint range, or an error (exit status 1) when every
   * timestamp is the same.
   */
  function NormalizeTraces(cyc: seq<nat>, pCyc: seq<nat>): (r: Result<(seq<real>, seq<real>), NormError>)
    requires |cyc| > 0 && |pCyc| > 0
    ensures r.Err? <==> JointMin(cyc, pCyc) == JointMax(cyc, pCyc)
    ensures r.Ok? ==> |r.value.0| == |cyc| && |r.value.1| == |pCyc|
    ensures r.Ok? ==> forall i | 0 <= i < |cyc| :: 0.0 <= r.value.0[i] <= 1.0
    ensures r.Ok? ==> forall i | 0 <= i < |pCyc| :: 0.0 <= r.value.1[i] <= 1.0
    ensures r.Ok? ==> forall i, j | 0 <= i < |cyc| && 0 <= j < |pCyc| ::
                        cyc[i] <= pCyc[j] <==> r.value.0[i] <= r.value.1[j]
  {
    var lo, hi := JointMin(cyc, pCyc), JointMax(cyc, pCyc);
    if lo == hi then Err(DegenerateRange)
    else
      var span := JointSpan(cyc, pCyc);
      var n, pn := Normalize(AsReals(cyc), lo as real, span), Normalize(AsReals(pCyc), lo as real, span);
      assert forall i | 0 <= i < |cyc| :: 0.0 <= n[i] <= 1.0 by {
        forall i | 0 <= i < |cyc| ensures 0.0 <= n[i] <= 1.0 {
          assert cyc[i] in cyc;
          InUnitInterval(cyc[i] as real, lo as real, hi as real);
        }
      }
      assert forall i | 0 <= i < |pCyc| :: 0.0 <= pn[i] <= 1.0 by {
        forall i | 0 <= i < |pCyc| ensures 0.0 <= pn[i] <= 1.0 {
          assert pCyc[i] in pCyc;
          InUnitInterval(pCyc[i] as real, lo as real, hi as real);
        }
      }
      assert forall i, j | 0 <= i < |cyc| && 0 <= j < |pCyc| :: cyc[i] <= pCyc[j] <==> n[i] <= pn[j] by {
        forall i, j | 0 <= i < |cyc| && 0 <= j < |pCyc|
          ensures cyc[i] <= pCyc[j] <==> n[i] <= pn[j]
        {
          ScaleMonotone(cyc[i] as real, pCyc[j] as real, lo as real, span);
        }
      }
      Ok((n, pn))
  }

  /**
   * The cold run of pred_acc.py's `main` as written: the cold trace keeps
   * its raw cycles while the observed trace is normalised onto `[0, 1]`.
   * A cold prediction made after cycle 1 then never finds an access at or
   * after it, whatever the window, so no cold prediction hits and the cold
   * report claims every one of them right.
   */
  lemma ColdRunAsWritten(cyc: seq<nat>, va: seq<Addr>, pCyc: seq<nat>, cCyc: seq<nat>, cVa: seq<Addr>, w: real)
    requires |cyc| > 0 && |pCyc| > 0 && NormalizeTraces(cyc, pCyc).Ok?
    requires |cCyc| == |cVa| > 0
    requires forall j | 0 <= j < |cCyc| :: cCyc[j] > 1
    ensures HitCount(NormalizeTraces(cyc, pCyc).value.0, va, AsReals(cCyc), cVa, w) == 0
    ensures ColdReport(|cCyc|, 0, |cCyc|, Accuracy(0, |cCyc|)).accuracy == 100.0
  {
    var n := NormalizeTraces(cyc, pCyc).value.0;
    var c := AsReals(cCyc);
    NoHitsAfter(n, va, c, cVa, w, |cCyc|);
    assert Accuracy(0, |cCyc|) == 0.0;
  }

  /** Predictions later than every access hit nothing. */
  lemma {:induction false} NoHitsAfter(n: seq<real>, va: seq<Addr>, c: seq<real>, cVa: seq<Addr>, w: real, k: nat)
    requires k <= |c| && k <= |cVa|
    requires forall i | 0 <= i < |n| :: n[i] <= 1.0
    requires forall j | 0 <= j < |c| :: c[j] > 1.0
    ensures HitsUpTo(n, va, c, cVa, w, k) == 0
  {
    if k > 0 {
      NoHitsAfter(n, va, c, cVa, w, k - 1);
      assert !Hit(n, va, c[k - 1], w, cVa[k - 1]);
    }
  }

  /**
   * The cold trace mapped by the joint range of the observed and predicted
   * traces, as the predicted trace is: the normalisation the cold run needs.
   */
  function NormalizeCold(cyc: seq<nat>, pCyc: seq<nat>, cCyc: seq<nat>): (r: Result<seq<real>, NormError>)
    requires |cyc| > 0 && |pCyc| > 0
    ensures r.Err? <==> NormalizeTraces(cyc, pCyc).Err?
    ensures r.Ok? ==> |r.value| == |cCyc|
  {
    var lo, hi := JointMin(cyc, pCyc), JointMax(cyc, pCyc);
    if lo == hi then Err(DegenerateRange)
    else Ok(Normalize(AsReals(cCyc), lo as real, JointSpan(cyc, pCyc)))
  }

  /**
   * With the cold trace normalised like the others, the cold run counts
   * exactly the hits it would count on raw cycles with the window stretched
   * to raw cycles.
   */
  lemma ColdRunIntended(cyc: seq<nat>, va: seq<Addr>, pCyc: seq<nat>, cCyc: seq<nat>, cVa: seq<Addr>, w: real)
    requires |cyc| > 0 && |pCyc| > 0 && NormalizeTraces(cyc, pCyc).Ok?
    requires |cCyc| == |cVa|
    ensures HitCount(NormalizeTraces(cyc, pCyc).value.0, va, NormalizeCold(cyc, pCyc, cCyc).value, cVa, w)
            == HitCount(AsReals(cyc), va, AsReals(cCyc), cVa, w * JointSpan(cyc, pCyc))
  {
    ObservedNormalized(cyc, pCyc);
    ColdNormalized(cyc, pCyc, cCyc);
    JointHitCount(cyc, va, pCyc, cCyc, cVa, w);
  }

  lemma ObservedNormalized(cyc: seq<nat>, pCyc: seq<nat>)
    requires |cyc| > 0 && |pCyc| > 0 && NormalizeTraces(cyc, pCyc).Ok?
    ensures NormalizeTraces(cyc, pCyc).value.0 == Normalize(AsReals(cyc), JointMin(cyc, pCyc) as real, JointSpan(cyc, pCyc))
  {
  }

  lemma ColdNormalized(cyc: seq<nat>, pCyc: seq<nat>, cCyc: seq<nat>)
    requires |cyc| > 0 && |pCyc| > 0 && NormalizeTraces(cyc, pCyc).Ok?
    ensures NormalizeCold(cyc, pCyc, cCyc).value == Normalize(AsReals(cCyc), JointMin(cyc, pCyc) as real, JointSpan(cyc, pCyc))
  {
  }

  /** Both traces mapped by the joint range count the raw-cycle hits with the stretched window. */
  lemma JointHitCount(cyc: seq<nat>, va: seq<Addr>, pCyc: seq<nat>, cCyc: seq<nat>, cVa: seq<Addr>, w: real)
    requires |cyc| > 0 && |pCyc| > 0 && JointMin(cyc, pCyc) < JointMax(cyc, pCyc) && |cCyc| == |cVa|
    ensures var lo, span := JointMin(cyc, pCyc) as real, JointSpan(cyc, pCyc);
            HitCount(Normalize(AsReals(cyc), lo, span), va, Normalize(AsReals(cCyc), lo, span), cVa, w)
            == HitCount(AsReals(cyc), va, AsReals(cCyc), cVa, w * JointSpan(cyc, pCyc))
  {
    var lo, span := JointMin(cyc, pCyc) as real, JointSpan(cyc, pCyc);
    NormalizedHitCount(AsReals(cyc), va, AsReals(cCyc), cVa, w, lo, span);
    SameWidth(AsReals(cyc), va, AsReals(cCyc), cVa, w * span, w * JointSpan(cyc, pCyc));
  }

  lemma SameWidth(cyc: seq<real>, va: seq<Addr>, pCyc: seq<real>, pVa: seq<Addr>, w1: real, w2: real)
    requires |pCyc| == |pVa| && w1 == w2
    ensures HitCount(cyc, va, pCyc, pVa, w1) == HitCount(cyc, va, pCyc, pVa, w2)
  {
  }

  /** A timestamp inside `[lo, hi]` is mapped into `[0, 1]`. */
  lemma InUnitInterval(t: real, lo: real, hi: real)
    requires lo <= t <= hi && lo < hi
    ensures 0.0 <= Scale(t, lo, hi - lo) <= 1.0
  {
    ScaleMonotone(t, hi, lo, hi - lo);
    assert Scale(hi, lo, hi - lo) == 1.0;
  }
}
