/**
 * The sliding-window multiset behind the prediction-accuracy evaluators
 * (`accuracy_sliding_window` in pred_acc.py and, per window width,
 * `accuracy_multiwindows` in plot_pred_accs.py).
 *
 * The observed trace is two parallel sequences `cyc` (timestamps, sorted)
 * and `va` (addresses). A window state is a pair of indices `left <= right`
 * into the observed trace and a counter mapping each address to its number
 * of occurrences in `va[left..right]`, with zero counts deleted. Advancing
 * to a query time `ts` first absorbs every event with `cyc <= ts + window`,
 * then drops every event with `cyc < ts`. A prediction `(ts, paddr)` is a
 * hit when `paddr` is then a key of the counter.
 */
module SlidingWindow {
  import opened Sorting

  /** A virtual address. Only equality of addresses matters here. */
  type Addr = int

  /** Python's `Counter` of addresses: address to occurrence count. */
  type Counter = map<Addr, int>

  /** `c` holds exactly the occurrence counts of `s`, and no zero or negative count. */
  predicate CountsOf(c: Counter, s: seq<Addr>) {
    && (forall a | a in c :: c[a] > 0 && c[a] == multiset(s)[a])
    && (forall a | a in s :: a in c)
  }

  /**
   * The state reached after advancing to query time `ts` with width `w`:
   * `right` is the first index whose timestamp exceeds `ts + w`, `left` the
   * first index whose timestamp is not below `ts`, and the counter holds
   * the addresses in between.
   */
  predicate WindowState(cyc: seq<real>, va: seq<Addr>, ts: real, w: real,
                        left: nat, right: nat, c: Counter)
  {
    && |cyc| == |va|
    && left <= right <= |cyc|
    && (forall i | 0 <= i < right :: cyc[i] <= ts + w)
    && (right < |cyc| ==> cyc[right] > ts + w)
    && (forall i | 0 <= i < left :: cyc[i] < ts)
    && (left < |cyc| ==> cyc[left] >= ts)
    && CountsOf(c, va[left..right])
  }

  /**
   * A state from which advancing to `ts` is correct: nothing absorbed so
   * far lies beyond `ts + w` and nothing dropped so far lies at or after
   * `ts`. The initial state and every state reached for an earlier query
   * time are of this kind.
   */
  predicate ReadyFor(cyc: seq<real>, va: seq<Addr>, ts: real, w: real,
                     left: nat, right: nat, c: Counter)
  {
    && |cyc| == |va|
    && left <= right <= |cyc|
    && (forall i | 0 <= i < right :: cyc[i] <= ts + w)
    && (forall i | 0 <= i < left :: cyc[i] < ts)
    && CountsOf(c, va[left..right])
  }

  /** The prediction `(ts, paddr)` is a hit: `paddr` is accessed at some time in `[ts, ts + w]`. */
  predicate Hit(cyc: seq<real>, va: seq<Addr>, ts: real, w: real, paddr: Addr) {
    exists i | 0 <= i < |cyc| && i < |va| :: va[i] == paddr && ts <= cyc[i] <= ts + w
  }

  /** The number of hits among the first `k` predictions. */
  function HitsUpTo(cyc: seq<real>, va: seq<Addr>, pCyc: seq<real>, pVa: seq<Addr>,
                    w: real, k: nat): (n: nat)
    requires k <= |pCyc| && k <= |pVa|
    ensures n <= k
  {
    if k == 0 then 0
    else HitsUpTo(cyc, va, pCyc, pVa, w, k - 1)
         + (if Hit(cyc, va, pCyc[k - 1], w, pVa[k - 1]) then 1 else 0)
  }

  /** The number of predictions that are hits for width `w`. */
  function HitCount(cyc: seq<real>, va: seq<Addr>, pCyc: seq<real>, pVa: seq<Addr>,
                    w: real): nat
    requires |pCyc| == |pVa|
  {
    HitsUpTo(cyc, va, pCyc, pVa, w, |pCyc|)
  }

  /** `hits / total * 100`, or 0 when there are no predictions (pred_acc.py:145). */
  function Accuracy(hits: nat, total: nat): real {
    if total > 0 then hits as real / total as real * 100.0 else 0.0
  }

  /**
   * The state of one window after the first `k` predictions: the initial
   * state before any, otherwise the state reached for the `k`-th query time.
   */
  predicate StateAfter(cyc: seq<real>, va: seq<Addr>, pCyc: seq<real>, w: real, k: nat,
                       left: nat, right: nat, c: Counter)
    requires k <= |pCyc|
  {
    if k == 0 then |cyc| == |va| && left == 0 && right == 0 && c == map[]
    else WindowState(cyc, va, pCyc[k - 1], w, left, right, c)
  }

  /** With sorted predictions, the state after `k` predictions is ready for the next one. */
  lemma StateAfterIsReady(cyc: seq<real>, va: seq<Addr>, pCyc: seq<real>, w: real, k: nat,
                          left: nat, right: nat, c: Counter)
    requires Sorted(pCyc) && k < |pCyc|
    requires StateAfter(cyc, va, pCyc, w, k, left, right, c)
    ensures ReadyFor(cyc, va, pCyc[k], w, left, right, c)
  {
    if k > 0 {
      assert pCyc[k - 1] <= pCyc[k];
    }
  }

  /**
   * `advance_to(ts)`: the expand loop (`cyc[right] <= ts + window`), then
   * the contract loop (`cyc[left] < ts`) with zero-count eviction. Both
   * indices only move forward.
   */
  method Advance(cyc: seq<real>, va: seq<Addr>, ts: real, window: real,
                 left0: nat, right0: nat, c0: Counter)
    returns (left: nat, right: nat, c: Counter)
    requires window >= 0.0
    requires ReadyFor(cyc, va, ts, window, left0, right0, c0)
    ensures left0 <= left && right0 <= right
    ensures WindowState(cyc, va, ts, window, left, right, c)
  {
    var c1;
    right, c1 := Expand(cyc, va, ts + window, left0, right0, c0);
    left, c := Contract(cyc, va, ts, left0, right, c1);
    assert right < |cyc| ==> cyc[right] > ts + window;
  }

  /** The expand loop: absorb every event with `cyc <= upper`. */
  method Expand(cyc: seq<real>, va: seq<Addr>, upper: real, left: nat, right0: nat, c0: Counter)
    returns (right: nat, c: Counter)
    requires |cyc| == |va| && left <= right0 <= |cyc|
    requires forall i | 0 <= i < right0 :: cyc[i] <= upper
    requires CountsOf(c0, va[left..right0])
    ensures right0 <= right <= |cyc|
    ensures forall i | 0 <= i < right :: cyc[i] <= upper
    ensures right < |cyc| ==> cyc[right] > upper
    ensures CountsOf(c, va[left..right])
  {
    right, c := right0, c0;
    while right < |cyc| && cyc[right] <= upper
      invariant right0 <= right <= |cyc|
      invariant forall i | 0 <= i < right :: cyc[i] <= upper
      invariant CountsOf(c, va[left..right])
    {
      var a := va[right];
      assert va[left..right + 1] == va[left..right] + [a];
      CountsAdd(c, va[left..right], a);
      c := c[a := if a in c then c[a] + 1 else 1];
      right := right + 1;
    }
  }

  /**
   * The contract loop: drop every event with `cyc < ts`, deleting a key
   * once its count reaches zero. It never passes `right`, because the
   * event at `right` (if any) lies after `ts + window >= ts`.
   */
  method Contract(cyc: seq<real>, va: seq<Addr>, ts: real, left0: nat, right: nat, c0: Counter)
    returns (left: nat, c: Counter)
    requires |cyc| == |va| && left0 <= right <= |cyc|
    requires right < |cyc| ==> cyc[right] >= ts
    requires forall i | 0 <= i < left0 :: cyc[i] < ts
    requires CountsOf(c0, va[left0..right])
    ensures left0 <= left <= right
    ensures forall i | 0 <= i < left :: cyc[i] < ts
    ensures left < |cyc| ==> cyc[left] >= ts
    ensures CountsOf(c, va[left..right])
  {
    left, c := left0, c0;
    while left < |cyc| && cyc[left] < ts
      invariant left0 <= left <= right
      invariant forall i | 0 <= i < left :: cyc[i] < ts
      invariant CountsOf(c, va[left..right])
    {
      var a := va[left];
      assert va[left + 1..right] == va[left..right][1..];
      CountsDrop(c, va[left..right]);
      c := c[a := c[a] - 1];
      if c[a] == 0 {
        c := c - {a};
      }
      left := left + 1;
    }
  }

  /** Counting one more occurrence of `a` at the end. */
  lemma CountsAdd(c: Counter, s: seq<Addr>, a: Addr)
    requires CountsOf(c, s)
    ensures CountsOf(c[a := if a in c then c[a] + 1 else 1], s + [a])
  {
    assert multiset(s + [a]) == multiset(s) + multiset{a};
  }

  /** Dropping the first occurrence from the front, and its key once its count reaches zero. */
  lemma CountsDrop(c: Counter, s: seq<Addr>)
    requires CountsOf(c, s) && |s| > 0
    ensures s[0] in s && s[0] in c
    ensures var c1 := c[s[0] := c[s[0]] - 1];
            CountsOf(if c1[s[0]] == 0 then c1 - {s[0]} else c1, s[1..])
  {
    var a, t := s[0], s[1..];
    assert s == [a] + t;
    assert multiset(s) == multiset{a} + multiset(t);
    var c1 := c[a := c[a] - 1];
    var c2 := if c1[a] == 0 then c1 - {a} else c1;
    forall b | b in t
      ensures b in c2
    {
      assert b in s;
      if b == a {
        assert multiset(t)[a] >= 1;
      }
    }
  }

  /**
   * The membership test is the hit test: after advancing to `ts`, `paddr`
   * is a key of the counter exactly when the observed trace accesses it at
   * some time in `[ts, ts + w]`.
   */
  lemma MembershipIsHit(cyc: seq<real>, va: seq<Addr>, ts: real, w: real,
                        left: nat, right: nat, c: Counter, paddr: Addr)
    requires Sorted(cyc)
    requires WindowState(cyc, va, ts, w, left, right, c)
    ensures paddr in c <==> Hit(cyc, va, ts, w, paddr)
  {
    var s := va[left..right];
    if paddr in c {
      assert paddr in multiset(s);
      var k :| 0 <= k < |s| && s[k] == paddr;
      var i := left + k;
      assert cyc[left] <= cyc[i];
      assert va[i] == paddr && ts <= cyc[i] <= ts + w;
    }
    if Hit(cyc, va, ts, w, paddr) {
      var i :| 0 <= i < |cyc| && i < |va| && va[i] == paddr && ts <= cyc[i] <= ts + w;
      assert left <= i < right;
      assert s[i - left] == paddr;
    }
  }

  /**
   * `accuracy_sliding_window`: one pass over the predictions with a single
   * window. Returns `(total, hits, misses, accuracy)`.
   */
  method AccuracySlidingWindow(cyc: seq<real>, va: seq<Addr>, pCyc: seq<real>, pVa: seq<Addr>,
                               window: real)
    returns (total: nat, hits: nat, misses: nat, accuracy: real)
    requires |cyc| == |va| && |pCyc| == |pVa|
    requires Sorted(cyc) && Sorted(pCyc)
    requires window >= 0.0
    ensures total == |pCyc|
    ensures hits == HitCount(cyc, va, pCyc, pVa, window)
    ensures hits + misses == total
    ensures accuracy == Accuracy(hits, total)
  {
    var left, right, counter := 0, 0, map[];
    hits, misses := 0, 0;
    total := |pCyc|;
    for k := 0 to |pCyc|
      invariant StateAfter(cyc, va, pCyc, window, k, left, right, counter)
      invariant hits == HitsUpTo(cyc, va, pCyc, pVa, window, k)
      invariant hits + misses == k
    {
      var ts, paddr := pCyc[k], pVa[k];
      StateAfterIsReady(cyc, va, pCyc, window, k, left, right, counter);
      left, right, counter := Advance(cyc, va, ts, window, left, right, counter);
      MembershipIsHit(cyc, va, ts, window, left, right, counter, paddr);
      if paddr in counter {
        hits := hits + 1;
      } else {
        misses := misses + 1;
      }
    }
    accuracy := if total > 0 then hits as real / total as real * 100.0 else 0.0;
  }

  /** The accuracy of `hits` out of `total` lies between 0 and 100. */
  lemma AccuracyBounds(hits: nat, total: nat)
    requires hits <= total
    ensures 0.0 <= Accuracy(hits, total) <= 100.0
  {
    if total > 0 {
      assert hits as real / total as real <= 1.0;
    }
  }

  /** With a single prediction the accuracy is either 0 or 100. */
  lemma SinglePredictionAccuracy(cyc: seq<real>, va: seq<Addr>, pCyc: seq<real>, pVa: seq<Addr>,
                                 w: real)
    requires |pCyc| == |pVa| == 1
    ensures var a := Accuracy(HitCount(cyc, va, pCyc, pVa, w), 1);
            a == 0.0 || a == 100.0
  {
    assert HitCount(cyc, va, pCyc, pVa, w) == HitsUpTo(cyc, va, pCyc, pVa, w, 1);
  }

  /** The report of a cold-prediction run (pred_acc.py:189-194). */
  datatype Report = Report(total: nat, hits: nat, misses: nat, accuracy: real)

  /**
   * The cold report prints the misses as hits, the hits as misses and
   * `100 - accuracy` as the accuracy: a cold prediction is right when the
   * page is NOT accessed in the window.
   */
  function ColdReport(total: nat, hits: nat, misses: nat, accuracy: real): (r: Report)
    ensures r.total == total && r.hits == misses && r.misses == hits
  {
    Report(total, misses, hits, 100.0 - accuracy)
  }

  /** Reported from a consistent run, the cold accuracy is the run's miss rate. */
  lemma ColdReportAccuracy(total: nat, hits: nat, misses: nat)
    requires hits + misses == total && total > 0
    ensures ColdReport(total, hits, misses, Accuracy(hits, total)).accuracy == Accuracy(misses, total)
  {
    MissRate(total, hits, misses);
  }

  lemma MissRate(total: nat, hits: nat, misses: nat)
    requires hits + misses == total && total > 0
    ensures 100.0 - Accuracy(hits, total) == Accuracy(misses, total)
  {
    var t, h, m := total as real, hits as real, misses as real;
    var q, x := h / t, m / t;
    assert q * t == h && x * t == m;
    assert h + m == t;
    assert (q + x) * t == q * t + x * t;
    assert q + x == 1.0;
    calc {
      100.0 - Accuracy(hits, total);
      100.0 - q * 100.0;
      x * 100.0;
    }
  }
}
