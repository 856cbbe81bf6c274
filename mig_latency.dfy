/**
 * Migration latencies from a runtime log (plot_pebs_mig.py): every
 * "made hot" time of an address is paired with a later "finished
 * migration" time of the same address, the latencies are binned by the
 * made time and averaged per bin, and the last timestamp of the log ends
 * the binned range.
 *
 * The log is given already parsed: per address, the list of made times
 * (in the order the addresses first appear) and the list of finished
 * times.
 */
module MigrationLatency {
  import opened Outcomes
  import opened Sorting
  import opened Numerics

  type Addr = int

  /** One matched pair: the made-hot time and the time until the migration finished. */
  datatype Match = Match(made: real, delta: real)

  function MadeTime(m: Match): real { m.made }

  // ---------------------------------------------------------------------
  // Matching made times to finished times
  // ---------------------------------------------------------------------

  /** The first index at or after `j` whose finished time is strictly later than `t`, or `|fin|`. */
  function NextLater(fin: seq<real>, j: nat, t: real): (r: nat)
    requires j <= |fin|
    ensures j <= r <= |fin|
    ensures forall f | j <= f < r :: fin[f] <= t
    ensures r < |fin| ==> t < fin[r]
    decreases |fin| - j
  {
    if j == |fin| || t < fin[j] then j else NextLater(fin, j + 1, t)
  }

  /**
   * The finished indices the matcher consumes for the made times `made`
   * with its cursor starting at `j`: one for each made time in turn, until
   * no later finished time is left.
   */
  function Consumed(made: seq<real>, fin: seq<real>, j: nat): (r: seq<nat>)
    requires j <= |fin|
    ensures |r| <= |made|
    ensures forall k | 0 <= k < |r| :: j <= r[k] < |fin|
    decreases |made|
  {
    if |made| == 0 then []
    else
      var f := NextLater(fin, j, made[0]);
      if f == |fin| then [] else [f] + Consumed(made[1..], fin, f + 1)
  }

  /** The k-th made time paired with the finished time at index `c[k]`. */
  function PairUp(made: seq<real>, fin: seq<real>, c: seq<nat>): (ms: seq<Match>)
    requires |c| <= |made| && forall k | 0 <= k < |c| :: c[k] < |fin|
    ensures |ms| == |c|
  {
    seq(|c|, k requires 0 <= k < |c| => Match(made[k], fin[c[k]] - made[k]))
  }

  lemma PairUpSnoc(made: seq<real>, fin: seq<real>, c: seq<nat>, f: nat)
    requires |c| < |made| && f < |fin| && forall k | 0 <= k < |c| :: c[k] < |fin|
    ensures PairUp(made, fin, c + [f]) == PairUp(made, fin, c) + [Match(made[|c|], fin[f] - made[|c|])]
  {
  }

  /** The matches of one address: the k-th made time with the k-th consumed finished time. */
  function AddressMatches(made: seq<real>, fin: seq<real>): (ms: seq<Match>)
  {
    PairUp(made, fin, Consumed(made, fin, 0))
  }

  /** Where the cursor starts for the k-th made time: `j`, or just after the previous consumed index. */
  function CursorBefore(c: seq<nat>, j: nat, k: nat): nat
    requires k <= |c|
  {
    if k == 0 then j else c[k - 1] + 1
  }

  /**
   * The consumed finished indices strictly increase, so each finished time
   * is used at most once, and there are at most as many as finished times
   * left after the cursor.
   */
  lemma {:induction false} ConsumedIncreasing(made: seq<real>, fin: seq<real>, j: nat)
    requires j <= |fin|
    ensures var c := Consumed(made, fin, j);
            && (forall a, b | 0 <= a < b < |c| :: c[a] < c[b])
            && |c| <= |fin| - j
    decreases |made|
  {
    if |made| > 0 {
      var f := NextLater(fin, j, made[0]);
      if f < |fin| {
        var rest := Consumed(made[1..], fin, f + 1);
        ConsumedIncreasing(made[1..], fin, f + 1);
        assert Consumed(made, fin, j) == [f] + rest;
        ConsIncreasing(f, rest);
      }
    }
  }

  /** Putting an index below every element in front of an increasing sequence keeps it increasing. */
  lemma ConsIncreasing(f: nat, rest: seq<nat>)
    requires forall a, b | 0 <= a < b < |rest| :: rest[a] < rest[b]
    requires forall k | 0 <= k < |rest| :: f < rest[k]
    ensures var c := [f] + rest; forall a, b | 0 <= a < b < |c| :: c[a] < c[b]
  {
    var c := [f] + rest;
    forall a, b | 0 <= a < b < |c| ensures c[a] < c[b] {
      assert c[b] == rest[b - 1];
      if a > 0 {
        assert c[a] == rest[a - 1];
      }
    }
  }

  /** Each matched made time is paired with a strictly later finished time. */
  lemma {:induction false} ConsumedLater(made: seq<real>, fin: seq<real>, j: nat)
    requires j <= |fin|
    ensures var c := Consumed(made, fin, j);
            forall k | 0 <= k < |c| :: made[k] < fin[c[k]]
    decreases |made|
  {
    if |made| > 0 {
      var f := NextLater(fin, j, made[0]);
      if f < |fin| {
        var c := Consumed(made, fin, j);
        var rest := Consumed(made[1..], fin, f + 1);
        ConsumedLater(made[1..], fin, f + 1);
        assert c == [f] + rest;
        forall k | 0 <= k < |c| ensures made[k] < fin[c[k]] {
          if k > 0 {
            assert c[k] == rest[k - 1] && made[k] == made[1..][k - 1];
          }
        }
      }
    }
  }

  /**
   * The finished time paired with the k-th made time is the first one from
   * the cursor on that is strictly later: every finished time the cursor
   * skips is not later than that made time.
   */
  lemma {:induction false} ConsumedFirst(made: seq<real>, fin: seq<real>, j: nat, k: nat, g: nat)
    requires j <= |fin|
    requires var c := Consumed(made, fin, j); k < |c| && CursorBefore(c, j, k) <= g < c[k]
    ensures fin[g] <= made[k]
    decreases |made|
  {
    var f := NextLater(fin, j, made[0]);
    var c := Consumed(made, fin, j);
    var rest := Consumed(made[1..], fin, f + 1);
    assert c == [f] + rest;
    if k > 0 {
      assert CursorBefore(c, j, k) == CursorBefore(rest, f + 1, k - 1);
      ConsumedFirst(made[1..], fin, f + 1, k - 1, g);
    }
  }

  /**
   * Once a made time finds no later finished time from the cursor on, the
   * matcher stops: the made times from there on stay unmatched.
   */
  lemma {:induction false} ConsumedExhausted(made: seq<real>, fin: seq<real>, j: nat)
    requires j <= |fin|
    ensures var c := Consumed(made, fin, j);
            |c| < |made| ==> forall g | CursorBefore(c, j, |c|) <= g < |fin| :: fin[g] <= made[|c|]
    decreases |made|
  {
    if |made| > 0 {
      var f := NextLater(fin, j, made[0]);
      var c := Consumed(made, fin, j);
      if f < |fin| {
        var rest := Consumed(made[1..], fin, f + 1);
        ConsumedExhausted(made[1..], fin, f + 1);
        assert c == [f] + rest;
        if |c| < |made| {
          assert made[|c|] == made[1..][|rest|];
          assert CursorBefore(c, j, |c|) == CursorBefore(rest, f + 1, |rest|);
        }
      } else {
        assert c == [] && CursorBefore(c, j, 0) == j;
      }
    }
  }

  /** Every match of one address pairs its made time with a strictly later finished time of that address. */
  lemma AddressMatchesPositive(made: seq<real>, fin: seq<real>)
    ensures var ms := AddressMatches(made, fin);
            && |ms| <= |made| && |ms| <= |fin|
            && forall k | 0 <= k < |ms| :: ms[k].made == made[k] && ms[k].delta > 0.0
                                           && ms[k].made + ms[k].delta in fin
  {
    ConsumedLater(made, fin, 0);
    ConsumedIncreasing(made, fin, 0);
    var c := Consumed(made, fin, 0);
    var ms := AddressMatches(made, fin);
    forall k | 0 <= k < |ms| ensures ms[k].made + ms[k].delta in fin {
      assert ms[k].made + ms[k].delta == fin[c[k]];
    }
  }

  /** An address without finished times, or without made times, has no matches. */
  lemma NoMatchesWithoutEntries(made: seq<real>, fin: seq<real>)
    requires |made| == 0 || |fin| == 0
    ensures AddressMatches(made, fin) == []
  {
    ConsumedIncreasing(made, fin, 0);
  }

  /**
   * One step of the matcher's cursor: if the consumed indices of `made`
   * are `all[..k]` followed by those of the made times from `k` on with the
   * cursor at `j`, then either nothing is consumed from `k` on, or the k-th
   * consumed index is the first later finished time from `j` and the split
   * moves one made time on.
   */
  lemma ConsumedStep(made: seq<real>, fin: seq<real>, all: seq<nat>, k: nat, j: nat)
    requires k < |made| && j <= |fin| && k <= |all|
    requires all == all[..k] + Consumed(made[k..], fin, j)
    ensures var f := NextLater(fin, j, made[k]);
            if f == |fin| then all == all[..k]
            else k < |all| && all[k] == f && all[..k + 1] == all[..k] + [f]
                 && all == all[..k + 1] + Consumed(made[k + 1..], fin, f + 1)
  {
    var tail, front := made[k..], all[..k];
    assert tail[0] == made[k];
    assert tail[1..] == made[k + 1..];
    var f := NextLater(fin, j, made[k]);
    if f < |fin| {
      var rest := Consumed(made[k + 1..], fin, f + 1);
      assert Consumed(tail, fin, j) == [f] + rest;
      assert all == (front + [f]) + rest;
      assert all[..k + 1] == front + [f];
    } else {
      assert Consumed(tail, fin, j) == [];
      assert all == front + [];
    }
  }

  /** The inner `while` of the matcher: advance `j` past finished times not later than `t`. */
  method SkipNotLater(fin: seq<real>, j0: nat, t: real) returns (j: nat)
    requires j0 <= |fin|
    ensures j == NextLater(fin, j0, t)
  {
    j := j0;
    while j < |fin| && fin[j] <= t
      invariant j0 <= j <= |fin|
      invariant NextLater(fin, j, t) == NextLater(fin, j0, t)
    {
      j := j + 1;
    }
  }

  /**
   * The loop of `match_made_to_finished` for one address: the cursor `j`
   * skips finished times not later than the made time, the first later one
   * is consumed, and the loop stops once the finished list is exhausted.
   */
  method MatchAddress(made: seq<real>, fin: seq<real>) returns (ms: seq<Match>)
    ensures ms == AddressMatches(made, fin)
  {
    ms := [];
    if |fin| == 0 {
      NoMatchesWithoutEntries(made, fin);
      return;
    }
    ghost var all := Consumed(made, fin, 0);
    var j: nat := 0;
    for k := 0 to |made|
      invariant j <= |fin| && k <= |all|
      invariant ms == PairUp(made, fin, all[..k])
      invariant all == all[..k] + Consumed(made[k..], fin, j)
    {
      var done;
      j, ms, done := MatchTurn(made, fin, k, j, all, ms);
      if done {
        return;
      }
    }
    assert all[..|made|] == all;
  }

  /**
   * One turn of the loop of `match_made_to_finished` for made time `k`:
   * skip the finished times not later than it; stop when none is left,
   * otherwise record the match and move the cursor past the finished time.
   */
  method MatchTurn(made: seq<real>, fin: seq<real>, k: nat, j0: nat, ghost all: seq<nat>, ms0: seq<Match>)
    returns (j: nat, ms: seq<Match>, done: bool)
    requires k < |made| && j0 <= |fin| && k <= |all|
    requires forall i | 0 <= i < |all| :: all[i] < |fin|
    requires ms0 == PairUp(made, fin, all[..k])
    requires all == all[..k] + Consumed(made[k..], fin, j0)
    ensures done ==> ms == PairUp(made, fin, all)
    ensures !done ==> && j <= |fin| && k < |all|
                      && ms == PairUp(made, fin, all[..k + 1])
                      && all == all[..k + 1] + Consumed(made[k + 1..], fin, j)
  {
    var madeT := made[k];
    MatchStep(made, fin, all, k, j0, ms0);
    j := SkipNotLater(fin, j0, madeT);
    ms, done := ms0, j >= |fin|;
    if done {
      assert j == NextLater(fin, j0, made[k]) == |fin|;
      return;
    }
    var finT := fin[j];
    var delta := finT - madeT;
    if delta >= 0.0 {
      ms := ms + [Match(madeT, delta)];
    }
    j := j + 1;
  }

  /**
   * One turn of the matcher's loop: when no later finished time is left the
   * matches so far are all of them; otherwise the first later one extends
   * the matches by a positive latency and the cursor moves past it.
   */
  lemma MatchStep(made: seq<real>, fin: seq<real>, all: seq<nat>, k: nat, j: nat, ms: seq<Match>)
    requires k < |made| && j <= |fin| && k <= |all|
    requires forall i | 0 <= i < |all| :: all[i] < |fin|
    requires ms == PairUp(made, fin, all[..k])
    requires all == all[..k] + Consumed(made[k..], fin, j)
    ensures var f := NextLater(fin, j, made[k]);
            && (f == |fin| ==> ms == PairUp(made, fin, all))
            && (f < |fin| ==> && fin[f] - made[k] > 0.0 && k < |all|
                              && ms + [Match(made[k], fin[f] - made[k])] == PairUp(made, fin, all[..k + 1])
                              && all == all[..k + 1] + Consumed(made[k + 1..], fin, f + 1))
  {
    ConsumedStep(made, fin, all, k, j);
    var f := NextLater(fin, j, made[k]);
    if f < |fin| {
      var front := all[..k];
      assert |front| == k;
      PairUpSnoc(made, fin, front, f);
      assert all[..k + 1] == front + [f];
    } else {
      assert all[..k] == all;
    }
  }

  /** `finished_by_addr.get(addr, [])`. */
  function FinishedOf(finished: map<Addr, seq<real>>, a: Addr): seq<real> {
    if a in finished then finished[a] else []
  }

  /** The matches of every address, address by address, before sorting. */
  function AllMatches(made: seq<(Addr, seq<real>)>, finished: map<Addr, seq<real>>): seq<Match>
  {
    if |made| == 0 then []
    else
      var last := made[|made| - 1];
      AllMatches(made[..|made| - 1], finished) + AddressMatches(last.1, FinishedOf(finished, last.0))
  }

  /** `m` pairs a made time of some address with a strictly later finished time of that address. */
  predicate PairedAtSomeAddress(made: seq<(Addr, seq<real>)>, finished: map<Addr, seq<real>>, m: Match) {
    m.delta > 0.0 && exists e | 0 <= e < |made| ::
      m.made in made[e].1 && m.made + m.delta in FinishedOf(finished, made[e].0)
  }

  lemma PairedInLonger(made: seq<(Addr, seq<real>)>, n: nat, finished: map<Addr, seq<real>>, m: Match)
    requires n <= |made| && PairedAtSomeAddress(made[..n], finished, m)
    ensures PairedAtSomeAddress(made, finished, m)
  {
    var e :| 0 <= e < n && m.made in made[..n][e].1 && m.made + m.delta in FinishedOf(finished, made[..n][e].0);
    assert made[..n][e] == made[e];
  }

  lemma PairedAtLast(made: seq<(Addr, seq<real>)>, finished: map<Addr, seq<real>>, m: Match)
    requires |made| > 0
    requires m in AddressMatches(made[|made| - 1].1, FinishedOf(finished, made[|made| - 1].0))
    ensures PairedAtSomeAddress(made, finished, m)
  {
    var n := |made| - 1;
    MatchOfAddress(made[n].1, FinishedOf(finished, made[n].0), m);
  }

  /** A match of one address pairs one of its made times with a strictly later finished time. */
  lemma MatchOfAddress(mt: seq<real>, fin: seq<real>, m: Match)
    requires m in AddressMatches(mt, fin)
    ensures m.delta > 0.0 && m.made in mt && m.made + m.delta in fin
  {
    var ms := AddressMatches(mt, fin);
    AddressMatchesPositive(mt, fin);
    var k :| 0 <= k < |ms| && ms[k] == m;
    assert m.made == mt[k];
  }

  /**
   * Every match of the whole log pairs a made time of some address with a
   * strictly later finished time of the same address.
   */
  lemma {:induction false} AllMatchesAreLater(made: seq<(Addr, seq<real>)>, finished: map<Addr, seq<real>>)
    ensures forall m | m in AllMatches(made, finished) :: PairedAtSomeAddress(made, finished, m)
  {
    if |made| > 0 {
      var n := |made| - 1;
      AllMatchesAreLater(made[..n], finished);
      var ms := AddressMatches(made[n].1, FinishedOf(finished, made[n].0));
      assert AllMatches(made, finished) == AllMatches(made[..n], finished) + ms;
      forall m | m in AllMatches(made, finished) ensures PairedAtSomeAddress(made, finished, m) {
        if m in ms {
          PairedAtLast(made, finished, m);
        } else {
          PairedInLonger(made, n, finished, m);
        }
      }
    }
  }

  /**
   * `match_made_to_finished`: the matches of every address, sorted by made
   * time.
   */
  method MatchMadeToFinished(made: seq<(Addr, seq<real>)>, finished: map<Addr, seq<real>>)
    returns (matches: seq<Match>)
    ensures multiset(matches) == multiset(AllMatches(made, finished))
    ensures SortedBy(matches, MadeTime)
  {
    var all := [];
    for e := 0 to |made|
      invariant all == AllMatches(made[..e], finished)
    {
      var addr := made[e].0;
      var madeList := made[e].1;
      var finishedList := FinishedOf(finished, addr);
      if |finishedList| == 0 {
        NoMatchesWithoutEntries(madeList, finishedList);
      }
      var ms := MatchAddress(madeList, finishedList);
      assert made[..e + 1][..e] == made[..e];
      all := all + ms;
    }
    assert made[..|made|] == made;
    matches := SortBy(all, MadeTime);
  }

  // ---------------------------------------------------------------------
  // Log end
  // ---------------------------------------------------------------------

  /**
   * `get_final_log_time`: the running maximum of the timestamps, starting
   * from 0.0. Only lines that carry a timestamp are given.
   */
  method FinalLogTime(stamps: seq<real>) returns (last: real)
    ensures last >= 0.0
    ensures forall t | t in stamps :: t <= last
    ensures last == 0.0 || last in stamps
  {
    last := 0.0;
    for i := 0 to |stamps|
      invariant last >= 0.0
      invariant forall k | 0 <= k < i :: stamps[k] <= last
      invariant last == 0.0 || last in stamps[..i]
    {
      var t := stamps[i];
      if t > last {
        last := t;
      }
      assert stamps[..i + 1] == stamps[..i] + [t];
    }
    assert stamps[..|stamps|] == stamps;
  }

  // ---------------------------------------------------------------------
  // Binning
  // ---------------------------------------------------------------------

  /** The bin key of `bin_and_average`: `int(math.floor(made / bin) * bin)`. */
  function SecondKey(t: real, bin: real): int
    requires bin != 0.0
  {
    Trunc(Floor(t / bin) as real * bin)
  }

  function SecondKeys(ms: seq<Match>, bin: real): (keys: seq<int>)
    requires bin != 0.0
    ensures |keys| == |ms|
    ensures forall i | 0 <= i < |ms| :: keys[i] == SecondKey(ms[i].made, bin)
  {
    seq(|ms|, i requires 0 <= i < |ms| => SecondKey(ms[i].made, bin))
  }

  /** The latencies of the matches whose key is `s`, in order. */
  function Deltas(ms: seq<Match>, keys: seq<int>, s: int): (ds: seq<real>)
    requires |keys| == |ms|
    ensures |ds| <= |ms|
  {
    if |ms| == 0 then []
    else
      var n := |ms| - 1;
      Deltas(ms[..n], keys[..n], s) + (if keys[n] == s then [ms[n].delta] else [])
  }

  function Sum(xs: seq<real>): real {
    if |xs| == 0 then 0.0 else Sum(xs[..|xs| - 1]) + xs[|xs| - 1]
  }

  /** `sum(values) / len(values)` for a non-empty bin, 0.0 for an empty one. */
  function Average(xs: seq<real>): real {
    if |xs| == 0 then 0.0 else Sum(xs) / |xs| as real
  }

  /** One `(key, average)` row per integer key from `lo` to `hi`, in order. */
  function Table(ms: seq<Match>, keys: seq<int>, lo: int, hi: int): (t: seq<(int, real)>)
    requires |keys| == |ms|
  {
    seq(if hi < lo then 0 else hi - lo + 1,
        k requires 0 <= k => (lo + k, Average(Deltas(ms, keys, lo + k))))
  }

  function LowestKey(keys: seq<int>): (m: int)
    requires |keys| > 0
    ensures m in keys
    ensures forall x | x in keys :: m <= x
  {
    if |keys| == 1 then keys[0]
    else
      var rest := LowestKey(keys[1..]);
      assert keys == [keys[0]] + keys[1..];
      if keys[0] <= rest then keys[0] else rest
  }

  datatype BinError = ZeroBinSize

  /**
   * `bin_and_average` as written: no rows without matches; a bin size of 0
   * with matches divides by zero; otherwise one row per integer from the
   * lowest key to `ceil(log_end / bin)`.
   */
  function BinnedAverages(ms: seq<Match>, logEnd: real, bin: real): Result<seq<(int, real)>, BinError>
  {
    if |ms| == 0 then Ok([])
    else if bin == 0.0 then Err(ZeroBinSize)
    else
      var keys := SecondKeys(ms, bin);
      Ok(Table(ms, keys, LowestKey(keys), Ceil(logEnd / bin)))
  }

  /**
   * Appending a match extends the bin of its key by its latency and leaves
   * the other bins alone.
   */
  lemma DeltasSnoc(ms: seq<Match>, keys: seq<int>, i: nat, s: int)
    requires |keys| == |ms| && i < |ms|
    ensures Deltas(ms[..i + 1], keys[..i + 1], s)
            == Deltas(ms[..i], keys[..i], s) + (if keys[i] == s then [ms[i].delta] else [])
  {
    assert ms[..i + 1][..i] == ms[..i];
    assert keys[..i + 1][..i] == keys[..i];
  }

  /** A bin is empty exactly when no match has its key. */
  lemma {:induction false} DeltasEmptyIff(ms: seq<Match>, keys: seq<int>, s: int)
    requires |keys| == |ms|
    ensures Deltas(ms, keys, s) == [] <==> forall i | 0 <= i < |ms| :: keys[i] != s
  {
    if |ms| > 0 {
      var n := |ms| - 1;
      DeltasEmptyIff(ms[..n], keys[..n], s);
      assert forall i | 0 <= i < n :: keys[..n][i] == keys[i];
    }
  }

  /** Every match's latency is in the bin of its key. */
  lemma {:induction false} DeltaInItsBin(ms: seq<Match>, keys: seq<int>, i: nat)
    requires |keys| == |ms| && i < |ms|
    ensures ms[i].delta in Deltas(ms, keys, keys[i])
  {
    var n := |ms| - 1;
    if i < n {
      DeltaInItsBin(ms[..n], keys[..n], i);
    }
  }

  /** Each latency of a bin is the latency of some match with that key. */
  lemma {:induction false} BinHoldsOnlyItsKey(ms: seq<Match>, keys: seq<int>, s: int)
    requires |keys| == |ms|
    ensures forall d | d in Deltas(ms, keys, s) :: exists i | 0 <= i < |ms| :: keys[i] == s && ms[i].delta == d
  {
    if |ms| > 0 {
      var n := |ms| - 1;
      BinHoldsOnlyItsKey(ms[..n], keys[..n], s);
      forall d | d in Deltas(ms, keys, s) ensures exists i | 0 <= i < |ms| :: keys[i] == s && ms[i].delta == d {
        if d in Deltas(ms[..n], keys[..n], s) {
          var i :| 0 <= i < n && keys[..n][i] == s && ms[..n][i].delta == d;
          assert keys[i] == s && ms[i].delta == d;
        } else {
          assert keys[n] == s && ms[n].delta == d;
        }
      }
    }
  }

  /** The sum of positive numbers is positive. */
  lemma {:induction false} SumPositive(xs: seq<real>)
    requires |xs| > 0 && forall x | x in xs :: x > 0.0
    ensures Sum(xs) > 0.0
  {
    var n := |xs| - 1;
    if n > 0 {
      assert forall x | x in xs[..n] :: x in xs;
      SumPositive(xs[..n]);
    } else {
      assert xs[..n] == [];
    }
    assert xs[n] in xs;
  }

  /** The mean of positive latencies is positive, and the mean of none is 0.0. */
  lemma AverageSign(xs: seq<real>)
    requires forall x | x in xs :: x > 0.0
    ensures Average(xs) >= 0.0
    ensures Average(xs) == 0.0 <==> xs == []
  {
    if |xs| > 0 {
      SumPositive(xs);
      var n := |xs| as real;
      assert n > 0.0;
      assert Sum(xs) / n > 0.0;
    }
  }

  /** The latencies of a bin are positive when every match's latency is. */
  lemma BinPositive(ms: seq<Match>, keys: seq<int>, s: int)
    requires |keys| == |ms|
    requires forall i | 0 <= i < |ms| :: ms[i].delta > 0.0
    ensures forall d | d in Deltas(ms, keys, s) :: d > 0.0
  {
    BinHoldsOnlyItsKey(ms, keys, s);
    forall d | d in Deltas(ms, keys, s) ensures d > 0.0 {
      var i :| 0 <= i < |ms| && keys[i] == s && ms[i].delta == d;
    }
  }

  /**
   * The meaning of a table row: the row for key `s` averages exactly the
   * latencies of the matches with key `s`; with positive latencies it is
   * 0.0 exactly when no match has that key, and the row of any match's key
   * within range holds that match's latency.
   */
  lemma TableRow(ms: seq<Match>, keys: seq<int>, lo: int, hi: int, s: int)
    requires |keys| == |ms| && lo <= s <= hi
    requires forall i | 0 <= i < |ms| :: ms[i].delta > 0.0
    ensures var t := Table(ms, keys, lo, hi);
            && s - lo < |t| && t[s - lo].0 == s
            && t[s - lo].1 == Average(Deltas(ms, keys, s))
            && t[s - lo].1 >= 0.0
            && (t[s - lo].1 == 0.0 <==> forall i | 0 <= i < |ms| :: keys[i] != s)
            && (forall i | 0 <= i < |ms| && keys[i] == s :: ms[i].delta in Deltas(ms, keys, s))
  {
    var ds := Deltas(ms, keys, s);
    DeltasEmptyIff(ms, keys, s);
    BinPositive(ms, keys, s);
    AverageSign(ds);
    forall i | 0 <= i < |ms| && keys[i] == s ensures ms[i].delta in ds {
      DeltaInItsBin(ms, keys, i);
    }
  }

  /**
   * `bin_and_average`: group the latencies by key in a dictionary, then
   * emit one row per integer key from the lowest to the end of the log.
   */
  method BinAndAverage(ms: seq<Match>, logEnd: real, bin: real)
    returns (r: Result<seq<(int, real)>, BinError>)
    ensures r == BinnedAverages(ms, logEnd, bin)
  {
    if |ms| == 0 {
      return Ok([]);
    }
    if bin == 0.0 {
      return Err(ZeroBinSize);
    }
    var bins := GroupBySecond(ms, bin);
    var keys := SecondKeys(ms, bin);
    var minSec := LowestKey(keys);
    var maxSec := Ceil(logEnd / bin);
    var averaged := FillRows(ms, keys, bins, minSec, maxSec);
    r := Ok(averaged);
  }

  /** `bins` holds, for every key that occurs, the latencies with that key in order; and no other key. */
  ghost predicate GroupsOf(bins: map<int, seq<real>>, ms: seq<Match>, keys: seq<int>)
    requires |keys| == |ms|
  {
    && (forall s :: s in bins <==> Deltas(ms, keys, s) != [])
    && (forall s | s in bins :: bins[s] == Deltas(ms, keys, s))
  }

  /** The first loop of `bin_and_average`: append each latency to the list of its key. */
  method GroupBySecond(ms: seq<Match>, bin: real) returns (bins: map<int, seq<real>>)
    requires bin != 0.0
    ensures GroupsOf(bins, ms, SecondKeys(ms, bin))
  {
    ghost var keys := SecondKeys(ms, bin);
    bins := map[];
    for i := 0 to |ms|
      invariant GroupsOf(bins, ms[..i], keys[..i])
    {
      var sec := SecondKey(ms[i].made, bin);
      forall s ensures Deltas(ms[..i + 1], keys[..i + 1], s)
                       == Deltas(ms[..i], keys[..i], s) + (if keys[i] == s then [ms[i].delta] else []) {
        DeltasSnoc(ms, keys, i, s);
      }
      bins := bins[sec := (if sec in bins then bins[sec] else []) + [ms[i].delta]];
    }
    assert ms[..|ms|] == ms && keys[..|ms|] == keys;
  }

  /** The second loop of `bin_and_average`: one row per key from `lo` to `hi`, 0.0 for an absent key. */
  method FillRows(ghost ms: seq<Match>, ghost keys: seq<int>, bins: map<int, seq<real>>, lo: int, hi: int)
    returns (rows: seq<(int, real)>)
    requires |keys| == |ms| && GroupsOf(bins, ms, keys)
    ensures rows == Table(ms, keys, lo, hi)
  {
    rows := [];
    var s := lo;
    while s <= hi
      invariant lo <= s <= (if hi < lo then lo else hi + 1)
      invariant |rows| == s - lo
      invariant forall k | 0 <= k < |rows| :: rows[k] == (lo + k, Average(Deltas(ms, keys, lo + k)))
      decreases hi - s
    {
      var avg := BinRow(ms, keys, bins, s);
      rows := rows + [(s, avg)];
      s := s + 1;
    }
    RowsAreTable(ms, keys, lo, hi, rows);
  }

  /** One turn of the second loop: the average of the latencies in bin `s`, 0.0 when it has none. */
  method BinRow(ghost ms: seq<Match>, ghost keys: seq<int>, bins: map<int, seq<real>>, s: int)
    returns (avg: real)
    requires |keys| == |ms| && GroupsOf(bins, ms, keys)
    ensures avg == Average(Deltas(ms, keys, s))
  {
    var values := if s in bins then bins[s] else [];
    assert values == Deltas(ms, keys, s);
    if |values| > 0 {
      avg := Sum(values) / |values| as real;
    } else {
      avg := 0.0;
    }
  }

  /** Rows with the table's length and the table's entries are the table. */
  lemma RowsAreTable(ms: seq<Match>, keys: seq<int>, lo: int, hi: int, rows: seq<(int, real)>)
    requires |keys| == |ms| && |rows| == (if hi < lo then 0 else hi - lo + 1)
    requires forall k | 0 <= k < |rows| :: rows[k] == (lo + k, Average(Deltas(ms, keys, lo + k)))
    ensures rows == Table(ms, keys, lo, hi)
  {
  }

  /**
   * With a bin of 2 seconds a match made at 9.0 gets key `int(4 * 2.0) = 8`
   * while the range ends at `ceil(10.0 / 2.0) = 5`: the match is dropped and
   * the result is empty.
   */
  lemma SecondKeysLoseMatch()
    ensures BinnedAverages([Match(9.0, 1.0)], 10.0, 2.0) == Ok([])
  {
    var ms := [Match(9.0, 1.0)];
    assert Floor(9.0 / 2.0) == 4;
    assert SecondKey(9.0, 2.0) == 8;
    assert SecondKeys(ms, 2.0) == [8];
    assert LowestKey([8]) == 8;
    assert Ceil(10.0 / 2.0) == 5;
    assert Table(ms, [8], 8, 5) == [];
  }

  /** The key of a made time measured in bins: `math.floor(made / bin)`. */
  function BinIndexKeys(ms: seq<Match>, bin: real): (keys: seq<int>)
    requires bin != 0.0
    ensures |keys| == |ms|
    ensures forall i | 0 <= i < |ms| :: keys[i] == Floor(ms[i].made / bin)
  {
    seq(|ms|, i requires 0 <= i < |ms| => Floor(ms[i].made / bin))
  }

  /**
   * `bin_and_average` with the keys and the range end in the same unit,
   * bins: one row per bin from the lowest non-empty bin to the bin that
   * holds the end of the log.
   */
  function BinnedAveragesByIndex(ms: seq<Match>, logEnd: real, bin: real): Result<seq<(int, real)>, BinError>
  {
    if |ms| == 0 then Ok([])
    else if bin == 0.0 then Err(ZeroBinSize)
    else
      var keys := BinIndexKeys(ms, bin);
      Ok(Table(ms, keys, LowestKey(keys), Ceil(logEnd / bin)))
  }

  /**
   * Binned by index, every match made no later than the end of the log has
   * a row, and that row is non-zero and averages the latencies of its bin.
   */
  lemma IndexBinsKeepMatches(ms: seq<Match>, logEnd: real, bin: real, i: nat)
    requires bin > 0.0 && i < |ms|
    requires forall j | 0 <= j < |ms| :: ms[j].delta > 0.0 && ms[j].made <= logEnd
    ensures var t := BinnedAveragesByIndex(ms, logEnd, bin).value;
            var keys := BinIndexKeys(ms, bin);
            var k := keys[i] - LowestKey(keys);
            && 0 <= k < |t| && t[k].0 == keys[i] && t[k].1 > 0.0
            && t[k].1 == Average(Deltas(ms, keys, keys[i]))
            && ms[i].delta in Deltas(ms, keys, keys[i])
  {
    var keys := BinIndexKeys(ms, bin);
    var lo, hi := LowestKey(keys), Ceil(logEnd / bin);
    assert keys[i] in keys;
    DivideMonotone(ms[i].made, logEnd, bin);
    assert lo <= keys[i] <= hi;
    RowOfMatch(ms, keys, lo, hi, i);
    assert BinnedAveragesByIndex(ms, logEnd, bin).value == Table(ms, keys, lo, hi);
  }

  /** The row of a match's own key, when in range, is non-zero and averages its bin, which holds it. */
  lemma RowOfMatch(ms: seq<Match>, keys: seq<int>, lo: int, hi: int, i: nat)
    requires |keys| == |ms| && i < |ms| && lo <= keys[i] <= hi
    requires forall j | 0 <= j < |ms| :: ms[j].delta > 0.0
    ensures var t := Table(ms, keys, lo, hi);
            var k := keys[i] - lo;
            && 0 <= k < |t| && t[k].0 == keys[i] && t[k].1 > 0.0
            && t[k].1 == Average(Deltas(ms, keys, keys[i]))
            && ms[i].delta in Deltas(ms, keys, keys[i])
  {
    TableRow(ms, keys, lo, hi, keys[i]);
  }

  lemma DivideMonotone(a: real, b: real, d: real)
    requires a <= b && d > 0.0
    ensures Floor(a / d) <= Ceil(b / d)
  {
    assert b / d - a / d == (b - a) / d;
  }

  /** With the default bin of one second both keyings agree, so the default path keeps every match. */
  lemma DefaultBinAgrees(ms: seq<Match>, logEnd: real)
    ensures BinnedAverages(ms, logEnd, 1.0) == BinnedAveragesByIndex(ms, logEnd, 1.0)
  {
    if |ms| > 0 {
      forall i | 0 <= i < |ms| ensures SecondKeys(ms, 1.0)[i] == BinIndexKeys(ms, 1.0)[i] {
        IntegralFixed(Floor(ms[i].made / 1.0));
      }
      assert SecondKeys(ms, 1.0) == BinIndexKeys(ms, 1.0);
    }
  }
}
