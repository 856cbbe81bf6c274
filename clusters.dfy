/**
 * Allocation clusters of a memory-access trace (plot_cluster_no_app.py):
 * the distinct sampled addresses, sorted, are split wherever two
 * neighbours are at least a gap threshold apart; every record is then
 * assigned to the first cluster whose range holds its address, and
 * clusters with too few records are dropped.
 */
module Clusters {
  import opened Outcomes
  import opened Sorting
  import opened Permutations
  import opened TraceRecord

  const GiB: int := 1024 * 1024 * 1024
  /** `gap_threshold_gb`. */
  const GapThresholdGb: int := 2
  /** `min_accesses_per_cluster`. */
  const MinAccessesPerCluster: int := 500

  /** An inclusive address range `[start, end]`. */
  datatype Cluster = Cluster(start: int, end: int)

  predicate In(a: int, c: Cluster) { c.start <= a <= c.end }

  // ---------------------------------------------------------------------
  // infer_clusters
  // ---------------------------------------------------------------------

  /** Index `i` of the sorted distinct addresses opens a cluster: it is the first, or the gap before it is wide. */
  predicate OpensCluster(d: seq<int>, gap: int, i: nat)
    requires i < |d|
  {
    i == 0 || d[i] - d[i - 1] >= gap
  }

  /** The indices below `n` that open a cluster, in increasing order. */
  function Openings(d: seq<int>, gap: int, n: nat): (s: seq<nat>)
    requires n <= |d|
    ensures n > 0 ==> ValidOpenings(s, n)
  {
    if n == 0 then []
    else
      var s := Openings(d, gap, n - 1);
      if OpensCluster(d, gap, n - 1) then s + [n - 1] else s
  }

  /** Index `i` opens a cluster exactly when it is one of the openings below `n`. */
  lemma {:induction false} OpeningsExact(d: seq<int>, gap: int, n: nat, i: nat)
    requires i < n <= |d|
    ensures OpensCluster(d, gap, i) <==> i in Openings(d, gap, n)
  {
    var s := Openings(d, gap, n);
    if i < n - 1 {
      OpeningsExact(d, gap, n - 1, i);
      OpeningsBelow(d, gap, n - 1);
    }
  }

  lemma {:induction false} OpeningsBelow(d: seq<int>, gap: int, n: nat)
    requires n <= |d|
    ensures forall k | 0 <= k < |Openings(d, gap, n)| :: Openings(d, gap, n)[k] < n
  {
    if n > 0 {
      OpeningsBelow(d, gap, n - 1);
    }
  }

  /** Increasing indices below `n`, the first of them 0. */
  predicate ValidOpenings(s: seq<nat>, n: nat) {
    && |s| > 0 && s[0] == 0
    && (forall k | 0 <= k < |s| :: s[k] < n)
    && (forall a, b | 0 <= a < b < |s| :: s[a] < s[b])
  }

  /** The last index of the k-th cluster: just before the next opening, or the last index overall. */
  function LastOf(s: seq<nat>, n: nat, k: nat): nat
    requires ValidOpenings(s, n) && k < |s|
  {
    if k + 1 < |s| then s[k + 1] - 1 else n - 1
  }

  /** One cluster per opening, from the opening's address to the address before the next opening. */
  function ClustersAt(d: seq<int>, s: seq<nat>, n: nat): (c: seq<Cluster>)
    requires n <= |d| && ValidOpenings(s, n)
    ensures |c| == |s|
    ensures forall k | 0 <= k < |s| :: c[k] == Cluster(d[s[k]], d[LastOf(s, n, k)])
  {
    seq(|s|, k requires 0 <= k < |s| => Cluster(d[s[k]], d[LastOf(s, n, k)]))
  }

  /** The clusters `infer_clusters` finds for `addresses` with gap threshold `gap` (in bytes). */
  function InferredClusters(addresses: seq<int>, gap: int): (c: seq<Cluster>)
    requires |addresses| > 0
    ensures |c| > 0
  {
    var d := SortedSet(addresses);
    assert addresses[0] in d;
    Split(d, gap)
  }

  /**
   * `infer_clusters`: walk the sorted distinct addresses and close the
   * current cluster before every address whose gap to its predecessor is at
   * least the threshold.
   */
  method InferClusters(addresses: seq<int>, gapGb: int) returns (clusters: seq<Cluster>)
    requires |addresses| > 0
    ensures clusters == InferredClusters(addresses, gapGb * GiB)
  {
    var addrsSorted := SortedSet(addresses);
    assert addresses[0] in addrsSorted;
    var gapThreshold := gapGb * GiB;
    ghost var d, gap := addrsSorted, gapThreshold;
    clusters := [];
    var clusterStart := addrsSorted[0];
    for i := 1 to |addrsSorted|
      invariant clusters + [Cluster(clusterStart, d[i - 1])] == ClustersAt(d, Openings(d, gap, i), i)
    {
      ClustersStep(d, gap, i, clusters, clusterStart);
      if addrsSorted[i] - addrsSorted[i - 1] >= gapThreshold {
        clusters := clusters + [Cluster(clusterStart, addrsSorted[i - 1])];
        clusterStart := addrsSorted[i];
      }
    }
    clusters := clusters + [Cluster(clusterStart, addrsSorted[|addrsSorted| - 1])];
  }

  /**
   * One step of the walk: the closed clusters and the open one for the
   * first `i` addresses become those for the first `i + 1`, closing the open
   * cluster exactly when address `i` opens a new one.
   */
  lemma ClustersStep(d: seq<int>, gap: int, i: nat, closed: seq<Cluster>, start: int)
    requires 0 < i < |d|
    requires closed + [Cluster(start, d[i - 1])] == ClustersAt(d, Openings(d, gap, i), i)
    ensures var opens := d[i] - d[i - 1] >= gap;
            var closed' := if opens then closed + [Cluster(start, d[i - 1])] else closed;
            var start' := if opens then d[i] else start;
            closed' + [Cluster(start', d[i])] == ClustersAt(d, Openings(d, gap, i + 1), i + 1)
  {
    var s := Openings(d, gap, i);
    var before := ClustersAt(d, s, i);
    var m := |s| - 1;
    assert closed == before[..m] && Cluster(start, d[i - 1]) == before[m];
    if d[i] - d[i - 1] >= gap {
      assert Openings(d, gap, i + 1) == s + [i];
      ClustersOpen(d, s, i);
    } else {
      assert Openings(d, gap, i + 1) == s;
      ClustersExtend(d, s, i);
    }
  }

  /** Opening a cluster at address `i` appends the one-address cluster `[d[i], d[i]]`. */
  lemma ClustersOpen(d: seq<int>, s: seq<nat>, i: nat)
    requires 0 < i < |d| && ValidOpenings(s, i)
    ensures ValidOpenings(s + [i], i + 1)
    ensures ClustersAt(d, s + [i], i + 1) == ClustersAt(d, s, i) + [Cluster(d[i], d[i])]
  {
    var s' := s + [i];
    OpeningsSnoc(s, i);
    var before, after := ClustersAt(d, s, i), ClustersAt(d, s', i + 1);
    forall k | 0 <= k < |s| ensures after[k] == before[k] {
      assert s'[k] == s[k];
      assert LastOf(s', i + 1, k) == LastOf(s, i, k);
    }
    assert LastOf(s', i + 1, |s|) == i;
    assert after[|s|] == Cluster(d[i], d[i]);
  }

  lemma OpeningsSnoc(s: seq<nat>, i: nat)
    requires ValidOpenings(s, i)
    ensures ValidOpenings(s + [i], i + 1)
  {
    var s' := s + [i];
    forall a, b | 0 <= a < b < |s'| ensures s'[a] < s'[b] {
      assert s'[a] == s[a];
      if b < |s| {
        assert s'[b] == s[b];
      }
    }
    assert forall k | 0 <= k < |s'| :: s'[k] < i + 1;
  }

  /** Without a new opening, address `i` extends the last cluster to end at `d[i]`. */
  lemma ClustersExtend(d: seq<int>, s: seq<nat>, i: nat)
    requires 0 < i < |d| && ValidOpenings(s, i)
    ensures ValidOpenings(s, i + 1)
    ensures var before := ClustersAt(d, s, i);
            ClustersAt(d, s, i + 1) == before[..|s| - 1] + [Cluster(before[|s| - 1].start, d[i])]
  {
    assert forall k | 0 <= k < |s| :: s[k] < i + 1;
    var before, after := ClustersAt(d, s, i), ClustersAt(d, s, i + 1);
    var m := |s| - 1;
    forall k | 0 <= k < m ensures after[k] == before[k] {
      assert LastOf(s, i + 1, k) == LastOf(s, i, k);
    }
    assert LastOf(s, i + 1, m) == i;
    assert after[m] == Cluster(before[m].start, d[i]);
  }

  /** Strictly increasing, as `sorted(set(...))` is. */
  predicate Increasing(d: seq<int>) {
    forall a, b | 0 <= a < b < |d| :: d[a] < d[b]
  }

  /** The clusters of the sorted distinct addresses `d`. */
  function Split(d: seq<int>, gap: int): (c: seq<Cluster>)
    requires |d| > 0
  {
    ClustersAt(d, Openings(d, gap, |d|), |d|)
  }

  /** The address at a larger index of a strictly increasing sequence is larger. */
  lemma IncreasingOrder(d: seq<int>, i: nat, j: nat)
    requires Increasing(d)
    requires i < |d| && j < |d|
    ensures d[i] <= d[j] <==> i <= j
  {
    if i < j {
      assert d[i] < d[j];
    } else if j < i {
      assert d[j] < d[i];
    }
  }

  /** Every opening opens a cluster. */
  lemma {:induction false} OpeningsOpen(d: seq<int>, gap: int, n: nat)
    requires n <= |d|
    ensures forall k | 0 <= k < |Openings(d, gap, n)| :: OpensCluster(d, gap, Openings(d, gap, n)[k])
  {
    if n > 0 {
      OpeningsOpen(d, gap, n - 1);
    }
  }

  /** The clusters of `d` are non-empty ranges of its addresses. */
  lemma SplitRanges(d: seq<int>, gap: int)
    requires |d| > 0 && Increasing(d)
    ensures var c := Split(d, gap);
            forall k | 0 <= k < |c| :: c[k].start <= c[k].end && c[k].start in d && c[k].end in d
  {
    var s := Openings(d, gap, |d|);
    var c := Split(d, gap);
    forall k | 0 <= k < |c| ensures c[k].start <= c[k].end && c[k].start in d && c[k].end in d {
      var first, last := s[k], LastOf(s, |d|, k);
      assert first <= last;
      IncreasingOrder(d, first, last);
      assert c[k] == Cluster(d[first], d[last]);
    }
  }

  /** The clusters of `d` are in ascending order and pairwise disjoint. */
  lemma SplitDisjoint(d: seq<int>, gap: int)
    requires |d| > 0 && Increasing(d)
    ensures var c := Split(d, gap);
            forall k1, k2 | 0 <= k1 < k2 < |c| :: c[k1].end < c[k2].start
  {
    var s := Openings(d, gap, |d|);
    var c := Split(d, gap);
    forall k1, k2 | 0 <= k1 < k2 < |c| ensures c[k1].end < c[k2].start {
      var last, first := LastOf(s, |d|, k1), s[k2];
      assert s[k1 + 1] <= first;
      IncreasingOrder(d, first, last);
      assert c[k1].end == d[last] && c[k2].start == d[first];
    }
  }

  lemma SplitOrdered(d: seq<int>, gap: int)
    requires |d| > 0 && Increasing(d)
    ensures var c := Split(d, gap);
            && (forall k | 0 <= k < |c| :: c[k].start <= c[k].end && c[k].start in d && c[k].end in d)
            && (forall k1, k2 | 0 <= k1 < k2 < |c| :: c[k1].end < c[k2].start)
  {
    SplitRanges(d, gap);
    SplitDisjoint(d, gap);
  }

  /** The first cluster of `d` starts at its first address and the last ends at its last. */
  lemma SplitEnds(d: seq<int>, gap: int)
    requires |d| > 0
    ensures var c := Split(d, gap);
            c[0].start == d[0] && c[|c| - 1].end == d[|d| - 1]
  {
    var s := Openings(d, gap, |d|);
    assert LastOf(s, |d|, |s| - 1) == |d| - 1;
  }

  /** Neighbouring clusters of `d` are at least `gap` apart. */
  lemma SplitSeparated(d: seq<int>, gap: int)
    requires |d| > 0
    ensures var c := Split(d, gap);
            forall k | 0 <= k < |c| - 1 :: c[k + 1].start - c[k].end >= gap
  {
    OpeningsOpen(d, gap, |d|);
    GapsAtOpenings(d, gap, Openings(d, gap, |d|), |d|);
  }

  /** Clusters cut at indices that all open a cluster are at least `gap` apart. */
  lemma GapsAtOpenings(d: seq<int>, gap: int, s: seq<nat>, n: nat)
    requires n <= |d| && ValidOpenings(s, n)
    requires forall k | 0 <= k < |s| :: OpensCluster(d, gap, s[k])
    ensures var c := ClustersAt(d, s, n);
            forall k | 0 <= k < |c| - 1 :: c[k + 1].start - c[k].end >= gap
  {
    var c := ClustersAt(d, s, n);
    forall k | 0 <= k < |c| - 1 ensures c[k + 1].start - c[k].end >= gap {
      var i := s[k + 1];
      assert 0 <= s[k] < i;
      assert LastOf(s, n, k) == i - 1;
      assert c[k].end == d[i - 1] && c[k + 1].start == d[i];
      assert OpensCluster(d, gap, i);
    }
  }

  /** Some cluster's index range holds index `i`, searching from cluster `j` on. */
  lemma {:induction false} OpeningCovers(s: seq<nat>, n: nat, i: nat, j: nat)
    requires ValidOpenings(s, n) && i < n && j < |s| && s[j] <= i
    ensures exists k | 0 <= k < |s| :: s[k] <= i <= LastOf(s, n, k)
    decreases |s| - j
  {
    if j + 1 < |s| && s[j + 1] <= i {
      OpeningCovers(s, n, i, j + 1);
    } else {
      assert s[j] <= i <= LastOf(s, n, j);
    }
  }

  /** Some cluster of `d` holds `d[i]`. */
  lemma SplitCovers(d: seq<int>, gap: int, i: nat)
    requires Increasing(d) && i < |d|
    ensures exists k | 0 <= k < |Split(d, gap)| :: In(d[i], Split(d, gap)[k])
  {
    var s := Openings(d, gap, |d|);
    var c := Split(d, gap);
    OpeningCovers(s, |d|, i, 0);
    var k :| 0 <= k < |s| && s[k] <= i <= LastOf(s, |d|, k);
    IncreasingOrder(d, s[k], i);
    IncreasingOrder(d, i, LastOf(s, |d|, k));
    assert In(d[i], c[k]);
  }

  /** A cluster of `d` starts at `d[i]` when index `i` opens one. */
  lemma OpeningStarts(d: seq<int>, gap: int, i: nat)
    requires i < |d| && OpensCluster(d, gap, i)
    ensures exists k | 0 <= k < |Split(d, gap)| :: Split(d, gap)[k].start == d[i]
  {
    var s := Openings(d, gap, |d|);
    OpeningsExact(d, gap, |d|, i);
    var k :| 0 <= k < |s| && s[k] == i;
    assert Split(d, gap)[k].start == d[i];
  }

  /** The k-th cluster of `d` starts at the k-th opening, which opens a cluster. */
  lemma StartIsOpening(d: seq<int>, gap: int, k: nat)
    requires |d| > 0 && k < |Split(d, gap)|
    ensures var s := Openings(d, gap, |d|);
            k < |s| && Split(d, gap)[k].start == d[s[k]] && s[k] < |d| && OpensCluster(d, gap, s[k])
  {
    var s := Openings(d, gap, |d|);
    assert s[k] in s;
    OpeningsExact(d, gap, |d|, s[k]);
  }

  /** Only an opening index starts a cluster of `d`. */
  lemma StartOpens(d: seq<int>, gap: int, i: nat, k: nat)
    requires Increasing(d) && i < |d| && k < |Split(d, gap)| && Split(d, gap)[k].start == d[i]
    ensures OpensCluster(d, gap, i)
  {
    StartIsOpening(d, gap, k);
    var j := Openings(d, gap, |d|)[k];
    IncreasingOrder(d, j, i);
    IncreasingOrder(d, i, j);
    assert j == i;
  }

  /** A cluster of `d` starts at `d[i]` exactly when index `i` opens one. */
  lemma SplitStarts(d: seq<int>, gap: int, i: nat)
    requires Increasing(d) && i < |d|
    ensures (exists k | 0 <= k < |Split(d, gap)| :: Split(d, gap)[k].start == d[i]) <==> OpensCluster(d, gap, i)
  {
    if OpensCluster(d, gap, i) {
      OpeningStarts(d, gap, i);
    }
    if exists k | 0 <= k < |Split(d, gap)| :: Split(d, gap)[k].start == d[i] {
      var k :| 0 <= k < |Split(d, gap)| && Split(d, gap)[k].start == d[i];
      StartOpens(d, gap, i, k);
    }
  }

  /** `sorted(set(addresses))` is strictly increasing. */
  lemma SortedSetIncreasing(addresses: seq<int>)
    ensures Increasing(SortedSet(addresses))
  {
  }

  /**
   * The inferred clusters are non-empty ranges of input addresses in
   * ascending order, pairwise disjoint.
   */
  lemma ClustersAscending(addresses: seq<int>, gap: int)
    requires |addresses| > 0
    ensures var c := InferredClusters(addresses, gap);
            && (forall k | 0 <= k < |c| :: c[k].start <= c[k].end && c[k].start in addresses && c[k].end in addresses)
            && (forall k1, k2 | 0 <= k1 < k2 < |c| :: c[k1].end < c[k2].start)
  {
    var d := SortedSet(addresses);
    assert addresses[0] in d;
    SortedSetIncreasing(addresses);
    SplitOrdered(d, gap);
    assert InferredClusters(addresses, gap) == Split(d, gap);
  }

  /** Neighbouring inferred clusters are at least the gap threshold apart. */
  lemma ClustersSeparated(addresses: seq<int>, gap: int)
    requires |addresses| > 0
    ensures var c := InferredClusters(addresses, gap);
            forall k | 0 <= k < |c| - 1 :: c[k + 1].start - c[k].end >= gap
  {
    var d := SortedSet(addresses);
    assert addresses[0] in d;
    SplitSeparated(d, gap);
    assert InferredClusters(addresses, gap) == Split(d, gap);
  }

  /** The first inferred cluster starts at the lowest address and the last ends at the highest. */
  lemma ClustersSpan(addresses: seq<int>, gap: int)
    requires |addresses| > 0
    ensures var c := InferredClusters(addresses, gap);
            && (forall a | a in addresses :: c[0].start <= a <= c[|c| - 1].end)
            && c[0].start in addresses && c[|c| - 1].end in addresses
  {
    var d := SortedSet(addresses);
    assert addresses[0] in d;
    SortedSetIncreasing(addresses);
    SplitEnds(d, gap);
    assert InferredClusters(addresses, gap) == Split(d, gap);
    assert d[0] in d && d[|d| - 1] in d;
    forall a | a in addresses ensures d[0] <= a <= d[|d| - 1] {
      assert a in d;
      IncreasingBounds(d, a);
    }
  }

  /** Every element of a strictly increasing sequence lies between its first and last elements. */
  lemma IncreasingBounds(d: seq<int>, a: int)
    requires Increasing(d) && a in d
    ensures d[0] <= a <= d[|d| - 1]
  {
    var i :| 0 <= i < |d| && d[i] == a;
    IncreasingOrder(d, 0, i);
    IncreasingOrder(d, i, |d| - 1);
  }

  /** Every input address lies in exactly one inferred cluster. */
  lemma EveryAddressInOneCluster(addresses: seq<int>, gap: int, a: int)
    requires |addresses| > 0 && a in addresses
    ensures var c := InferredClusters(addresses, gap);
            && (exists k | 0 <= k < |c| :: In(a, c[k]))
            && (forall k1, k2 | 0 <= k1 < |c| && 0 <= k2 < |c| && In(a, c[k1]) && In(a, c[k2]) :: k1 == k2)
  {
    var d := SortedSet(addresses);
    assert addresses[0] in d;
    SortedSetIncreasing(addresses);
    assert a in d;
    var i :| 0 <= i < |d| && d[i] == a;
    SplitCovers(d, gap, i);
    SplitOrdered(d, gap);
    assert InferredClusters(addresses, gap) == Split(d, gap);
  }

  /**
   * A new cluster starts at a sorted distinct address exactly when it is at
   * least the threshold above its predecessor.
   */
  lemma SplitExactlyAtGaps(addresses: seq<int>, gap: int, i: nat)
    requires |addresses| > 0
    requires 0 < i < |SortedSet(addresses)|
    ensures var d := SortedSet(addresses);
            var c := InferredClusters(addresses, gap);
            (exists k | 0 <= k < |c| :: c[k].start == d[i]) <==> d[i] - d[i - 1] >= gap
  {
    var d := SortedSet(addresses);
    SortedSetIncreasing(addresses);
    SplitStarts(d, gap, i);
    assert InferredClusters(addresses, gap) == Split(d, gap);
  }

  // ---------------------------------------------------------------------
  // cluster_mem
  // ---------------------------------------------------------------------

  /** The index of the first cluster holding `a`, or `|clusters|` when none does. */
  function FirstCluster(clusters: seq<Cluster>, a: int): (k: nat)
    ensures k <= |clusters|
    ensures k < |clusters| ==> In(a, clusters[k])
    ensures forall j | 0 <= j < k :: !In(a, clusters[j])
  {
    if |clusters| == 0 then 0
    else if In(a, clusters[0]) then 0
    else 1 + FirstCluster(clusters[1..], a)
  }

  /** The records assigned to cluster `idx`, in trace order. */
  function Members(records: seq<Record>, clusters: seq<Cluster>, idx: nat): seq<Record> {
    if |records| == 0 then []
    else
      var n := |records| - 1;
      Members(records[..n], clusters, idx)
      + (if FirstCluster(clusters, records[n].va) == idx then [records[n]] else [])
  }

  function CycleOf(r: Record): int { r.cycle }
  function VaOf(r: Record): int { r.va }
  function CpuOf(r: Record): int { r.cpu }
  function IpOf(r: Record): int { r.ip }
  function EventOf(r: Record): int { r.event }

  /** The inner loop of `cluster_mem`: the first cluster whose range holds `a`. */
  method FindCluster(clusters: seq<Cluster>, a: int) returns (idx: nat)
    ensures idx == FirstCluster(clusters, a)
  {
    idx := 0;
    while idx < |clusters| && !(clusters[idx].start <= a <= clusters[idx].end)
      invariant idx <= |clusters|
      invariant forall j | 0 <= j < idx :: !In(a, clusters[j])
    {
      idx := idx + 1;
    }
    FirstClusterUnique(clusters, a, idx);
  }

  /** The first cluster holding `a` is the `idx` before which no cluster holds it and at which one does, if any. */
  lemma {:induction false} FirstClusterUnique(clusters: seq<Cluster>, a: int, idx: nat)
    requires idx <= |clusters|
    requires forall j | 0 <= j < idx :: !In(a, clusters[j])
    requires idx < |clusters| ==> In(a, clusters[idx])
    ensures idx == FirstCluster(clusters, a)
  {
    if |clusters| > 0 && idx > 0 {
      assert !In(a, clusters[0]);
      forall j | 0 <= j < idx - 1 ensures !In(a, clusters[1..][j]) {
        assert clusters[1..][j] == clusters[j + 1];
      }
      FirstClusterUnique(clusters[1..], a, idx - 1);
    }
  }

  lemma MapSnoc<A, B>(a: seq<A>, x: A, f: A -> B)
    ensures Map(a + [x], f) == Map(a, f) + [f(x)]
  {
  }

  /** The per-cluster lists: field `f` of the members of each cluster. */
  ghost predicate ListsOf(lists: seq<seq<int>>, records: seq<Record>, clusters: seq<Cluster>, f: Record -> int) {
    && |lists| == |clusters|
    && forall idx | 0 <= idx < |clusters| :: lists[idx] == Map(Members(records, clusters, idx), f)
  }

  /** Record `i` joins the members of its first cluster and of no other. */
  lemma MembersSnoc(records: seq<Record>, clusters: seq<Cluster>, i: nat, j: nat)
    requires i < |records|
    ensures Members(records[..i + 1], clusters, j)
            == Members(records[..i], clusters, j)
               + (if FirstCluster(clusters, records[i].va) == j then [records[i]] else [])
  {
    assert records[..i + 1][..i] == records[..i];
  }

  /** Appending field `f` of record `i` to the list of its cluster keeps the lists in step with the members. */
  lemma ListsAppend(lists: seq<seq<int>>, next: seq<seq<int>>, records: seq<Record>, clusters: seq<Cluster>,
                    f: Record -> int, i: nat)
    requires i < |records|
    requires ListsOf(lists, records[..i], clusters, f)
    requires var idx := FirstCluster(clusters, records[i].va);
             next == if idx < |clusters| then lists[idx := lists[idx] + [f(records[i])]] else lists
    ensures ListsOf(next, records[..i + 1], clusters, f)
  {
    var idx := FirstCluster(clusters, records[i].va);
    forall j | 0 <= j < |clusters| ensures next[j] == Map(Members(records[..i + 1], clusters, j), f) {
      MembersSnoc(records, clusters, i, j);
      if j == idx {
        MapSnoc(Members(records[..i], clusters, j), records[i], f);
      }
    }
  }

  /**
   * `cluster_mem`: five lists per cluster (cycles, addresses, cpus, ips,
   * events); each record goes to the first cluster whose range holds its
   * address, and a record no cluster holds is dropped.
   */
  method ClusterMem(records: seq<Record>, clusters: seq<Cluster>)
    returns (cycles: seq<seq<int>>, addrs: seq<seq<int>>, cpus: seq<seq<int>>,
             ips: seq<seq<int>>, events: seq<seq<int>>)
    ensures ListsOf(cycles, records, clusters, CycleOf)
    ensures ListsOf(addrs, records, clusters, VaOf)
    ensures ListsOf(cpus, records, clusters, CpuOf)
    ensures ListsOf(ips, records, clusters, IpOf)
    ensures ListsOf(events, records, clusters, EventOf)
  {
    var empty := seq(|clusters|, _ => []);
    cycles, addrs, cpus, ips, events := empty, empty, empty, empty, empty;
    for i := 0 to |records|
      invariant ListsOf(cycles, records[..i], clusters, CycleOf)
      invariant ListsOf(addrs, records[..i], clusters, VaOf)
      invariant ListsOf(cpus, records[..i], clusters, CpuOf)
      invariant ListsOf(ips, records[..i], clusters, IpOf)
      invariant ListsOf(events, records[..i], clusters, EventOf)
    {
      var r := records[i];
      var idx := FindCluster(clusters, r.va);
      var c0, a0, p0, i0, e0 := cycles, addrs, cpus, ips, events;
      if idx < |clusters| {
        cycles := cycles[idx := cycles[idx] + [r.cycle]];
        addrs := addrs[idx := addrs[idx] + [r.va]];
        cpus := cpus[idx := cpus[idx] + [r.cpu]];
        ips := ips[idx := ips[idx] + [r.ip]];
        events := events[idx := events[idx] + [r.event]];
      }
      ListsAppend(c0, cycles, records, clusters, CycleOf, i);
      ListsAppend(a0, addrs, records, clusters, VaOf, i);
      ListsAppend(p0, cpus, records, clusters, CpuOf, i);
      ListsAppend(i0, ips, records, clusters, IpOf, i);
      ListsAppend(e0, events, records, clusters, EventOf, i);
    }
    assert records[..|records|] == records;
  }

  /** The number of members of the clusters below `m`. */
  function MembersBelow(records: seq<Record>, clusters: seq<Cluster>, m: nat): nat {
    if m == 0 then 0 else MembersBelow(records, clusters, m - 1) + |Members(records, clusters, m - 1)|
  }

  /** The number of records some cluster holds. */
  function Assigned(records: seq<Record>, clusters: seq<Cluster>): nat {
    if |records| == 0 then 0
    else
      var n := |records| - 1;
      Assigned(records[..n], clusters) + (if FirstCluster(clusters, records[n].va) < |clusters| then 1 else 0)
  }

  lemma {:induction false} MembersBelowSnoc(records: seq<Record>, clusters: seq<Cluster>, m: nat)
    requires |records| > 0
    ensures var n := |records| - 1;
            MembersBelow(records, clusters, m)
            == MembersBelow(records[..n], clusters, m)
               + (if FirstCluster(clusters, records[n].va) < m then 1 else 0)
  {
    if m > 0 {
      MembersBelowSnoc(records, clusters, m - 1);
    }
  }

  /** The lists of all clusters together hold exactly the records some cluster holds. */
  lemma {:induction false} MembersPartitionAssigned(records: seq<Record>, clusters: seq<Cluster>)
    ensures MembersBelow(records, clusters, |clusters|) == Assigned(records, clusters)
  {
    if |records| == 0 {
      MembersBelowEmpty(records, clusters, |clusters|);
    } else {
      var n := |records| - 1;
      MembersPartitionAssigned(records[..n], clusters);
      MembersBelowSnoc(records, clusters, |clusters|);
    }
  }

  lemma {:induction false} MembersBelowEmpty(records: seq<Record>, clusters: seq<Cluster>, m: nat)
    requires |records| == 0
    ensures MembersBelow(records, clusters, m) == 0
  {
    if m > 0 {
      MembersBelowEmpty(records, clusters, m - 1);
    }
  }

  /** The addresses of the records. */
  function Vas(records: seq<Record>): (a: seq<int>)
    ensures |a| == |records|
    ensures forall i | 0 <= i < |records| :: a[i] == records[i].va
  {
    seq(|records|, i requires 0 <= i < |records| => records[i].va)
  }

  /** With clusters inferred from the records' own addresses, every record is held by some cluster. */
  lemma {:induction false} InferredClustersHoldAll(records: seq<Record>, all: seq<Record>, gap: int)
    requires |all| > 0
    requires forall i | 0 <= i < |records| :: records[i] in all
    ensures Assigned(records, InferredClusters(Vas(all), gap)) == |records|
  {
    if |records| > 0 {
      var n := |records| - 1;
      var c := InferredClusters(Vas(all), gap);
      InferredClustersHoldAll(records[..n], all, gap);
      var j :| 0 <= j < |all| && all[j] == records[n];
      assert records[n].va in Vas(all);
      EveryAddressInOneCluster(Vas(all), gap, records[n].va);
      var k :| 0 <= k < |c| && In(records[n].va, c[k]);
      assert FirstCluster(c, records[n].va) <= k;
    }
  }

  /**
   * With clusters inferred from the trace's own addresses, the per-cluster
   * lists have lengths summing to the number of records.
   */
  lemma ClusterSizesSumToTrace(records: seq<Record>, gap: int)
    requires |records| > 0
    ensures var c := InferredClusters(Vas(records), gap);
            MembersBelow(records, c, |c|) == |records|
  {
    MembersPartitionAssigned(records, InferredClusters(Vas(records), gap));
    InferredClustersHoldAll(records, records, gap);
  }

  // ---------------------------------------------------------------------
  // The size filter of the script's main block
  // ---------------------------------------------------------------------

  /** One cluster with its five record lists. */
  datatype Group = Group(cycles: seq<int>, addrs: seq<int>, cpus: seq<int>, ips: seq<int>,
                         events: seq<int>, cluster: Cluster)

  /** `zip(cluster_cycles, cluster_addresses, cluster_cpus, cluster_ips, cluster_events, clusters)`. */
  function ZipGroups(cycles: seq<seq<int>>, addrs: seq<seq<int>>, cpus: seq<seq<int>>,
                     ips: seq<seq<int>>, events: seq<seq<int>>, clusters: seq<Cluster>): (g: seq<Group>)
    ensures |g| == Shortest([|cycles|, |addrs|, |cpus|, |ips|, |events|, |clusters|])
    ensures |g| <= |cycles| && |g| <= |addrs| && |g| <= |cpus| && |g| <= |ips| && |g| <= |events| && |g| <= |clusters|
    ensures |g| == |cycles| || |g| == |addrs| || |g| == |cpus| || |g| == |ips| || |g| == |events| || |g| == |clusters|
    ensures forall k | 0 <= k < |g| :: g[k] == Group(cycles[k], addrs[k], cpus[k], ips[k], events[k], clusters[k])
  {
    var ns := [|cycles|, |addrs|, |cpus|, |ips|, |events|, |clusters|];
    var n := Shortest(ns);
    assert n <= ns[0] && n <= ns[1] && n <= ns[2] && n <= ns[3] && n <= ns[4] && n <= ns[5];
    seq(n, k requires 0 <= k < n => Group(cycles[k], addrs[k], cpus[k], ips[k], events[k], clusters[k]))
  }

  /** The least of the lengths `ns`: `zip` stops at the shortest input. */
  function Shortest(ns: seq<nat>): (m: nat)
    requires |ns| > 0
    ensures forall i | 0 <= i < |ns| :: m <= ns[i]
    ensures exists i | 0 <= i < |ns| :: m == ns[i]
  {
    if |ns| == 1 then ns[0] else var r := Shortest(ns[1..]); if ns[0] <= r then ns[0] else r
  }

  predicate Large(g: Group, minAccesses: int) { |g.addrs| >= minAccesses }

  /** The groups with at least `minAccesses` addresses, in their original order. */
  function KeepLarge(groups: seq<Group>, minAccesses: int): seq<Group> {
    if |groups| == 0 then []
    else
      var n := |groups| - 1;
      KeepLarge(groups[..n], minAccesses) + (if Large(groups[n], minAccesses) then [groups[n]] else [])
  }

  /** The indices of the groups with at least `minAccesses` addresses, increasing. */
  function KeptIndices(groups: seq<Group>, minAccesses: int): (idx: seq<nat>)
    ensures forall k | 0 <= k < |idx| :: idx[k] < |groups| && Large(groups[idx[k]], minAccesses)
    ensures forall a, b | 0 <= a < b < |idx| :: idx[a] < idx[b]
    ensures forall i | 0 <= i < |groups| && Large(groups[i], minAccesses) :: i in idx
  {
    if |groups| == 0 then []
    else
      var n := |groups| - 1;
      var rest := KeptIndices(groups[..n], minAccesses);
      if Large(groups[n], minAccesses) then rest + [n] else rest
  }

  /**
   * The filter keeps exactly the large groups, in their original order:
   * the k-th kept group is the group at the k-th large index.
   */
  lemma {:induction false} KeepLargeIsSubsequence(groups: seq<Group>, minAccesses: int)
    ensures var kept := KeepLarge(groups, minAccesses);
            var idx := KeptIndices(groups, minAccesses);
            |kept| == |idx| && forall k | 0 <= k < |kept| :: kept[k] == groups[idx[k]]
  {
    if |groups| > 0 {
      var n := |groups| - 1;
      var front := groups[..n];
      KeepLargeIsSubsequence(front, minAccesses);
      var kept0, idx0 := KeepLarge(front, minAccesses), KeptIndices(front, minAccesses);
      var kept, idx := KeepLarge(groups, minAccesses), KeptIndices(groups, minAccesses);
      forall k | 0 <= k < |kept0| ensures kept[k] == groups[idx[k]] {
        assert kept[k] == kept0[k] && idx[k] == idx0[k];
        assert front[idx0[k]] == groups[idx0[k]];
      }
    }
  }

  datatype FilterError = NoClusterPassed

  /**
   * The size filter: the groups with at least `minAccesses` addresses;
   * when none is left the script exits.
   */
  function FilterClusters(groups: seq<Group>, minAccesses: int): (r: Result<seq<Group>, FilterError>)
    ensures r.Err? <==> forall i | 0 <= i < |groups| :: !Large(groups[i], minAccesses)
    ensures r.Ok? ==> r.value == KeepLarge(groups, minAccesses) && |r.value| > 0
  {
    var kept := KeepLarge(groups, minAccesses);
    KeepLargeIsSubsequence(groups, minAccesses);
    var idx := KeptIndices(groups, minAccesses);
    assert |idx| > 0 ==> Large(groups[idx[0]], minAccesses);
    if |kept| == 0 then Err(NoClusterPassed) else Ok(kept)
  }
}
