/**
 * The access-history predictor: a ring of the `HISTORY_SIZE` most recently
 * recorded pages. When a page arrives and the ring is full, the oldest entry
 * first gathers its nearest neighbours among the others (by cycle distance)
 * into its fixed set of neighbour slots, and is then replaced by the new page.
 */
module PageHistory {
  import opened Pages

  /** `HISTORY_SIZE`. */
  const HistorySize: nat := 16

  /** The weights `calc_distance` gives each coordinate. */
  const VaWeight: nat := 0
  const CycWeight: nat := 1
  const IpWeight: nat := 0

  function Abs(x: int): nat {
    if x >= 0 then x else -x
  }

  /** The zero-weighted coordinates do not contribute to the weighted sum. */
  function WeightedDiff(aVa: int, aCyc: int, aIp: int, bVa: int, bCyc: int, bIp: int): (s: nat)
    ensures s == Abs(aCyc - bCyc)
  {
    Abs(aVa - bVa) * VaWeight + Abs(aCyc - bCyc) * CycWeight + Abs(aIp - bIp) * IpWeight
  }

  /** The coordinates `calc_distance` reads from a descriptor. */
  datatype Coord = Coord(va: int, cyc: int, ip: int)

  function CoordOf(p: Page): Coord
    reads p
  {
    Coord(p.va, p.cycAccessed, p.ip)
  }

  /**
   * `calc_distance(a, b)`: the weighted coordinate difference, or the running
   * average `avgDist` (a positive value) when that difference is zero. So the
   * distance is never zero, and only the access cycles matter.
   */
  function Distance(a: Coord, b: Coord, avgDist: real): (d: real)
    requires avgDist > 0.0
    ensures d > 0.0
    ensures a.cyc != b.cyc ==> d == Abs(a.cyc - b.cyc) as real
    ensures a.cyc == b.cyc ==> d == avgDist
  {
    var s := WeightedDiff(a.va, a.cyc, a.ip, b.va, b.cyc, b.ip);
    if s == 0 then avgDist else s as real
  }

  // ---------------------------------------------------------------------------
  // Neighbour slots
  // ---------------------------------------------------------------------------

  /** The index of the first empty slot among the first `n`, or `n` when there is none. */
  function FirstEmpty(s: seq<Neighbor>, n: nat): (k: nat)
    requires n <= |s|
    ensures k <= n
    ensures forall j | 0 <= j < k :: s[j].page != null
    ensures k < n ==> s[k].page == null
  {
    if n == 0 then 0
    else
      var k := FirstEmpty(s, n - 1);
      if k < n - 1 then k else if s[n - 1].page == null then n - 1 else n
  }

  /** The index of the first slot of greatest distance among the first `n`. */
  function FirstFurthest(s: seq<Neighbor>, n: nat): (k: nat)
    requires 0 < n <= |s|
    ensures k < n
    ensures forall j | 0 <= j < n :: s[j].distance <= s[k].distance
    ensures forall j | 0 <= j < k :: s[j].distance < s[k].distance
  {
    if n == 1 then 0
    else
      var k := FirstFurthest(s, n - 1);
      if s[n - 1].distance > s[k].distance then n - 1 else k
  }

  /** The slot a new neighbour may take: the first empty one, otherwise the first furthest. */
  function Candidate(s: seq<Neighbor>): (k: nat)
    requires |s| > 0
    ensures k < |s|
    ensures (exists j | 0 <= j < |s| :: s[j].page == null) ==>
              s[k].page == null && forall j | 0 <= j < k :: s[j].page != null
    ensures (forall j | 0 <= j < |s| :: s[j].page != null) ==>
              && (forall j | 0 <= j < |s| :: s[j].distance <= s[k].distance)
              && (forall j | 0 <= j < k :: s[j].distance < s[k].distance)
  {
    var e := FirstEmpty(s, |s|);
    if e < |s| then e else FirstFurthest(s, |s|)
  }

  /**
   * Offering `cur` at `distance`: the candidate slot takes it when that slot's
   * distance is zero or larger than `distance`; otherwise nothing changes.
   */
  function Offer(s: seq<Neighbor>, cur: Page, distance: real, timeDiff: int): (r: seq<Neighbor>)
    requires |s| > 0
    ensures |r| == |s|
    ensures forall j | 0 <= j < |s| && j != Candidate(s) :: r[j] == s[j]
    ensures var k := Candidate(s);
            r[k] == (if s[k].distance == 0.0 || distance < s[k].distance then Neighbor(cur, distance, timeDiff) else s[k])
  {
    var k := Candidate(s);
    if s[k].distance == 0.0 || distance < s[k].distance then s[k := Neighbor(cur, distance, timeDiff)] else s
  }

  /** Empty slots are zeroed and occupied slots hold a positive distance. */
  predicate SlotsClean(s: seq<Neighbor>) {
    forall j | 0 <= j < |s| ::
      && (s[j].page == null ==> s[j].distance == 0.0 && s[j].timeDiff == 0)
      && (s[j].page != null ==> s[j].distance > 0.0)
  }

  /** With clean slots, the zero-distance test of the candidate is exactly the empty-slot test. */
  lemma ZeroDistanceMeansEmpty(s: seq<Neighbor>)
    requires |s| > 0 && SlotsClean(s)
    ensures s[Candidate(s)].distance == 0.0 <==> s[Candidate(s)].page == null
  {
  }

  /** While a slot is empty, an offer fills the first empty slot. */
  lemma OfferFillsFirstEmpty(s: seq<Neighbor>, cur: Page, distance: real, timeDiff: int)
    requires |s| > 0 && SlotsClean(s) && FirstEmpty(s, |s|) < |s|
    ensures Offer(s, cur, distance, timeDiff) == s[FirstEmpty(s, |s|) := Neighbor(cur, distance, timeDiff)]
  {
    assert s[FirstEmpty(s, |s|)].page == null;
  }

  /**
   * With every slot taken, a closer page replaces the first furthest one, so
   * no slot ends up further away than the furthest was; a page no closer than
   * the furthest leaves the slots alone.
   */
  lemma OfferReplacesFurthest(s: seq<Neighbor>, cur: Page, distance: real, timeDiff: int)
    requires |s| > 0 && SlotsClean(s) && distance > 0.0
    requires forall j | 0 <= j < |s| :: s[j].page != null
    ensures var k := FirstFurthest(s, |s|);
            var r := Offer(s, cur, distance, timeDiff);
            && (distance < s[k].distance ==> r == s[k := Neighbor(cur, distance, timeDiff)])
            && (distance >= s[k].distance ==> r == s)
            && (forall j | 0 <= j < |r| :: r[j].distance <= s[k].distance)
  {
    assert FirstEmpty(s, |s|) == |s|;
  }

  /** Offering a page at a positive distance keeps the slots clean. */
  lemma OfferKeepsClean(s: seq<Neighbor>, cur: Page, distance: real, timeDiff: int)
    requires |s| > 0 && SlotsClean(s) && distance > 0.0
    ensures SlotsClean(Offer(s, cur, distance, timeDiff))
  {
  }

  /**
   * The slots of `oldPage` (at coordinates `oldAt`) after `update_neighbors`
   * has offered it the first `n` history entries `hist` (at coordinates `at`),
   * skipping `oldPage` itself.
   */
  function OfferAll(s: seq<Neighbor>, oldPage: Page, oldAt: Coord, hist: seq<Page?>, at: seq<Coord>, n: nat, avgDist: real): (r: seq<Neighbor>)
    requires |s| > 0 && n <= |hist| == |at| && avgDist > 0.0
    requires forall k | 0 <= k < |hist| :: hist[k] != null
    ensures |r| == |s|
  {
    if n == 0 then s
    else
      var r := OfferAll(s, oldPage, oldAt, hist, at, n - 1, avgDist);
      var cur := hist[n - 1];
      if cur == oldPage then r
      else Offer(r, cur, Distance(oldAt, at[n - 1], avgDist), at[n - 1].cyc - oldAt.cyc)
  }

  /** Offering one more history entry: skipped when it is the page itself, offered otherwise. */
  lemma OfferAllStep(s: seq<Neighbor>, oldPage: Page, oldAt: Coord, hist: seq<Page?>, at: seq<Coord>, n: nat, avgDist: real)
    requires |s| > 0 && n < |hist| == |at| && avgDist > 0.0
    requires forall k | 0 <= k < |hist| :: hist[k] != null
    ensures var r := OfferAll(s, oldPage, oldAt, hist, at, n, avgDist);
            OfferAll(s, oldPage, oldAt, hist, at, n + 1, avgDist)
            == if hist[n] == oldPage then r
               else Offer(r, hist[n], Distance(oldAt, at[n], avgDist), at[n].cyc - oldAt.cyc)
  {
  }

  /** No page ever becomes its own neighbour. */
  predicate NotOwnNeighbor(s: seq<Neighbor>, p: Page) {
    forall j | 0 <= j < |s| :: s[j].page != p
  }

  /**
   * `update_neighbors` keeps the slots clean (so its assertions that the
   * distance is non-zero and that empty slots are zeroed hold) and never makes
   * a page its own neighbour.
   */
  lemma {:induction false} OfferAllInvariant(s: seq<Neighbor>, oldPage: Page, oldAt: Coord, hist: seq<Page?>, at: seq<Coord>, n: nat, avgDist: real)
    requires |s| > 0 && n <= |hist| == |at| && avgDist > 0.0
    requires forall k | 0 <= k < |hist| :: hist[k] != null
    requires SlotsClean(s) && NotOwnNeighbor(s, oldPage)
    ensures SlotsClean(OfferAll(s, oldPage, oldAt, hist, at, n, avgDist))
    ensures NotOwnNeighbor(OfferAll(s, oldPage, oldAt, hist, at, n, avgDist), oldPage)
  {
    if n > 0 {
      OfferAllInvariant(s, oldPage, oldAt, hist, at, n - 1, avgDist);
      var r := OfferAll(s, oldPage, oldAt, hist, at, n - 1, avgDist);
      var cur := hist[n - 1];
      if cur != oldPage {
        OfferKeepsClean(r, cur, Distance(oldAt, at[n - 1], avgDist), at[n - 1].cyc - oldAt.cyc);
      }
    }
  }

  /** The candidate-slot search of `update_neighbors` (the loop over `MAX_NEIGHBORS`). */
  method FindCandidate(slots: array<Neighbor>) returns (idx: nat)
    requires slots.Length > 0
    ensures idx == Candidate(slots[..])
  {
    ghost var s := slots[..];
    var furthest: int := -1;
    for j := 0 to slots.Length
      invariant forall t | 0 <= t < j :: s[t].page != null
      invariant j == 0 <==> furthest == -1
      invariant j > 0 ==> furthest == FirstFurthest(s, j)
    {
      if slots[j].page == null {
        assert FirstEmpty(s, j + 1) == j by {
          FirstEmptyNone(s, j);
        }
        FirstEmptyStays(s, j + 1, |s|);
        return j;
      }
      if furthest == -1 || slots[j].distance > slots[furthest].distance {
        furthest := j;
      }
    }
    FirstEmptyNone(s, |s|);
    idx := furthest;
  }

  /** The body of `update_neighbors`' loop once the distance is known: offer `cur` to the candidate slot. */
  method OfferSlot(slots: array<Neighbor>, cur: Page, distance: real, timeDiff: int)
    requires slots.Length > 0
    modifies slots
    ensures slots[..] == Offer(old(slots[..]), cur, distance, timeDiff)
  {
    var k := FindCandidate(slots);
    if slots[k].distance == 0.0 || distance < slots[k].distance {
      slots[k] := Neighbor(cur, distance, timeDiff);
    }
  }

  /** One turn of `update_neighbors`: history entry `i`, unless it is the page itself, is offered to its slots. */
  method OfferEntry(oldPage: Page, cur: Page, avgDist: real, ghost s0: seq<Neighbor>, ghost oldAt: Coord,
                    ghost hist: seq<Page?>, ghost at: seq<Coord>, ghost i: nat)
    requires avgDist > 0.0 && |s0| > 0 && i < |hist| == |at|
    requires forall k | 0 <= k < |hist| :: hist[k] != null
    requires hist[i] == cur && at[i] == CoordOf(cur) && CoordOf(oldPage) == oldAt
    requires oldPage.neighbors[..] == OfferAll(s0, oldPage, oldAt, hist, at, i, avgDist)
    modifies oldPage.neighbors
    ensures oldPage.neighbors[..] == OfferAll(s0, oldPage, oldAt, hist, at, i + 1, avgDist)
  {
    OfferAllStep(s0, oldPage, oldAt, hist, at, i, avgDist);
    if cur == oldPage {
      return;
    }
    var distance := Distance(CoordOf(oldPage), CoordOf(cur), avgDist);
    var timeDiff := cur.cycAccessed - oldPage.cycAccessed;
    OfferSlot(oldPage.neighbors, cur, distance, timeDiff);
  }

  lemma FirstEmptyNone(s: seq<Neighbor>, n: nat)
    requires n <= |s| && forall t | 0 <= t < n :: s[t].page != null
    ensures FirstEmpty(s, n) == n
  {
  }

  lemma {:induction false} FirstEmptyStays(s: seq<Neighbor>, n: nat, m: nat)
    requires n <= m <= |s| && FirstEmpty(s, n) < n
    ensures FirstEmpty(s, m) == FirstEmpty(s, n)
    decreases m - n
  {
    if n < m {
      FirstEmptyStays(s, n, m - 1);
    }
  }

  // ---------------------------------------------------------------------------
  // The history ring
  // ---------------------------------------------------------------------------

  /** `page_history` and `page_his_idx`. */
  class History {
    const slots: array<Page?>
    var idx: nat
    /** How many slots are filled; the ring fills from slot 0 up. */
    ghost var count: nat
    /** `MAX_NEIGHBORS`: the neighbour slots of every recorded page. */
    const maxNeighbors: nat

    ghost predicate Valid()
      reads this, slots
    {
      && slots.Length == HistorySize
      && idx < HistorySize && count <= HistorySize && maxNeighbors > 0
      && (count < HistorySize ==> idx == count)
      && (count == HistorySize ==> idx == 0)
      && (forall k | 0 <= k < HistorySize :: (slots[k] != null <==> k < count))
      && (forall k | 0 <= k < HistorySize && slots[k] != null :: slots[k].neighbors.Length == maxNeighbors)
    }

    /** The empty history: every slot NULL and `page_his_idx == 0`. */
    constructor (maxNeighbors: nat)
      requires maxNeighbors > 0
      ensures Valid() && fresh(slots) && count == 0 && idx == 0
      ensures this.maxNeighbors == maxNeighbors
    {
      slots := new Page?[HistorySize](_ => null);
      idx := 0;
      count := 0;
      this.maxNeighbors := maxNeighbors;
    }

    /** The coordinates of the filled entries, in slot order. */
    ghost function Coords(): (at: seq<Coord>)
      requires Valid() && count == HistorySize
      reads this, slots, set k | 0 <= k < slots.Length && slots[k] != null :: slots[k]
      ensures |at| == HistorySize
      ensures forall k | 0 <= k < HistorySize :: at[k] == CoordOf(slots[k])
    {
      seq(HistorySize, k requires 0 <= k < slots.Length && slots[k] != null reads slots, if 0 <= k < slots.Length then {slots[k]} else {} => CoordOf(slots[k]))
    }

    /**
     * `update_neighbors(old_page)`: each other history entry is offered to
     * `oldPage`'s neighbour slots, in slot order. Nothing but those slots changes.
     */
    method UpdateNeighbors(oldPage: Page, avgDist: real)
      requires Valid() && count == HistorySize && avgDist > 0.0
      requires oldPage.neighbors.Length == maxNeighbors
      modifies oldPage.neighbors
      ensures oldPage.neighbors[..] == OfferAll(old(oldPage.neighbors[..]), oldPage, old(CoordOf(oldPage)), old(slots[..]), old(Coords()), HistorySize, avgDist)
    {
      ghost var s0 := oldPage.neighbors[..];
      ghost var hist := slots[..];
      ghost var at := Coords();
      ghost var oldAt := CoordOf(oldPage);
      for i := 0 to HistorySize
        invariant slots[..] == hist && CoordOf(oldPage) == oldAt
        invariant oldPage.neighbors[..] == OfferAll(s0, oldPage, oldAt, hist, at, i, avgDist)
      {
        var cur := slots[i];
        assert cur == hist[i] && at[i] == CoordOf(cur);
        OfferEntry(oldPage, cur, avgDist, s0, oldAt, hist, at, i);
      }
    }

    /** The scan for the entry with the smallest access cycle, starting from `page_his_idx`. */
    method Oldest() returns (m: nat)
      requires Valid() && count == HistorySize
      ensures m < HistorySize
      ensures forall k | 0 <= k < HistorySize :: slots[m].cycAccessed <= slots[k].cycAccessed
    {
      m := idx;
      for i := 0 to HistorySize
        invariant m < HistorySize
        invariant forall k | 0 <= k < i :: slots[m].cycAccessed <= slots[k].cycAccessed
      {
        if slots[i].cycAccessed < slots[m].cycAccessed {
          m := i;
        }
      }
    }

    /**
     * `algo_add_page(page)`. While the ring is not full, the page fills the
     * slot at `page_his_idx`, which advances modulo `HISTORY_SIZE`. Once it is
     * full, an entry with the smallest access cycle updates its neighbours and
     * is replaced by the page; every other entry and `page_his_idx` stay.
     */
    method AddPage(page: Page, avgDist: real) returns (ghost replaced: nat)
      requires Valid() && avgDist > 0.0 && page.neighbors.Length == maxNeighbors
      modifies this, slots, set k | 0 <= k < slots.Length && slots[k] != null :: slots[k].neighbors
      ensures Valid() && replaced < HistorySize
      ensures old(count) < HistorySize ==>
                && replaced == old(idx)
                && slots[..] == old(slots[..])[replaced := page]
                && idx == (old(idx) + 1) % HistorySize
                && count == old(count) + 1
      ensures old(count) == HistorySize ==>
                var oldPage := old(slots[replaced]);
                && oldPage != null
                && (forall k | 0 <= k < HistorySize :: oldPage.cycAccessed <= old(slots[k]).cycAccessed)
                && slots[..] == old(slots[..])[replaced := page]
                && idx == old(idx) && count == HistorySize
                && oldPage.neighbors[..] == OfferAll(old(oldPage.neighbors[..]), oldPage, old(CoordOf(oldPage)), old(slots[..]), old(Coords()), HistorySize, avgDist)
      ensures forall k | 0 <= k < HistorySize && old(slots[k]) != null && (old(count) < HistorySize || old(slots[k]).neighbors != old(slots[replaced]).neighbors) ::
                old(slots[k]).neighbors[..] == old(slots[k].neighbors[..])
    {
      var oldPage := slots[idx];
      if oldPage == null {
        replaced := idx;
        slots[idx] := page;
        idx := (idx + 1) % HistorySize;
        count := count + 1;
        return;
      }
      replaced := ReplaceOldest(page, avgDist);
    }

    /**
     * The full-ring branch of `algo_add_page`: an entry with the smallest
     * access cycle updates its neighbours, then the page takes its slot.
     */
    method ReplaceOldest(page: Page, avgDist: real) returns (replaced: nat)
      requires Valid() && count == HistorySize && avgDist > 0.0 && page.neighbors.Length == maxNeighbors
      modifies slots, set k | 0 <= k < slots.Length && slots[k] != null :: slots[k].neighbors
      ensures Valid() && replaced < HistorySize
      ensures var oldPage := old(slots[replaced]);
              && oldPage != null
              && (forall k | 0 <= k < HistorySize :: oldPage.cycAccessed <= old(slots[k]).cycAccessed)
              && slots[..] == old(slots[..])[replaced := page]
              && oldPage.neighbors[..] == OfferAll(old(oldPage.neighbors[..]), oldPage, old(CoordOf(oldPage)), old(slots[..]), old(Coords()), HistorySize, avgDist)
      ensures forall k | 0 <= k < HistorySize && old(slots[k]).neighbors != old(slots[replaced]).neighbors ::
                old(slots[k]).neighbors[..] == old(slots[k].neighbors[..])
    {
      var m := Oldest();
      var oldPage := slots[m];
      UpdateNeighbors(oldPage, avgDist);
      slots[m] := page;
      replaced := m;
    }
  }

  /** `algo_predict_page`: it returns NULL before any of its prediction logic runs. */
  method PredictPage(page: Page?) returns (predicted: Page?)
    ensures predicted == null
  {
    return null;
  }
}
