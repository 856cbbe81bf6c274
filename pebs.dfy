/**
 * The sampling side of the tiering runtime: reading one PEBS record out of a
 * perf ring buffer, the heat counter of a descriptor with its periodic
 * cooling, the hot and cold FIFO lists the migrate thread consumes, and what
 * a completed migration does to a descriptor.
 */
module Pebs {
  import opened Pages
  import opened Outcomes
  import Tmem

  /** 2^64: the ring positions and the cycle counter are unsigned 64-bit values. */
  const Word: nat := Tmem.Word

  // ---------------------------------------------------------------------------
  // Bit arithmetic on the ring offsets
  // ---------------------------------------------------------------------------

  predicate IsPow2(n: nat)
    decreases n
  {
    n == 1 || (n > 1 && n % 2 == 0 && IsPow2(n / 2))
  }

  /** `x & y` on unsigned integers, bit by bit from the least significant. */
  function BitAnd(x: nat, y: nat): nat
    decreases x
  {
    if x == 0 || y == 0 then 0
    else 2 * BitAnd(x / 2, y / 2) + (if x % 2 == 1 && y % 2 == 1 then 1 else 0)
  }

  lemma {:induction false} MulAtLeast(d: nat, k: nat)
    requires k >= 1
    ensures d * k >= d
    decreases k
  {
    if k > 1 {
      MulAtLeast(d, k - 1);
      assert d * k == d * (k - 1) + d;
    }
  }

  lemma MulSmall(d: nat, k: nat)
    requires d > 0 && d * k < d
    ensures k == 0
  {
    if k >= 1 {
      MulAtLeast(d, k);
    }
  }

  lemma ModUnique(x: int, d: int, q: int, r: int)
    requires 0 < d && x == d * q + r && 0 <= r < d
    ensures x / d == q && x % d == r
  {
    var q0, r0 := x / d, x % d;
    assert x == d * q0 + r0;
    if q >= q0 {
      assert d * (q - q0) == r0 - r;
      MulSmall(d, q - q0);
    } else {
      assert d * (q0 - q) == r - r0;
      MulSmall(d, q0 - q);
    }
  }

  lemma ModOfDouble(x: nat, h: nat)
    requires 0 < h
    ensures x % (2 * h) == 2 * ((x / 2) % h) + x % 2
  {
    var q := (x / 2) / h;
    var r := (x / 2) % h;
    assert x / 2 == h * q + r;
    assert x == 2 * (x / 2) + x % 2;
    assert 2 * (h * q) == (2 * h) * q;
    ModUnique(x, 2 * h, q, 2 * r + x % 2);
  }

  /** With `data_size` a power of two, `tail & (data_size - 1)` is the offset `tail mod data_size`. */
  lemma {:induction false} MaskIsRemainder(x: nat, n: nat)
    requires IsPow2(n)
    ensures BitAnd(x, n - 1) == x % n
    decreases n
  {
    if n == 1 {
      assert BitAnd(x, 0) == 0;
    } else {
      var h := n / 2;
      MaskIsRemainder(x / 2, h);
      assert (n - 1) / 2 == h - 1 && (n - 1) % 2 == 1;
      if x == 0 {
        assert BitAnd(x, n - 1) == 0;
      } else {
        assert BitAnd(x, n - 1) == 2 * BitAnd(x / 2, h - 1) + x % 2;
      }
      assert n == 2 * h;
      ModOfDouble(x, h);
    }
  }

  // ---------------------------------------------------------------------------
  // read_perf_sample
  // ---------------------------------------------------------------------------

  /** Record types of the Linux perf ABI: `PERF_RECORD_THROTTLE`, `PERF_RECORD_UNTHROTTLE`, `PERF_RECORD_SAMPLE`. */
  const KindThrottle: nat := 5
  const KindUnthrottle: nat := 6
  const KindSample: nat := 9
  /** `sizeof(struct perf_event_header)`: a 4-byte type, a 2-byte misc and a 2-byte size. */
  const HeaderSize: nat := 8
  /** `sizeof(struct perf_sample)`: ip, addr and time, 8 bytes each. */
  const SampleSize: nat := 24
  /** `sizeof(hdr_tmp)`: the split-header test measures a pointer variable, 8 bytes. */
  const PointerSize: nat := 8

  /** The header of the record at the tail: its `type` and its 16-bit `size`. */
  datatype Header = Header(kind: nat, size: nat)
  /** `struct perf_sample`. */
  datatype PerfSample = PerfSample(ip: nat, addr: nat, time: nat)
  /** `{ .addr = 0 }`: the value returned when no sample was read. */
  const NoSample: PerfSample := PerfSample(0, 0, 0)
  /** `struct pebs_rec`, the record appended to the trace file. */
  datatype PebsRec = PebsRec(va: nat, ip: nat, cyc: nat, cpu: nat, evt: nat)

  /** The counters of `pebs_stats` that the reader updates. */
  datatype Stats = Stats(throttles: nat, unthrottles: nat, unknownSamples: nat,
                         wrappedHeaders: nat, wrappedRecords: nat)

  const ZeroStats: Stats := Stats(0, 0, 0, 0, 0)

  /** The reader's view of a perf mmap page: `data_size`, `data_head` and `data_tail`. */
  datatype Ring = Ring(dataSize: nat, head: nat, tail: nat)
  {
    predicate Valid() {
      dataSize < Word && head < Word && tail < Word && (dataSize == 0 || IsPow2(dataSize))
    }
  }

  /** What one read leaves behind: the new `data_tail`, the counters and the returned sample. */
  datatype Step = Step(tail: nat, stats: Stats, rec: PerfSample)

  /** Bytes published by the kernel and not yet consumed, `head - tail` in 64 bits. */
  function Avail(head: nat, tail: nat): nat
    requires head < Word && tail < Word
  {
    (head - tail) % Word
  }

  /** The counter a contiguous record of type `kind` bumps; a sample bumps none. */
  function Counted(st: Stats, kind: nat): Stats {
    if kind == KindSample then st
    else if kind == KindThrottle then st.(throttles := st.throttles + 1)
    else if kind == KindUnthrottle then st.(unthrottles := st.unthrottles + 1)
    else st.(unknownSamples := st.unknownSamples + 1)
  }

  /** The record at the tail is consumed: it is non-empty and fully published. */
  predicate Consumes(ring: Ring, hdr: Header)
    requires ring.Valid()
  {
    ring.dataSize != 0 && ring.head != ring.tail && Avail(ring.head, ring.tail) >= HeaderSize
    && hdr.size != 0 && Avail(ring.head, ring.tail) >= hdr.size
  }

  /**
   * One call of `read_perf_sample` on a mapped buffer whose tail record has
   * header `hdr` and, if it is a sample, body `body`. The header itself is
   * read whole; when it straddles the end of the buffer only the
   * `wrapped_headers` counter records that.
   */
  function ReadStep(ring: Ring, hdr: Header, body: PerfSample, stats: Stats): Step
    requires ring.Valid()
  {
    if ring.dataSize == 0 || ring.head == ring.tail || Avail(ring.head, ring.tail) < HeaderSize then
      Step(ring.tail, stats, NoSample)
    else
      var idx := ring.tail % ring.dataSize;
      var st := if idx + PointerSize <= ring.dataSize then stats
                else stats.(wrappedHeaders := stats.wrappedHeaders + 1);
      if hdr.size == 0 || Avail(ring.head, ring.tail) < hdr.size then
        Step(ring.tail, st, NoSample)
      else if idx + hdr.size <= ring.dataSize then
        var rec := if hdr.kind == KindSample && hdr.size == HeaderSize + SampleSize then body else NoSample;
        Step((ring.tail + hdr.size) % Word, Counted(st, hdr.kind), rec)
      else
        Step((ring.tail + hdr.size) % Word, st.(wrappedRecords := st.wrappedRecords + 1), NoSample)
  }

  /**
   * The tail stays put exactly when nothing is consumed; otherwise it moves
   * on by the record size, modulo 2^64.
   */
  lemma ReadStepTail(ring: Ring, hdr: Header, body: PerfSample, stats: Stats)
    requires ring.Valid() && hdr.size < 0x1_0000
    ensures var s := ReadStep(ring, hdr, body, stats);
            && (s.tail == ring.tail <==> !Consumes(ring, hdr))
            && (Consumes(ring, hdr) ==> s.tail == (ring.tail + hdr.size) % Word)
  {
    var s := ReadStep(ring, hdr, body, stats);
    if Consumes(ring, hdr) {
      var t := ring.tail + hdr.size;
      assert 0 < hdr.size < Word;
      if t < Word {
        assert t % Word == t;
      } else {
        ModUnique(t, Word, 1, t - Word);
        assert t % Word == t - Word < ring.tail;
      }
    }
  }

  /** Consuming a record shrinks the published backlog by exactly its size: the reader never passes `data_head`. */
  lemma AvailAfterConsume(head: nat, tail: nat, size: nat)
    requires head < Word && tail < Word && 0 < size <= Avail(head, tail)
    ensures (tail + size) % Word < Word
    ensures Avail(head, (tail + size) % Word) == Avail(head, tail) - size
  {
    var a := Avail(head, tail);
    if head >= tail {
      ModUnique(head - tail, Word, 0, head - tail);
      assert tail + size <= head < Word;
      ModUnique(tail + size, Word, 0, tail + size);
      ModUnique(head - (tail + size), Word, 0, a - size);
    } else {
      ModUnique(head - tail, Word, -1, head - tail + Word);
      assert a == head - tail + Word;
      if tail + size < Word {
        ModUnique(tail + size, Word, 0, tail + size);
        ModUnique(head - (tail + size), Word, -1, a - size);
      } else {
        ModUnique(tail + size, Word, 1, tail + size - Word);
        ModUnique(head - (tail + size - Word), Word, 0, a - size);
      }
    }
  }

  /**
   * A sample comes back exactly when a contiguous `PERF_RECORD_SAMPLE` of
   * header plus 24 bytes with a non-zero address is consumed, and it is then
   * that record's body.
   */
  lemma ReadStepSample(ring: Ring, hdr: Header, body: PerfSample, stats: Stats)
    requires ring.Valid()
    ensures var s := ReadStep(ring, hdr, body, stats);
            && (s.rec.addr != 0 <==>
                  && Consumes(ring, hdr) && ring.tail % ring.dataSize + hdr.size <= ring.dataSize
                  && hdr.kind == KindSample && hdr.size == HeaderSize + SampleSize && body.addr != 0)
            && (s.rec.addr != 0 ==> s.rec == body)
  {
  }

  /** A consumed record that runs past the end of the buffer is dropped and counted in `wrapped_records`. */
  lemma ReadStepDropsWrapped(ring: Ring, hdr: Header, body: PerfSample, stats: Stats)
    requires ring.Valid() && Consumes(ring, hdr)
    requires ring.tail % ring.dataSize + hdr.size > ring.dataSize
    ensures var s := ReadStep(ring, hdr, body, stats);
            && s.rec == NoSample
            && s.stats.wrappedRecords == stats.wrappedRecords + 1
            && s.stats.throttles == stats.throttles && s.stats.unthrottles == stats.unthrottles
            && s.stats.unknownSamples == stats.unknownSamples
  {
  }

  class PerfBuffer {
    var head: nat
    var tail: nat
    const dataSize: nat

    function State(): Ring
      reads this
    {
      Ring(dataSize, head, tail)
    }
  }

  // ---------------------------------------------------------------------------
  // Heat and cooling
  // ---------------------------------------------------------------------------

  function Pow2(d: nat): (r: nat)
    ensures r > 0
  {
    if d == 0 then 1 else 2 * Pow2(d - 1)
  }

  /** `accesses >>= elapsed` on the heat counter. */
  function Cool(accesses: nat, elapsed: nat): (r: nat)
    ensures r <= accesses
  {
    var m := Pow2(elapsed);
    DivAtMost(accesses, m);
    accesses / m
  }

  lemma DivAtMost(a: nat, m: nat)
    requires m > 0
    ensures 0 <= a / m <= a
  {
    var q := a / m;
    assert a == m * q + a % m;
    if q >= 1 {
      MulAtLeast(q, m);
      assert q * m == m * q;
    }
  }

  /** The counter after one access, and whether it makes a hot or a cold request. */
  datatype Heat = Heat(accesses: nat, hot: bool)

  /** The order of `process_perf_buffer`: cool by the elapsed clock, count the access, then decide. */
  function ReferenceHeat(accesses: nat, elapsed: nat, threshold: nat): Heat {
    var a := Cool(accesses, elapsed) + 1;
    Heat(a, a >= threshold)
  }

  /** The order of the scan loop: count the access, decide, then cool. */
  function LiveHeat(accesses: nat, elapsed: nat, threshold: nat): Heat {
    var a := accesses + 1;
    Heat(Cool(a, elapsed), a >= threshold)
  }

  lemma DivStep(a: nat, m: nat)
    requires m > 0
    ensures (a + 1) / m <= a / m + 1
  {
    var q := a / m;
    var r := a % m;
    assert a == m * q + r;
    if r + 1 < m {
      ModUnique(a + 1, m, q, r + 1);
    } else {
      assert a + 1 == m * (q + 1) + 0;
      ModUnique(a + 1, m, q + 1, 0);
    }
  }

  /** Deciding before cooling never misses a page the reference order calls hot. */
  lemma LiveHotWhenReferenceHot(accesses: nat, elapsed: nat, threshold: nat)
    ensures ReferenceHeat(accesses, elapsed, threshold).hot ==> LiveHeat(accesses, elapsed, threshold).hot
  {
    assert Cool(accesses, elapsed) <= accesses;
  }

  /** ... but the live order keeps no more heat than the reference order does. */
  lemma LiveKeepsNoMoreHeat(accesses: nat, elapsed: nat, threshold: nat)
    ensures LiveHeat(accesses, elapsed, threshold).accesses <= ReferenceHeat(accesses, elapsed, threshold).accesses
  {
    DivStep(accesses, Pow2(elapsed));
  }

  /** When the page was cooled at the current clock the two orders agree. */
  lemma HeatOrdersAgreeWhenCurrent(accesses: nat, threshold: nat)
    ensures LiveHeat(accesses, 0, threshold) == ReferenceHeat(accesses, 0, threshold)
  {
    assert Pow2(0) == 1;
  }

  /** A page whose stale heat has not been cooled yet can be called hot by the live order alone. */
  lemma LiveOrderPromotesStaleHeat()
    ensures LiveHeat(1, 1, 2).hot && !ReferenceHeat(1, 1, 2).hot
  {
    assert Pow2(1) == 2;
  }

  /**
   * The cooling clock: `global_clock` advances by one when more than
   * `CYC_COOL_THRESHOLD` cycles (in 64-bit unsigned arithmetic) have passed
   * since `last_cyc_cool`, which then becomes the current cycle count.
   */
  function ClockStep(clock: nat, lastCool: nat, now: nat, threshold: nat): (r: (nat, nat))
    ensures r.0 == clock + 1 <==> (now - lastCool) % Word > threshold
    ensures r.0 == clock ==> r.1 == lastCool
    ensures r.0 == clock + 1 ==> r.1 == now
  {
    if (now - lastCool) % Word > threshold then (clock + 1, now) else (clock, lastCool)
  }

  // ---------------------------------------------------------------------------
  // Hot and cold FIFO lists
  // ---------------------------------------------------------------------------

  /** `s` without `p`. */
  function Without(s: seq<Page>, p: Page): (r: seq<Page>)
    ensures forall i | 0 <= i < |r| :: r[i] in s && r[i] != p
    ensures forall i | 0 <= i < |s| && s[i] != p :: s[i] in r
    ensures Tmem.Distinct(s) ==> Tmem.Distinct(r)
    ensures p !in s ==> r == s
  {
    if s == [] then []
    else if s[0] == p then Without(s[1..], p)
    else
      var rest := Without(s[1..], p);
      assert Tmem.Distinct(s) ==> s[0] !in s[1..] && Tmem.Distinct(s[1..]);
      [s[0]] + rest
  }

  /** The contents of `hot_list` and `cold_list`, head first. */
  datatype Queues = Queues(hot: seq<Page>, cold: seq<Page>)

  /** The fields of a descriptor the list requests read and write. */
  datatype Status = Status(hot: bool, list: ListTag, inDram: int, free: bool)

  function StatusOf(p: Page): Status
    reads p
  {
    Status(p.hot, p.list, p.inDram, p.free)
  }

  /**
   * `make_hot_request` on a descriptor: a freed descriptor is left alone;
   * otherwise it is marked hot, and a remote one not yet on the hot list is
   * taken off the cold list (when tagged so) and appended to the hot list.
   */
  function HotRequest(q: Queues, p: Page, s: Status, cfg: Config): (Queues, Status) {
    if s.free then (q, s)
    else if s.list != OnHot && s.inDram == cfg.inRem then
      (Queues(q.hot + [p], if s.list == OnCold then Without(q.cold, p) else q.cold),
       s.(hot := true, list := OnHot))
    else (q, s.(hot := true))
  }

  /** `make_cold_request`: the mirror image, for descriptors in DRAM and the cold list. */
  function ColdRequest(q: Queues, p: Page, s: Status, cfg: Config): (Queues, Status) {
    if s.free then (q, s)
    else if s.list != OnCold && s.inDram == cfg.inDram then
      (Queues(if s.list == OnHot then Without(q.hot, p) else q.hot, q.cold + [p]),
       s.(hot := false, list := OnCold))
    else (q, s.(hot := false))
  }

  /**
   * `tmem_migrate_page` once `mbind` has returned: success towards the DRAM
   * node makes the descriptor a hot DRAM page at the tail of the hot list;
   * success towards any other node makes it a cold remote page; a failed
   * `mbind` changes nothing.
   */
  function Migrate(q: Queues, p: Page, s: Status, cfg: Config, node: int, moved: bool): (Queues, Status) {
    if !moved then (q, s)
    else if node == cfg.dramNode then
      (Queues(q.hot + [p], q.cold), s.(inDram := cfg.inDram, hot := true, list := OnHot))
    else (q, s.(inDram := cfg.inRem, hot := false))
  }

  /** A second hot request right after the first changes nothing. */
  lemma HotRequestIdempotent(q: Queues, p: Page, s: Status, cfg: Config)
    ensures var (q1, s1) := HotRequest(q, p, s, cfg);
            HotRequest(q1, p, s1, cfg) == (q1, s1)
  {
  }

  /** A second cold request right after the first changes nothing. */
  lemma ColdRequestIdempotent(q: Queues, p: Page, s: Status, cfg: Config)
    ensures var (q1, s1) := ColdRequest(q, p, s, cfg);
            ColdRequest(q1, p, s1, cfg) == (q1, s1)
  {
  }

  /**
   * Only a live remote descriptor that is not already on it joins the hot
   * list, always at the tail, and it then is on the hot list and not on the
   * cold one.
   */
  lemma HotListGrowsByRemotePages(q: Queues, p: Page, s: Status, cfg: Config)
    requires cfg.Valid() && (p in q.hot <==> s.list == OnHot) && (p in q.cold ==> s.list == OnCold)
    ensures var (q1, s1) := HotRequest(q, p, s, cfg);
            && (q1 == q || (!s.free && s.inDram == cfg.inRem && s.list != OnHot && q1.hot == q.hot + [p]))
            && (!s.free ==> s1.hot)
            && (!s.free && s.inDram == cfg.inRem ==> p in q1.hot && p !in q1.cold && s1.list == OnHot)
  {
  }

  /** Only a live DRAM descriptor joins the cold list; remote descriptors are never queued for demotion. */
  lemma ColdListGrowsByDramPages(q: Queues, p: Page, s: Status, cfg: Config)
    requires cfg.Valid() && (p in q.cold <==> s.list == OnCold) && (p in q.hot ==> s.list == OnHot)
    ensures var (q1, s1) := ColdRequest(q, p, s, cfg);
            && (q1 == q || (!s.free && s.inDram == cfg.inDram && s.list != OnCold && q1.cold == q.cold + [p]))
            && (!s.free ==> !s1.hot)
            && (!s.free && s.inDram == cfg.inDram ==> p in q1.cold && p !in q1.hot && s1.list == OnCold)
            && (s.inDram == cfg.inRem ==> q1 == q)
  {
  }

  /**
   * A descriptor tagged as being on the cold list that is not on it (the tag
   * `tmem_mmap` gives every new descriptor) is never appended to the cold list.
   */
  lemma StaleColdTagNeverQueued(q: Queues, p: Page, s: Status, cfg: Config)
    requires s.list == OnCold && p !in q.cold
    ensures p !in ColdRequest(q, p, s, cfg).0.cold
  {
  }

  /**
   * After a promotion the descriptor is on the hot list and a further hot
   * request leaves the lists alone, while a cold request moves it to the
   * tail of the cold list: a promoted page can be demoted again.
   */
  lemma PromotedPageCanBeDemoted(q: Queues, p: Page, s: Status, cfg: Config)
    requires cfg.Valid() && !s.free && p !in q.hot && p !in q.cold
    ensures var (q1, s1) := Migrate(q, p, s, cfg, cfg.dramNode, true);
            && HotRequest(q1, p, s1, cfg).0 == q1
            && ColdRequest(q1, p, s1, cfg).0 == Queues(q.hot, q.cold + [p])
  {
    var (q1, s1) := Migrate(q, p, s, cfg, cfg.dramNode, true);
    assert Without(q.hot + [p], p) == q.hot by {
      var w := Without(q.hot + [p], p);
      assert (q.hot + [p])[..|q.hot|] == q.hot;
      WithoutLast(q.hot, p);
    }
  }

  lemma {:induction false} WithoutLast(s: seq<Page>, p: Page)
    requires p !in s
    ensures Without(s + [p], p) == s
  {
    if s == [] {
      assert [] + [p] == [p];
      assert [p][1..] == [];
    } else {
      assert (s + [p])[0] == s[0] && (s + [p])[1..] == s[1..] + [p];
      WithoutLast(s[1..], p);
      assert [s[0]] + s[1..] == s;
    }
  }

  /** A demoted descriptor is a cold remote page that no cold request will queue again. */
  lemma DemotedPageStaysOffColdList(q: Queues, p: Page, s: Status, cfg: Config, node: int)
    requires cfg.Valid() && node != cfg.dramNode
    ensures var (q1, s1) := Migrate(q, p, s, cfg, node, true);
            && s1.inDram == cfg.inRem && !s1.hot
            && ColdRequest(q1, p, s1, cfg).0 == q1
  {
  }

  // ---------------------------------------------------------------------------
  // The runtime's sampling state
  // ---------------------------------------------------------------------------

  class Sampler {
    var hotList: seq<Page>
    var coldList: seq<Page>
    var stats: Stats
    var globalClock: nat
    /** `last_cyc_cool` of the scanning thread. */
    var lastCycCool: nat
    const cfg: Config
    /** `HOT_THRESHOLD` and `CYC_COOL_THRESHOLD`, whose values are not part of this model. */
    const hotThreshold: nat
    const cycCoolThreshold: nat

    /**
     * Each list holds a descriptor at most once, no descriptor is on both,
     * and every descriptor on a list carries that list's tag.
     */
    ghost predicate Valid()
      reads this, hotList, coldList
    {
      && cfg.Valid()
      && Tmem.Distinct(hotList) && Tmem.Distinct(coldList)
      && (forall i | 0 <= i < |hotList| :: hotList[i].list == OnHot && hotList[i] !in coldList)
      && (forall i | 0 <= i < |coldList| :: coldList[i].list == OnCold)
    }

    function Lists(): Queues
      reads this
    {
      Queues(hotList, coldList)
    }

    constructor (cfg: Config, hotThreshold: nat, cycCoolThreshold: nat, now: nat)
      requires cfg.Valid()
      ensures Valid()
      ensures hotList == [] && coldList == [] && stats == ZeroStats && globalClock == 0 && lastCycCool == now
      ensures this.cfg == cfg && this.hotThreshold == hotThreshold && this.cycCoolThreshold == cycCoolThreshold
    {
      hotList, coldList := [], [];
      stats := ZeroStats;
      globalClock, lastCycCool := 0, now;
      this.cfg, this.hotThreshold, this.cycCoolThreshold := cfg, hotThreshold, cycCoolThreshold;
    }

    /** `enqueue_fifo(&hot_list, page)`: append at the tail and tag the descriptor. */
    method EnqueueHot(page: Page)
      requires Valid() && page.list == NoList
      modifies this, page`list
      ensures Valid()
      ensures hotList == old(hotList) + [page] && coldList == old(coldList)
      ensures StatusOf(page) == old(StatusOf(page)).(list := OnHot)
      ensures unchanged(page`accesses, page`localClock, page`va)
      ensures stats == old(stats) && globalClock == old(globalClock) && lastCycCool == old(lastCycCool)
    {
      hotList := hotList + [page];
      page.list := OnHot;
    }

    /** `enqueue_fifo(&cold_list, page)`. */
    method EnqueueCold(page: Page)
      requires Valid() && page.list == NoList
      modifies this, page`list
      ensures Valid()
      ensures coldList == old(coldList) + [page] && hotList == old(hotList)
      ensures StatusOf(page) == old(StatusOf(page)).(list := OnCold)
      ensures unchanged(page`accesses, page`localClock, page`va)
      ensures stats == old(stats) && globalClock == old(globalClock) && lastCycCool == old(lastCycCool)
    {
      coldList := coldList + [page];
      page.list := OnCold;
    }

    /** `page_list_remove_page(&hot_list, page)`: unlink it (if it is there) and clear the tag. */
    method RemoveHot(page: Page)
      requires Valid() && page.list == OnHot
      modifies this, page`list
      ensures Valid()
      ensures hotList == Without(old(hotList), page) && coldList == old(coldList)
      ensures StatusOf(page) == old(StatusOf(page)).(list := NoList)
      ensures unchanged(page`accesses, page`localClock, page`va)
      ensures stats == old(stats) && globalClock == old(globalClock) && lastCycCool == old(lastCycCool)
    {
      assert page !in coldList;
      hotList := Without(hotList, page);
      page.list := NoList;
    }

    /** `page_list_remove_page(&cold_list, page)`. */
    method RemoveCold(page: Page)
      requires Valid() && page.list == OnCold
      modifies this, page`list
      ensures Valid()
      ensures coldList == Without(old(coldList), page) && hotList == old(hotList)
      ensures StatusOf(page) == old(StatusOf(page)).(list := NoList)
      ensures unchanged(page`accesses, page`localClock, page`va)
      ensures stats == old(stats) && globalClock == old(globalClock) && lastCycCool == old(lastCycCool)
    {
      assert page !in hotList;
      coldList := Without(coldList, page);
      page.list := NoList;
    }

    /** `make_hot_request`. */
    method MakeHotRequest(page: Page?)
      requires Valid()
      modifies this, page
      ensures Valid()
      ensures page == null ==> Lists() == old(Lists())
      ensures page != null ==> (Lists(), StatusOf(page)) == HotRequest(old(Lists()), page, old(StatusOf(page)), cfg)
      ensures page != null ==> unchanged(page`accesses, page`localClock, page`va)
      ensures page != null ==> unchanged(page`vaStart, page`size, page`cycAccessed, page`ip, page`migUp, page`migDown, page`migrating)
      ensures stats == old(stats) && globalClock == old(globalClock) && lastCycCool == old(lastCycCool)
    {
      if page != null {
        RequestHot(page);
      }
    }

    /** The body of `make_hot_request` for a descriptor that exists. */
    method RequestHot(page: Page)
      requires Valid()
      modifies this, page`hot, page`list
      ensures Valid()
      ensures (Lists(), StatusOf(page)) == HotRequest(old(Lists()), page, old(StatusOf(page)), cfg)
      ensures stats == old(stats) && globalClock == old(globalClock) && lastCycCool == old(lastCycCool)
    {
      if page.free {
        return;
      }
      page.hot := true;
      if page.list != OnHot && page.inDram == cfg.inRem {
        if page.list != NoList {
          RemoveCold(page);
        }
        EnqueueHot(page);
      }
    }

    /** `make_cold_request`. */
    method MakeColdRequest(page: Page?)
      requires Valid()
      modifies this, page
      ensures Valid()
      ensures page == null ==> Lists() == old(Lists())
      ensures page != null ==> (Lists(), StatusOf(page)) == ColdRequest(old(Lists()), page, old(StatusOf(page)), cfg)
      ensures page != null ==> unchanged(page`accesses, page`localClock, page`va)
      ensures page != null ==> unchanged(page`vaStart, page`size, page`cycAccessed, page`ip, page`migUp, page`migDown, page`migrating)
      ensures stats == old(stats) && globalClock == old(globalClock) && lastCycCool == old(lastCycCool)
    {
      if page != null {
        RequestCold(page);
      }
    }

    /** The body of `make_cold_request` for a descriptor that exists. */
    method RequestCold(page: Page)
      requires Valid()
      modifies this, page`hot, page`list
      ensures Valid()
      ensures (Lists(), StatusOf(page)) == ColdRequest(old(Lists()), page, old(StatusOf(page)), cfg)
      ensures stats == old(stats) && globalClock == old(globalClock) && lastCycCool == old(lastCycCool)
    {
      if page.free {
        return;
      }
      page.hot := false;
      if page.list != OnCold && page.inDram == cfg.inDram {
        if page.list != NoList {
          RemoveHot(page);
        }
        EnqueueCold(page);
      }
    }

    /**
     * `tmem_migrate_page` after `mbind` (whose outcome is `moved`). The
     * descriptor it promotes has been dequeued by the migrate thread, so it
     * is on no list.
     */
    method MigratePage(page: Page, node: int, moved: bool)
      requires Valid()
      requires moved && node == cfg.dramNode ==> page.list == NoList
      modifies this, page`inDram, page`hot, page`list
      ensures Valid()
      ensures (Lists(), StatusOf(page)) == Migrate(old(Lists()), page, old(StatusOf(page)), cfg, node, moved)
      ensures unchanged(page`accesses, page`localClock, page`va)
      ensures stats == old(stats) && globalClock == old(globalClock) && lastCycCool == old(lastCycCool)
    {
      if moved {
        if node == cfg.dramNode {
          page.inDram := cfg.inDram;
          page.hot := true;
          EnqueueHot(page);
        } else {
          page.inDram := cfg.inRem;
          page.hot := false;
        }
      }
    }

    /**
     * `read_perf_sample` on the buffer of one CPU and event (`buf` is null
     * when that buffer was never mapped). The sample it returns, if any, is
     * also appended to the trace as a `pebs_rec`.
     */
    method ReadPerfSample(buf: PerfBuffer?, hdr: Header, body: PerfSample, cpu: nat, evt: nat)
      returns (rec: PerfSample, written: Option<PebsRec>)
      requires buf != null ==> buf.State().Valid()
      modifies this, buf
      ensures buf == null ==> rec == NoSample && stats == old(stats)
      ensures buf != null ==> buf.State().Valid() && buf.head == old(buf.head)
      ensures buf != null ==> ReadStep(old(buf.State()), hdr, body, old(stats)) == Step(buf.tail, stats, rec)
      ensures written == (if rec.addr != 0 then Some(PebsRec(rec.addr, rec.ip, rec.time, cpu, evt)) else None)
      ensures Lists() == old(Lists()) && globalClock == old(globalClock) && lastCycCool == old(lastCycCool)
    {
      rec, written := NoSample, None;
      if buf == null {
        return;
      }
      var dataSize := buf.dataSize;
      if dataSize == 0 {
        return;
      }
      var head := buf.head;
      var tail := buf.tail;
      if head == tail {
        return;
      }
      var avail := (head - tail) % Word;
      assert avail == Avail(buf.head, buf.tail);
      if avail < HeaderSize {
        return;
      }
      var mask := dataSize - 1;
      var hdrIdx := BitAnd(tail, mask);
      MaskIsRemainder(tail, dataSize);
      assert hdrIdx == buf.tail % buf.dataSize;
      if hdrIdx + PointerSize > dataSize {
        stats := stats.(wrappedHeaders := stats.wrappedHeaders + 1);
      }
      if hdr.size == 0 {
        return;
      }
      if avail < hdr.size {
        return;
      }
      var rsize := hdr.size;
      if hdrIdx + rsize <= dataSize {
        if hdr.kind == KindSample {
          // `rsize - sizeof(header)` is unsigned: it equals 24 only for a 32-byte record
          if rsize == HeaderSize + SampleSize {
            rec := body;
          }
        } else if hdr.kind == KindThrottle {
          stats := stats.(throttles := stats.throttles + 1);
        } else if hdr.kind == KindUnthrottle {
          stats := stats.(unthrottles := stats.unthrottles + 1);
        } else {
          stats := stats.(unknownSamples := stats.unknownSamples + 1);
        }
      } else {
        stats := stats.(wrappedRecords := stats.wrappedRecords + 1);
      }
      tail := (tail + rsize) % Word;
      buf.tail := tail;
      if rec.addr != 0 {
        written := Some(PebsRec(rec.addr, rec.ip, rec.time, cpu, evt));
      }
    }

    /**
     * The heat update of the scan loop for one access to `page`: count it,
     * make the hot or cold request the new count calls for, then cool the
     * counter by the clock ticks since its last cooling.
     */
    method Heat(page: Page)
      requires Valid() && 0 <= page.localClock <= globalClock
      modifies this, page
      ensures Valid()
      ensures var h := LiveHeat(old(page.accesses), old(globalClock - page.localClock), hotThreshold);
              && page.accesses == h.accesses && page.localClock == globalClock
              && (Lists(), StatusOf(page)) ==
                   (if h.hot then HotRequest(old(Lists()), page, old(StatusOf(page)), cfg)
                    else ColdRequest(old(Lists()), page, old(StatusOf(page)), cfg))
      ensures page.va == old(page.va) && unchanged(page`vaStart, page`size, page`cycAccessed, page`ip, page`migUp, page`migDown, page`migrating)
      ensures stats == old(stats) && globalClock == old(globalClock) && lastCycCool == old(lastCycCool)
    {
      var elapsed: nat := globalClock - page.localClock;
      page.accesses := page.accesses + 1;
      if page.accesses >= hotThreshold {
        MakeHotRequest(page);
      } else {
        MakeColdRequest(page);
      }
      page.accesses := Cool(page.accesses, elapsed);
      page.localClock := globalClock;
    }

    /**
     * The scan loop's handling of a sample with a non-zero address: `page`
     * is what `find_page` returned for it. A real descriptor (not the
     * dummy at address 0) has the sample traced and its heat updated, and
     * the cooling clock is advanced against the cycle counter `now`.
     */
    method RecordSample(page: Page?, sample: PerfSample, cpu: nat, evt: nat, now: nat)
      returns (written: Option<PebsRec>)
      requires Valid()
      requires page != null ==> 0 <= page.localClock <= globalClock
      modifies this, page
      ensures Valid()
      ensures page == null || old(page.va) == 0 ==>
                written == None && Lists() == old(Lists())
                && globalClock == old(globalClock) && lastCycCool == old(lastCycCool)
      ensures page != null && old(page.va) != 0 ==>
                var h := LiveHeat(old(page.accesses), old(globalClock - page.localClock), hotThreshold);
                && written == Some(PebsRec(sample.addr, sample.ip, sample.time, cpu, evt))
                && page.accesses == h.accesses && page.localClock == old(globalClock)
                && (Lists(), StatusOf(page)) ==
                     (if h.hot then HotRequest(old(Lists()), page, old(StatusOf(page)), cfg)
                      else ColdRequest(old(Lists()), page, old(StatusOf(page)), cfg))
                && (globalClock, lastCycCool) == ClockStep(old(globalClock), old(lastCycCool), now, cycCoolThreshold)
      ensures page != null && old(page.va) == 0 ==> unchanged(page)
      ensures page != null ==> unchanged(page`va) && unchanged(page`vaStart, page`size, page`cycAccessed, page`ip, page`migUp, page`migDown, page`migrating)
      ensures stats == old(stats)
    {
      written := None;
      if page == null || page.va == 0 {
        return;
      }
      written := Some(PebsRec(sample.addr, sample.ip, sample.time, cpu, evt));
      Heat(page);
      if (now - lastCycCool) % Word > cycCoolThreshold {
        globalClock := globalClock + 1;
        lastCycCool := now;
      }
    }
  }
}
