/**
 * The memory-tiering allocator: every application mapping is split into
 * 2 MB page descriptors (the last one covering the remainder, at least 4 KB),
 * which are kept in a page table keyed by virtual address and recycled
 * through a free list when the mapping goes away.
 */
module Tmem {
  import opened Pages
  import opened Outcomes

  /** `PAGE_SIZE`: 2 MB (tmem.h). */
  const PageSize: nat := 2 * 1024 * 1024
  /** `BASE_PAGE_SIZE`: the smallest descriptor size, 4 KB. */
  const BasePageSize: nat := 4096
  /** 2^64: unsigned 64-bit arithmetic wraps modulo this. */
  const Word: nat := 0x1_0000_0000_0000_0000
  /** `MAP_FAILED`, `(void *) -1`. */
  const MapFailed: nat := Word - 1

  // ---------------------------------------------------------------------------
  // Descriptor arithmetic
  // ---------------------------------------------------------------------------

  /**
   * `PAGE_ROUND_UP(x)`: `x + PAGE_SIZE - 1` in 64 bits with the low bits
   * cleared (masking with `~(PAGE_SIZE - 1)` keeps the multiple of the power of
   * two `PAGE_SIZE` at or below). Without wrap-around it is the least multiple
   * of `PAGE_SIZE` at or above `x`.
   */
  function PageRoundUp(x: nat): (r: nat)
    requires x < Word
    ensures r < Word && r % PageSize == 0
    ensures x <= Word - PageSize ==> x <= r < x + PageSize
  {
    var y := (x + PageSize - 1) % Word;
    y - y % PageSize
  }

  /** No multiple of `PAGE_SIZE` at or above `x` lies below `PAGE_ROUND_UP(x)`. */
  lemma PageRoundUpLeast(x: nat, m: nat)
    requires x <= Word - PageSize && m % PageSize == 0 && x <= m
    ensures PageRoundUp(x) <= m
  {
    var r := PageRoundUp(x);
    if m < r {
      assert r - m < PageSize;
      assert (r - m) % PageSize == 0 by {
        ModDifference(r, m);
      }
    }
  }

  lemma ModDifference(a: nat, b: nat)
    requires b <= a && a % PageSize == 0 && b % PageSize == 0
    ensures (a - b) % PageSize == 0
  {
    assert a == (a / PageSize) * PageSize;
    assert b == (b / PageSize) * PageSize;
    assert a - b == (a / PageSize - b / PageSize) * PageSize;
  }

  /** An address already on a `PAGE_SIZE` boundary rounds to itself. */
  lemma PageRoundUpAligned(x: nat)
    requires x <= Word - PageSize && x % PageSize == 0
    ensures PageRoundUp(x) == x
  {
    PageRoundUpLeast(x, x);
  }

  /** `(length + PAGE_SIZE - 1) / PAGE_SIZE` in 64 bits: the descriptors a mapping needs. */
  function DescriptorCount(length: nat): nat
    requires length < Word
  {
    ((length + PageSize - 1) % Word) / PageSize
  }

  /** Without wrap-around, the count is `ceil(length / PAGE_SIZE)`. */
  lemma DescriptorCountIsCeiling(length: nat)
    requires length <= Word - PageSize
    ensures var n := DescriptorCount(length);
            && (n == 0 <==> length == 0)
            && (n > 0 ==> (n - 1) * PageSize < length <= n * PageSize)
  {
  }

  /** An index below the descriptor count lies inside the mapping. */
  lemma IndexInRange(length: nat, i: nat)
    requires length < Word && i < DescriptorCount(length)
    ensures i * PageSize < length
  {
    var y := (length + PageSize - 1) % Word;
    assert y <= length + PageSize - 1;
    assert (i + 1) * PageSize <= (y / PageSize) * PageSize <= y;
  }

  /** The page-table key, first byte and size of one descriptor. */
  datatype Descriptor = Descriptor(key: nat, vaStart: nat, size: nat)

  /**
   * Descriptor `i` of `length` bytes mapped at `p`: a full 2 MB descriptor is
   * keyed by its start rounded up to 2 MB; the tail (less than 2 MB left) is
   * keyed by its start and sized by the remainder, but at least 4 KB.
   */
  function DescriptorAt(p: nat, length: nat, i: nat): Descriptor
    requires length < Word && p + length <= Word && i < DescriptorCount(length)
  {
    IndexInRange(length, i);
    var start := p + i * PageSize;
    var rest := length - i * PageSize;
    if rest < PageSize then
      Descriptor(start, start, if rest < BasePageSize then BasePageSize else rest)
    else
      Descriptor(PageRoundUp(start), start, PageSize)
  }

  /**
   * Descriptor `i` starts `i` pages into the mapping; a full one is 2 MB and
   * keyed by its 2 MB-aligned address, the tail is keyed by its start and
   * covers what is left, but at least 4 KB; and every key lies within the
   * descriptor's own 2 MB stretch of the mapping.
   */
  lemma DescriptorShape(p: nat, length: nat, i: nat)
    requires length < Word && p + length <= Word && i < DescriptorCount(length)
    ensures var d := DescriptorAt(p, length, i);
            && i * PageSize < length
            && d.vaStart == p + i * PageSize
            && (length - i * PageSize >= PageSize ==> d.size == PageSize && d.key == PageRoundUp(d.vaStart) && d.key % PageSize == 0)
            && (length - i * PageSize < PageSize ==> d.key == d.vaStart && d.size >= BasePageSize)
            && (BasePageSize <= length - i * PageSize < PageSize ==> d.size == length - i * PageSize)
            && p + i * PageSize <= d.key < p + (i + 1) * PageSize
  {
    IndexInRange(length, i);
  }

  /** The key `tmem_munmap` recomputes for index `i` of the range it is given. */
  function UnmapKey(addr: nat, length: nat, i: nat): nat
    requires length < Word && addr + length <= Word && i < DescriptorCount(length)
  {
    IndexInRange(length, i);
    var start := addr + i * PageSize;
    if length - i * PageSize < PageSize then start else PageRoundUp(start)
  }

  /** Unmapping the same range looks up exactly the keys mapping it assigned. */
  lemma UnmapKeyMatches(p: nat, length: nat, i: nat)
    requires length < Word && p + length <= Word && i < DescriptorCount(length)
    ensures UnmapKey(p, length, i) == DescriptorAt(p, length, i).key
  {
  }

  /** The descriptors of one mapping have pairwise different keys. */
  lemma DescriptorKeysDistinct(p: nat, length: nat, i: nat, j: nat)
    requires length < Word && p + length <= Word && i < j < DescriptorCount(length)
    ensures DescriptorAt(p, length, i).key != DescriptorAt(p, length, j).key
  {
    KeyInStretch(p, length, i);
    KeyInStretch(p, length, j);
    PagesApart(i, j);
  }

  /** Every key lies within its descriptor's own 2 MB stretch of the mapping. */
  lemma KeyInStretch(p: nat, length: nat, i: nat)
    requires length < Word && p + length <= Word && i < DescriptorCount(length)
    ensures p + i * PageSize <= DescriptorAt(p, length, i).key < p + i * PageSize + PageSize
  {
    DescriptorShape(p, length, i);
  }

  /** Later pages start at least one page further on. */
  lemma PagesApart(i: nat, j: nat)
    requires i < j
    ensures i * PageSize + PageSize <= j * PageSize
  {
    assert j * PageSize == (i + 1) * PageSize + (j - i - 1) * PageSize;
  }

  predicate Distinct<T(==)>(s: seq<T>) {
    forall i, j | 0 <= i < j < |s| :: s[i] != s[j]
  }

  /** The page-table keys of descriptors `first .. first + count - 1` of a mapping, in index order. */
  function KeysFrom(p: nat, length: nat, first: nat, count: nat): (keys: seq<int>)
    requires length < Word && p + length <= Word && first + count <= DescriptorCount(length)
    ensures |keys| == count
  {
    if count == 0 then [] else KeysFrom(p, length, first, count - 1) + [DescriptorAt(p, length, first + count - 1).key]
  }

  lemma {:induction false} KeysFromAt(p: nat, length: nat, first: nat, count: nat, j: nat)
    requires length < Word && p + length <= Word && first + count <= DescriptorCount(length) && j < count
    ensures KeysFrom(p, length, first, count)[j] == DescriptorAt(p, length, first + j).key
  {
    if j < count - 1 {
      KeysFromAt(p, length, first, count - 1, j);
    }
  }

  /** Consecutive index ranges join. */
  lemma {:induction false} KeysFromSplit(p: nat, length: nat, first: nat, k: nat, count: nat)
    requires length < Word && p + length <= Word && first + k + count <= DescriptorCount(length)
    ensures KeysFrom(p, length, first, k) + KeysFrom(p, length, first + k, count) == KeysFrom(p, length, first, k + count)
  {
    if count > 0 {
      KeysFromSplit(p, length, first, k, count - 1);
    }
  }

  /** The key of descriptor `i` is none of the keys of the descriptors before it. */
  lemma KeyIsNew(p: nat, length: nat, i: nat)
    requires length < Word && p + length <= Word && i < DescriptorCount(length)
    ensures DescriptorAt(p, length, i).key !in KeysFrom(p, length, 0, i)
  {
    var keys := KeysFrom(p, length, 0, i);
    forall j | 0 <= j < i
      ensures keys[j] != DescriptorAt(p, length, i).key
    {
      KeysFromAt(p, length, 0, i, j);
      DescriptorKeysDistinct(p, length, j, i);
    }
  }

  /** On success the mapping is `BASE_PAGE_SIZE`-aligned and `NULL` (0) otherwise, so it is never `MAP_FAILED`. */
  lemma MapFailedNeverReturned(p: nat)
    requires p % BasePageSize == 0
    ensures p != MapFailed
  {
  }

  // ---------------------------------------------------------------------------
  // The page table as `add_page` builds it and `tmem_munmap` dismantles it
  // ---------------------------------------------------------------------------

  /** `add_page`: a key already present keeps its page; otherwise the page is inserted. */
  function AddStep(t: map<int, Page>, page: Page, key: int): map<int, Page>
  {
    if key in t then t else t[key := page]
  }

  /** `add_page` of `pages[i]` under `keys[i]`, in order. */
  function AddAll(t: map<int, Page>, pages: seq<Page>, keys: seq<int>): map<int, Page>
    requires |pages| == |keys|
  {
    if |keys| == 0 then t
    else AddStep(AddAll(t, pages[..|pages| - 1], keys[..|keys| - 1]), pages[|pages| - 1], keys[|keys| - 1])
  }

  /** What is left of `t` after every key of `keys` is removed. */
  function RemoveAll(t: map<int, Page>, keys: seq<int>): map<int, Page>
  {
    map k | k in t && k !in keys :: t[k]
  }

  /** The pages `tmem_munmap` finds (and frees) for `keys`, in lookup order. */
  function Found(t: map<int, Page>, keys: seq<int>): seq<Page>
  {
    if |keys| == 0 then []
    else
      var k := keys[|keys| - 1];
      Found(t, keys[..|keys| - 1]) + (if k in t then [t[k]] else [])
  }

  function Reverse<T>(s: seq<T>): (r: seq<T>)
    ensures |r| == |s|
  {
    if |s| == 0 then [] else [s[|s| - 1]] + Reverse(s[..|s| - 1])
  }

  /** Bytes of `ps` that `tmem_munmap` subtracts from `mem_allocated`. */
  ghost function Bytes(ps: seq<Page>): int
    reads ps
  {
    if |ps| == 0 then 0 else Bytes(ps[..|ps| - 1]) + ps[|ps| - 1].size
  }

  /** Bytes of `ps` that `tmem_munmap` subtracts from `dram_used`: those whose `in_dram` equals `DRAM_NODE`. */
  ghost function DramBytes(ps: seq<Page>, dramNode: int): int
    reads ps
  {
    if |ps| == 0 then 0
    else DramBytes(ps[..|ps| - 1], dramNode) + (if ps[|ps| - 1].inDram == dramNode then ps[|ps| - 1].size else 0)
  }

  /** `add_page` only ever adds keys: afterwards the table holds the old keys and the offered ones. */
  lemma {:induction false} AddAllKeys(t: map<int, Page>, pages: seq<Page>, keys: seq<int>)
    requires |pages| == |keys|
    ensures forall k :: k in AddAll(t, pages, keys) <==> k in t || k in keys
  {
    if |keys| > 0 {
      var n := |keys| - 1;
      AddAllKeys(t, pages[..n], keys[..n]);
      assert keys == keys[..n] + [keys[n]];
    }
  }

  /** With keys new to `t` and pairwise distinct, each key ends up holding its own page and nothing else changes. */
  lemma {:induction false} AddAllFresh(t: map<int, Page>, pages: seq<Page>, keys: seq<int>)
    requires |pages| == |keys| && Distinct(keys)
    requires forall k | k in keys :: k !in t
    ensures forall i | 0 <= i < |keys| :: keys[i] in AddAll(t, pages, keys) && AddAll(t, pages, keys)[keys[i]] == pages[i]
    ensures forall k | k in t :: k in AddAll(t, pages, keys) && AddAll(t, pages, keys)[k] == t[k]
  {
    if |keys| > 0 {
      var n := |keys| - 1;
      var ps, ks := pages[..n], keys[..n];
      assert Distinct(ks);
      assert forall k | k in ks :: k in keys;
      AddAllFresh(t, ps, ks);
      AddAllKeys(t, ps, ks);
      var m := AddAll(t, ps, ks);
      assert keys[n] !in m by {
        assert forall i | 0 <= i < n :: ks[i] != keys[n];
        assert keys[n] !in ks;
      }
      assert AddAll(t, pages, keys) == m[keys[n] := pages[n]];
      forall i | 0 <= i < n
        ensures keys[i] in AddAll(t, pages, keys) && AddAll(t, pages, keys)[keys[i]] == pages[i]
      {
        assert ks[i] == keys[i] && ps[i] == pages[i];
      }
    }
  }

  /** Looking up keys that map to known pages finds exactly those pages, in order. */
  lemma {:induction false} FoundAll(t: map<int, Page>, pages: seq<Page>, keys: seq<int>)
    requires |pages| == |keys|
    requires forall i | 0 <= i < |keys| :: keys[i] in t && t[keys[i]] == pages[i]
    ensures Found(t, keys) == pages
  {
    if |keys| > 0 {
      var n := |keys| - 1;
      FoundAll(t, pages[..n], keys[..n]);
      assert pages == pages[..n] + [pages[n]];
    }
  }

  /**
   * Unmapping the range a mapping just created, when none of its keys was in
   * the table before, frees exactly the descriptors it installed and leaves the
   * table as it was.
   */
  lemma MapThenUnmap(t: map<int, Page>, pages: seq<Page>, keys: seq<int>)
    requires |pages| == |keys| && Distinct(keys)
    requires forall k | k in keys :: k !in t
    ensures Found(AddAll(t, pages, keys), keys) == pages
    ensures RemoveAll(AddAll(t, pages, keys), keys) == t
  {
    AddAllFresh(t, pages, keys);
    AddAllKeys(t, pages, keys);
    var m := AddAll(t, pages, keys);
    FoundAll(m, pages, keys);
    RemoveAdded(t, m, keys);
  }

  /** Removing the added keys from a table that only gained them gives the table back. */
  lemma RemoveAdded(t: map<int, Page>, m: map<int, Page>, keys: seq<int>)
    requires forall k | k in keys :: k !in t
    requires forall k :: k in m <==> k in t || k in keys
    requires forall k | k in t :: k in m && m[k] == t[k]
    ensures RemoveAll(m, keys) == t
  {
    var r := RemoveAll(m, keys);
    assert forall k :: k in r <==> k in t;
    assert forall k | k in r :: r[k] == t[k];
  }

  lemma AddAllSnoc(t: map<int, Page>, ps: seq<Page>, ks: seq<int>, p: Page, k: int)
    requires |ps| == |ks|
    ensures AddAll(t, ps + [p], ks + [k]) == AddStep(AddAll(t, ps, ks), p, k)
  {
    assert (ps + [p])[..|ps|] == ps;
    assert (ks + [k])[..|ks|] == ks;
  }

  lemma FoundSnoc(t: map<int, Page>, ks: seq<int>, k: int)
    ensures Found(t, ks + [k]) == Found(t, ks) + (if k in t then [t[k]] else [])
  {
    assert (ks + [k])[..|ks|] == ks;
  }

  lemma RemoveAllSnoc(t: map<int, Page>, ks: seq<int>, k: int)
    ensures RemoveAll(t, ks + [k]) == RemoveAll(t, ks) - {k}
  {
  }

  lemma ReverseSnoc<T>(s: seq<T>, x: T)
    ensures Reverse(s + [x]) == [x] + Reverse(s)
  {
    assert (s + [x])[..|s|] == s;
  }

  lemma BytesSnoc(ps: seq<Page>, p: Page, dramNode: int)
    ensures Bytes(ps + [p]) == Bytes(ps) + p.size
    ensures DramBytes(ps + [p], dramNode) == DramBytes(ps, dramNode) + (if p.inDram == dramNode then p.size else 0)
  {
    assert (ps + [p])[..|ps|] == ps;
  }

  lemma {:induction false} AddAllAppend(t: map<int, Page>, a: seq<Page>, ka: seq<int>, b: seq<Page>, kb: seq<int>)
    requires |a| == |ka| && |b| == |kb|
    ensures AddAll(AddAll(t, a, ka), b, kb) == AddAll(t, a + b, ka + kb)
  {
    if |b| > 0 {
      var n := |b| - 1;
      AddAllAppend(t, a, ka, b[..n], kb[..n]);
      var ab, kab := a + b, ka + kb;
      SliceOfAppend(a, b);
      SliceOfAppend(ka, kb);
      assert AddAll(t, ab, kab) == AddStep(AddAll(t, a + b[..n], ka + kb[..n]), b[n], kb[n]);
      assert AddAll(AddAll(t, a, ka), b, kb) == AddStep(AddAll(AddAll(t, a, ka), b[..n], kb[..n]), b[n], kb[n]);
    } else {
      assert a + b == a && ka + kb == ka;
    }
  }

  /**
   * `tmem_mmap`'s outcome for a mapping at `p`, when the free list `free0`
   * supplies `k` of its `n` descriptors: `placed[..k]` are those recycled
   * descriptors, for indices `0 .. k-1`, and the free list loses them;
   * `placed[k..]` are fresh descriptors, for the indices `second ..
   * second + n-k-1`; and the table is `t0` with each descriptor offered to
   * `add_page` in turn. `tmem_mmap` as intended has `second == k`; as written
   * the fresh loop restarts at `second == 0`.
   */
  ghost predicate Installed(t0: map<int, Page>, free0: seq<Page>, t: map<int, Page>, free: seq<Page>,
                            placed: seq<Page>, p: nat, length: nat, tier: int, second: nat)
    requires length < Word && p + length <= Word && second <= Min(|free0|, DescriptorCount(length))
    reads placed
  {
    var n := DescriptorCount(length);
    var k := Min(|free0|, n);
    && |placed| == n
    && placed[..k] == free0[..k] && free == free0[k..]
    && t == AddAll(t0, placed, KeysFrom(p, length, 0, k) + KeysFrom(p, length, second, n - k))
    && AllDescribed(placed, p, length, tier, k, second)
  }

  /** `placed[j]` describes index `j` below `k` and index `second + j - k` from `k` on. */
  ghost predicate AllDescribed(placed: seq<Page>, p: nat, length: nat, tier: int, k: nat, second: nat)
    requires length < Word && p + length <= Word && k <= |placed| && second + |placed| - k <= DescriptorCount(length)
    requires k <= DescriptorCount(length)
    reads placed
  {
    && (forall j | 0 <= j < k :: Described(placed[j], DescriptorAt(p, length, j), tier))
    && (forall j | k <= j < |placed| :: Described(placed[j], DescriptorAt(p, length, second + j - k), tier))
  }

  lemma DescribedConcat(recycled: seq<Page>, made: seq<Page>, p: nat, length: nat, tier: int, second: nat)
    requires length < Word && p + length <= Word && |recycled| <= DescriptorCount(length)
    requires second + |made| <= DescriptorCount(length)
    requires forall j | 0 <= j < |recycled| :: Described(recycled[j], DescriptorAt(p, length, j), tier)
    requires forall j | 0 <= j < |made| :: Described(made[j], DescriptorAt(p, length, second + j), tier)
    ensures AllDescribed(recycled + made, p, length, tier, |recycled|, second)
  {
    var placed, k := recycled + made, |recycled|;
    forall j | k <= j < |placed|
      ensures Described(placed[j], DescriptorAt(p, length, second + j - k), tier)
    {
      assert placed[j] == made[j - k];
    }
  }

  lemma SliceOfAppend<T>(a: seq<T>, b: seq<T>)
    requires |b| > 0
    ensures (a + b)[..|a + b| - 1] == a + b[..|b| - 1] && (a + b)[|a + b| - 1] == b[|b| - 1]
  {
  }

  /** The recycled descriptors followed by the fresh ones make up `tmem_mmap`'s outcome. */
  lemma AssembleInstalled(t0: map<int, Page>, free0: seq<Page>, t: map<int, Page>, free: seq<Page>,
                          recycled: seq<Page>, made: seq<Page>, p: nat, length: nat, tier: int, second: nat)
    requires length < Word && p + length <= Word && second <= Min(|free0|, DescriptorCount(length))
    requires var k := Min(|free0|, DescriptorCount(length));
             && recycled == free0[..k] && free == free0[k..] && |made| == DescriptorCount(length) - k
             && t == AddAll(AddAll(t0, recycled, KeysFrom(p, length, 0, k)), made, KeysFrom(p, length, second, |made|))
    requires forall j | 0 <= j < |recycled| :: Described(recycled[j], DescriptorAt(p, length, j), tier)
    requires forall j | 0 <= j < |made| :: Described(made[j], DescriptorAt(p, length, second + j), tier)
    ensures Installed(t0, free0, t, free, recycled + made, p, length, tier, second)
  {
    var k := |recycled|;
    AddAllAppend(t0, recycled, KeysFrom(p, length, 0, k), made, KeysFrom(p, length, second, |made|));
    DescribedConcat(recycled, made, p, length, tier, second);
    assert (recycled + made)[..k] == recycled;
  }

  /** As intended, every descriptor's key is in the table afterwards. */
  lemma IntendedPlanCoversMapping(t0: map<int, Page>, placed: seq<Page>, p: nat, length: nat, k: nat, i: nat)
    requires length < Word && p + length <= Word
    requires |placed| == DescriptorCount(length) && k <= DescriptorCount(length) && i < DescriptorCount(length)
    ensures DescriptorAt(p, length, i).key
              in AddAll(t0, placed, KeysFrom(p, length, 0, k) + KeysFrom(p, length, k, DescriptorCount(length) - k))
  {
    var n := DescriptorCount(length);
    KeysFromSplit(p, length, 0, k, n - k);
    KeysFromAt(p, length, 0, n, i);
    KeyInAddAll(t0, placed, KeysFrom(p, length, 0, n), i);
  }

  lemma KeyInAddAll(t: map<int, Page>, pages: seq<Page>, keys: seq<int>, i: nat)
    requires |pages| == |keys| && i < |keys|
    ensures keys[i] in AddAll(t, pages, keys)
  {
    AddAllKeys(t, pages, keys);
    assert keys[i] in keys;
  }

  /**
   * As written, when some but not all descriptors are recycled, the last
   * descriptor of the mapping is never installed: unless its key was already
   * in the table, it is missing from it afterwards.
   */
  lemma AsWrittenMissesLast(t0: map<int, Page>, placed: seq<Page>, p: nat, length: nat, k: nat)
    requires length < Word && p + length <= Word
    requires 0 < k < DescriptorCount(length) && |placed| == DescriptorCount(length)
    requires DescriptorAt(p, length, DescriptorCount(length) - 1).key !in t0
    ensures DescriptorAt(p, length, DescriptorCount(length) - 1).key
              !in AddAll(t0, placed, KeysFrom(p, length, 0, k) + KeysFrom(p, length, 0, DescriptorCount(length) - k))
  {
    var n := DescriptorCount(length);
    var last := DescriptorAt(p, length, n - 1).key;
    var front, back := KeysFrom(p, length, 0, k), KeysFrom(p, length, 0, n - k);
    LastNotInPrefix(p, length, k);
    LastNotInPrefix(p, length, n - k);
    assert last !in front + back;
    KeyNotInAddAll(t0, placed, front + back, last);
  }

  /** The last descriptor's key is none of the keys of a proper prefix of the descriptors. */
  lemma LastNotInPrefix(p: nat, length: nat, m: nat)
    requires length < Word && p + length <= Word && m < DescriptorCount(length)
    ensures DescriptorAt(p, length, DescriptorCount(length) - 1).key !in KeysFrom(p, length, 0, m)
  {
    var n := DescriptorCount(length);
    KeyIsNew(p, length, n - 1);
    KeysFromSplit(p, length, 0, m, n - 1 - m);
    NotInPart(DescriptorAt(p, length, n - 1).key, KeysFrom(p, length, 0, m), KeysFrom(p, length, m, n - 1 - m));
  }

  /** A key that is in neither the table nor the key list is not in the table afterwards. */
  lemma KeyNotInAddAll(t: map<int, Page>, pages: seq<Page>, keys: seq<int>, key: int)
    requires |pages| == |keys| && key !in t && key !in keys
    ensures key !in AddAll(t, pages, keys)
  {
    AddAllKeys(t, pages, keys);
  }

  /** A key missing from a list is missing from its front part. */
  lemma NotInPart(key: int, front: seq<int>, back: seq<int>)
    requires key !in front + back
    ensures key !in front
  {
    assert forall x | x in front :: x in front + back;
  }

  /** One more key of `tmem_munmap`, new to the ones before: it finds what the original table held there. */
  lemma FreedStep(t0: map<int, Page>, keys: seq<int>, k: int, freed: seq<Page>, t: map<int, Page>,
                  found: seq<Page>, free0: seq<Page>)
    requires k !in keys && t == RemoveAll(t0, keys) && freed == Found(t0, keys)
    requires found == (if k in t then [t[k]] else [])
    ensures (k in t <==> k in t0) && (k in t ==> t[k] == t0[k])
    ensures Found(t0, keys + [k]) == freed + found
    ensures RemoveAll(t0, keys + [k]) == t - {k}
    ensures Reverse(freed + found) + free0 == found + (Reverse(freed) + free0)
  {
    FoundSnoc(t0, keys, k);
    RemoveAllSnoc(t0, keys, k);
    if k in t {
      ReverseSnoc(freed, t[k]);
    } else {
      assert freed + [] == freed;
    }
  }

  /**
   * The key `tmem_munmap` recomputes for index `i` is new among those of the
   * earlier indices, and extends them.
   */
  lemma NextKey(addr: nat, length: nat, i: nat)
    requires length < Word && addr + length <= Word && i < DescriptorCount(length)
    ensures UnmapKey(addr, length, i) !in KeysFrom(addr, length, 0, i)
    ensures KeysFrom(addr, length, 0, i + 1) == KeysFrom(addr, length, 0, i) + [UnmapKey(addr, length, i)]
  {
    UnmapKeyMatches(addr, length, i);
    KeyIsNew(addr, length, i);
  }

  lemma BytesAppend(ps: seq<Page>, qs: seq<Page>, dramNode: int)
    requires |qs| <= 1
    ensures Bytes(ps + qs) == Bytes(ps) + Bytes(qs)
    ensures DramBytes(ps + qs, dramNode) == DramBytes(ps, dramNode) + DramBytes(qs, dramNode)
  {
    if |qs| == 1 {
      BytesSnoc(ps, qs[0], dramNode);
      assert qs == [qs[0]] && qs[..0] == [];
    } else {
      assert ps + qs == ps;
    }
  }

  // ---------------------------------------------------------------------------
  // The allocator state
  // ---------------------------------------------------------------------------

  /** `tmem_mmap`'s placement: DRAM while the mapping fits below `dram_free` with `DRAM_BUFFER` to spare. */
  function FitsInDram(length: nat, dramUsed: int, dramBuffer: int, dramFree: int): bool {
    length + dramUsed + dramBuffer < dramFree
  }

  /** The `in_dram` tag a new descriptor gets. */
  function TierOf(cfg: Config, fits: bool): int {
    if fits then cfg.inDram else cfg.inRem
  }

  /** The fields `tmem_mmap` sets on a descriptor it installs for `d` on tier `tier`. */
  predicate Described(page: Page, d: Descriptor, tier: int)
    reads page
  {
    && page.va == d.key && page.vaStart == d.vaStart && page.size == d.size
    && page.migUp == 0 && page.migDown == 0 && page.accesses == 0
    && !page.migrating && page.localClock == 0 && !page.hot
    && page.inDram == tier && page.list == OnCold
  }

  function Min(a: nat, b: nat): nat {
    if a <= b then a else b
  }

  class Tmem {
    /** `pages`: the hash table of descriptors, keyed by `va`. */
    var table: map<int, Page>
    /** The lock-free free list, from `free_head` along `next`. */
    var freeList: seq<Page>
    var freeCount: nat
    var dramUsed: int
    /** `pebs_stats.mem_allocated`. */
    var memAllocated: int
    /** `dram_free` as `numa_node_size` reports it at start-up. */
    const dramFree: int
    const dramBuffer: int
    const cfg: Config
    const maxNeighbors: nat

    /**
     * Every descriptor is filed under its own `va`, the free list holds each
     * descriptor once and none that is still in the table, and `free_count`
     * is its length.
     */
    ghost predicate Valid()
      reads this, table.Values
    {
      && cfg.Valid()
      && (forall k | k in table :: table[k].va == k)
      && Distinct(freeList)
      && (forall i | 0 <= i < |freeList| :: freeList[i] !in table.Values)
      && freeCount == |freeList|
    }

    /** `tmem_init`: the table holds one zeroed dummy descriptor (key 0); nothing is free or used. */
    constructor (dramFree: int, dramBuffer: int, cfg: Config, maxNeighbors: nat)
      requires cfg.Valid()
      ensures Valid()
      ensures table.Keys == {0} && fresh(table[0]) && freeList == [] && dramUsed == 0 && memAllocated == 0
      ensures this.dramFree == dramFree && this.dramBuffer == dramBuffer && this.cfg == cfg
      ensures this.maxNeighbors == maxNeighbors
    {
      var dummy := new Page(0);
      table := map[0 := dummy];
      freeList := [];
      freeCount := 0;
      dramUsed := 0;
      memAllocated := 0;
      this.dramFree := dramFree;
      this.dramBuffer := dramBuffer;
      this.cfg := cfg;
      this.maxNeighbors := maxNeighbors;
    }

    /** `push_free_page`: `p` becomes the head of the free list. */
    method PushFreePage(p: Page)
      requires Valid() && p !in table.Values && p !in freeList
      modifies this
      ensures Valid()
      ensures freeList == [p] + old(freeList)
      ensures table == old(table) && dramUsed == old(dramUsed) && memAllocated == old(memAllocated)
    {
      freeList := [p] + freeList;
      freeCount := freeCount + 1;
    }

    /** `pop_free_page`: the head of the free list, or null when it is empty. */
    method PopFreePage() returns (p: Page?)
      requires Valid()
      modifies this
      ensures Valid()
      ensures old(freeList) == [] ==> p == null && freeList == []
      ensures old(freeList) != [] ==> p == old(freeList)[0] && freeList == old(freeList)[1..]
      ensures p != null ==> p !in table.Values && p !in freeList
      ensures table == old(table) && dramUsed == old(dramUsed) && memAllocated == old(memAllocated)
    {
      if freeList == [] {
        return null;
      }
      p := freeList[0];
      freeList := freeList[1..];
      freeCount := freeCount - 1;
    }

    /** `add_page`: a descriptor whose `va` is already a key is not inserted. */
    method AddPage(page: Page)
      requires Valid() && page !in freeList
      modifies this
      ensures Valid()
      ensures table == AddStep(old(table), page, page.va)
      ensures freeList == old(freeList) && dramUsed == old(dramUsed) && memAllocated == old(memAllocated)
    {
      if page.va !in table {
        table := table[page.va := page];
      }
    }

    /** `remove_page`: the descriptor leaves the table. */
    method RemovePage(page: Page)
      requires Valid() && page.va in table && table[page.va] == page
      modifies this
      ensures table == old(table) - {page.va} && page !in table.Values
      ensures freeList == old(freeList) && dramUsed == old(dramUsed) && memAllocated == old(memAllocated)
      ensures Valid()
    {
      table := table - {page.va};
      assert forall k | k in table :: table[k] != page;
    }

    /** `find_page`: the descriptor filed under `va`, or null. */
    method FindPage(va: int) returns (page: Page?)
      requires Valid()
      ensures va in table ==> page == table[va] && page.va == va
      ensures va !in table ==> page == null
    {
      page := if va in table then table[va] else null;
    }

    /** One iteration of either loop of `tmem_mmap`: fill in the descriptor, then `add_page` it. */
    method Install(page: Page, d: Descriptor, tier: int)
      requires Valid() && page !in freeList && page !in table.Values
      modifies this, page`vaStart, page`va, page`size, page`migUp, page`migDown, page`accesses
      modifies page`migrating, page`localClock, page`hot, page`inDram, page`list
      ensures Valid() && Described(page, d, tier)
      ensures page.cycAccessed == old(page.cycAccessed) && page.ip == old(page.ip) && page.free == old(page.free)
      ensures table == AddStep(old(table), page, d.key)
      ensures freeList == old(freeList) && dramUsed == old(dramUsed) && memAllocated == old(memAllocated)
    {
      Describe(page, d, tier);
      AddPage(page);
    }

    /** The field assignments of one descriptor loop round, before `add_page`. */
    static method Describe(page: Page, d: Descriptor, tier: int)
      modifies page`vaStart, page`va, page`size, page`migUp, page`migDown, page`accesses
      modifies page`migrating, page`localClock, page`hot, page`inDram, page`list
      ensures Described(page, d, tier)
    {
      page.vaStart := d.vaStart;
      page.va := d.key;
      page.size := d.size;
      page.migUp, page.migDown, page.accesses := 0, 0, 0;
      page.migrating, page.localClock, page.hot := false, 0, false;
      page.inDram := tier;
      page.list := OnCold;
    }


    /**
     * After `k` rounds of the recycling loop of `tmem_mmap` for a mapping at
     * `p`: the first `k` descriptors of the free list `free0` are off it and
     * installed, in order, for indices `0 .. k-1`.
     */
    ghost predicate Recycled(t0: map<int, Page>, free0: seq<Page>, p: nat, length: nat, tier: int,
                             k: nat, placed: seq<Page>)
      requires length < Word && p + length <= Word && k <= DescriptorCount(length)
      reads this, placed
    {
      && k <= |free0| && freeList == free0[k..] && placed == free0[..k]
      && table == AddAll(t0, placed, KeysFrom(p, length, 0, k))
      && forall j | 0 <= j < k :: Described(placed[j], DescriptorAt(p, length, j), tier)
    }

    /** One round of the recycling loop: pop the free list and, if it was not empty, install index `k`. */
    method RecycleOne(p: nat, length: nat, tier: int, k: nat, ghost t0: map<int, Page>, ghost free0: seq<Page>,
                      ghost placed: seq<Page>) returns (page: Page?, ghost placed': seq<Page>)
      requires Valid() && Distinct(free0) && length < Word && p + length <= Word && k < DescriptorCount(length)
      requires Recycled(t0, free0, p, length, tier, k, placed)
      modifies this, freeList
      ensures Valid()
      ensures page == null ==> k == |free0| && placed' == placed && Recycled(t0, free0, p, length, tier, k, placed')
      ensures page != null ==> Recycled(t0, free0, p, length, tier, k + 1, placed')
      ensures dramUsed == old(dramUsed) && memAllocated == old(memAllocated)
      ensures forall q | q in freeList :: q in old(freeList) && unchanged(q)
    {
      page := PopFreePage();
      placed' := placed;
      if page == null {
        return;
      }
      var d := DescriptorAt(p, length, k);
      Install(page, d, tier);
      AddAllSnoc(t0, placed, KeysFrom(p, length, 0, k), page, d.key);
      assert free0[..k + 1] == placed + [page];
      placed' := placed + [page];
    }

    /**
     * The recycling loop of `tmem_mmap`: indices `0, 1, ...` take descriptors
     * from the head of the free list until all `n` are placed or the list is
     * empty.
     */
    method RecycleDescriptors(p: nat, length: nat, tier: int) returns (k: nat, ghost placed: seq<Page>)
      requires Valid() && length < Word && p + length <= Word
      modifies this, freeList
      ensures Valid()
      ensures k == Min(|old(freeList)|, DescriptorCount(length))
      ensures placed == old(freeList)[..k] && freeList == old(freeList)[k..]
      ensures table == AddAll(old(table), placed, KeysFrom(p, length, 0, k))
      ensures forall j | 0 <= j < k :: Described(placed[j], DescriptorAt(p, length, j), tier)
      ensures dramUsed == old(dramUsed) && memAllocated == old(memAllocated)
      ensures forall q | q in freeList :: unchanged(q)
    {
      var n := DescriptorCount(length);
      var needed: nat := n;
      k := 0;
      placed := [];
      ghost var t0, free0 := table, freeList;
      while needed > 0
        invariant k + needed == n
        invariant Valid() && Distinct(free0) && Recycled(t0, free0, p, length, tier, k, placed)
        invariant dramUsed == old(dramUsed) && memAllocated == old(memAllocated)
        invariant forall q | q in freeList :: unchanged(q)
      {
        var page;
        page, placed := RecycleOne(p, length, tier, k, t0, free0, placed);
        if page == null {
          break;
        }
        needed := needed - 1;
        k := k + 1;
      }
    }

    /**
     * After `|made|` rounds of the fresh loop of `tmem_mmap` started at index
     * `first`: that many new descriptors are installed, in order.
     */
    ghost predicate Made(t0: map<int, Page>, p: nat, length: nat, tier: int, first: nat, made: seq<Page>)
      requires length < Word && p + length <= Word && first + |made| <= DescriptorCount(length)
      reads this, made
    {
      && table == AddAll(t0, made, KeysFrom(p, length, first, |made|))
      && forall j | 0 <= j < |made| :: Described(made[j], DescriptorAt(p, length, first + j), tier)
    }

    /** The fields `tmem_mmap` never sets, as zero-filled memory leaves them. */
    ghost predicate ZeroFilled(page: Page)
      reads page
    {
      page.cycAccessed == 0 && page.ip == 0 && !page.free
    }

    /** One round of the fresh loop: a new zeroed descriptor installed for index `i`. */
    method FreshOne(p: nat, length: nat, tier: int, first: nat, i: nat, ghost t0: map<int, Page>,
                    ghost made: seq<Page>) returns (ghost made': seq<Page>)
      requires Valid() && length < Word && p + length <= Word && i == first + |made| < DescriptorCount(length)
      requires Made(t0, p, length, tier, first, made)
      modifies this
      ensures |made'| == |made| + 1 && made'[..|made|] == made && fresh(made'[|made|])
      ensures ZeroFilled(made'[|made|])
      ensures Valid() && Made(t0, p, length, tier, first, made')
      ensures freeList == old(freeList) && dramUsed == old(dramUsed) && memAllocated == old(memAllocated)
    {
      var page := new Page(maxNeighbors);
      var d := DescriptorAt(p, length, i);
      Install(page, d, tier);
      AddAllSnoc(t0, made, KeysFrom(p, length, first, |made|), page, d.key);
      made' := made + [page];
    }

    /**
     * The fresh loop of `tmem_mmap`: `count` new zeroed descriptors for the
     * indices `first .. first + count - 1`.
     */
    method FreshDescriptors(p: nat, length: nat, tier: int, first: nat, count: nat) returns (ghost made: seq<Page>)
      requires Valid() && length < Word && p + length <= Word && first + count <= DescriptorCount(length)
      modifies this
      ensures Valid()
      ensures |made| == count && forall j | 0 <= j < count :: fresh(made[j])
      ensures forall j | 0 <= j < count :: ZeroFilled(made[j])
      ensures table == AddAll(old(table), made, KeysFrom(p, length, first, count))
      ensures forall j | 0 <= j < count :: Described(made[j], DescriptorAt(p, length, first + j), tier)
      ensures freeList == old(freeList) && dramUsed == old(dramUsed) && memAllocated == old(memAllocated)
    {
      var needed: nat := count;
      var i: nat := first;
      made := [];
      ghost var t0 := table;
      while needed > 0
        invariant i == first + |made| && |made| + needed == count
        invariant forall j | 0 <= j < |made| :: fresh(made[j])
        invariant forall j | 0 <= j < |made| :: ZeroFilled(made[j])
        invariant Valid() && Made(t0, p, length, tier, first, made)
        invariant freeList == old(freeList) && dramUsed == old(dramUsed) && memAllocated == old(memAllocated)
      {
        made := FreshOne(p, length, tier, first, i, t0, made);
        needed := needed - 1;
        i := i + 1;
      }
    }

    /**
     * The two descriptor loops of `tmem_mmap` for a mapping at `p`: recycle
     * from the free list, then create the rest. The fresh loop continues at
     * the first index the recycling loop left, or, with `restartAtZero` as
     * `tmem_mmap` is written, starts again at index 0.
     */
    method DescribeMapping(p: nat, length: nat, tier: int, restartAtZero: bool) returns (ghost placed: seq<Page>)
      requires Valid() && length < Word && p + length <= Word
      modifies this, freeList
      ensures Valid()
      ensures Installed(old(table), old(freeList), table, freeList, placed, p, length, tier,
                        if restartAtZero then 0 else Min(|old(freeList)|, DescriptorCount(length)))
      ensures forall j | Min(|old(freeList)|, DescriptorCount(length)) <= j < |placed| :: fresh(placed[j])
      ensures dramUsed == old(dramUsed) && memAllocated == old(memAllocated)
      ensures forall q | q in freeList :: unchanged(q)
    {
      var n := DescriptorCount(length);
      ghost var t0, free0 := table, freeList;
      var k, recycled := RecycleDescriptors(p, length, tier);
      var first := if restartAtZero then 0 else k;
      var made := FreshDescriptors(p, length, tier, first, n - k);
      AssembleInstalled(t0, free0, table, freeList, recycled, made, p, length, tier, first);
      placed := recycled + made;
    }

    /**
     * `tmem_mmap` as intended: place the mapping, count it, and give every
     * index `0 .. n-1` of its `n` descriptors one descriptor, recycled ones
     * first and fresh ones for the rest; a failed mapping (`numa_mmap_onnode`
     * returning `NULL`) is reported as `MAP_FAILED` before `mem_allocated`
     * is counted or anything is installed; `dram_used`, charged before the
     * mapping is attempted, stays charged as in the code.
     */
    method Mmap(length: nat, mapped: Option<nat>) returns (r: nat, ghost placed: seq<Page>)
      requires Valid() && length < Word
      requires mapped.Some? ==> mapped.value + length <= Word && mapped.value % BasePageSize == 0
      modifies this, freeList
      ensures Valid()
      ensures FitsInDram(length, old(dramUsed), dramBuffer, dramFree) ==> dramUsed == old(dramUsed) + length
      ensures !FitsInDram(length, old(dramUsed), dramBuffer, dramFree) ==> dramUsed == old(dramUsed)
      ensures mapped.None? ==> r == MapFailed && placed == [] && table == old(table)
                               && freeList == old(freeList) && memAllocated == old(memAllocated)
      ensures mapped.Some? ==> r == mapped.value && memAllocated == old(memAllocated) + length
      ensures mapped.Some? ==>
                Installed(old(table), old(freeList), table, freeList, placed, mapped.value, length,
                          TierOf(cfg, FitsInDram(length, old(dramUsed), dramBuffer, dramFree)),
                          Min(|old(freeList)|, DescriptorCount(length)))
      ensures forall j | Min(|old(freeList)|, DescriptorCount(length)) <= j < |placed| :: fresh(placed[j])
      ensures forall q | q in freeList :: unchanged(q)
    {
      var fits := FitsInDram(length, dramUsed, dramBuffer, dramFree);
      var node := if fits then cfg.dramNode else cfg.remNode;
      placed := [];
      if node == cfg.dramNode {
        dramUsed := dramUsed + length;
      }
      if mapped.None? {
        return MapFailed, placed;
      }
      r := mapped.value;
      memAllocated := memAllocated + length;
      var tier := if node == cfg.dramNode then cfg.inDram else cfg.inRem;
      placed := DescribeMapping(r, length, tier, false);
    }

    /**
     * `tmem_mmap` as written. A failed mapping comes back from
     * `numa_mmap_onnode` as `NULL`, which the `MAP_FAILED` test never matches
     * (`MapFailedNeverReturned`), so descriptors are installed at address 0
     * and `NULL` is returned; and the fresh loop starts its index at 0 again,
     * so its descriptors repeat the recycled indices (`AsWrittenMissesLast`).
     */
    method MmapAsWritten(length: nat, mapped: Option<nat>) returns (r: nat, ghost placed: seq<Page>)
      requires Valid() && length < Word
      requires mapped.Some? ==> mapped.value + length <= Word && mapped.value % BasePageSize == 0
      modifies this, freeList
      ensures Valid()
      ensures FitsInDram(length, old(dramUsed), dramBuffer, dramFree) ==> dramUsed == old(dramUsed) + length
      ensures !FitsInDram(length, old(dramUsed), dramBuffer, dramFree) ==> dramUsed == old(dramUsed)
      ensures r == (if mapped.Some? then mapped.value else 0) && memAllocated == old(memAllocated) + length
      ensures Installed(old(table), old(freeList), table, freeList, placed, r, length,
                        TierOf(cfg, FitsInDram(length, old(dramUsed), dramBuffer, dramFree)), 0)
      ensures forall j | Min(|old(freeList)|, DescriptorCount(length)) <= j < |placed| :: fresh(placed[j])
      ensures forall q | q in freeList :: unchanged(q)
    {
      var fits := FitsInDram(length, dramUsed, dramBuffer, dramFree);
      var node := if fits then cfg.dramNode else cfg.remNode;
      r := if mapped.Some? then mapped.value else 0;
      if node == cfg.dramNode {
        dramUsed := dramUsed + length;
      }
      MapFailedNeverReturned(r);
      if r == MapFailed {
        assert false;
      }
      memAllocated := memAllocated + length;
      var tier := if node == cfg.dramNode then cfg.inDram else cfg.inRem;
      placed := DescribeMapping(r, length, tier, true);
    }

    /**
     * One iteration of `tmem_munmap`: the descriptor filed under `va`, if
     * any, leaves the table, is subtracted from the counters and goes to the
     * head of the free list.
     */
    method UnmapOne(va: int, ghost freed: seq<Page>) returns (ghost found: seq<Page>)
      requires Valid()
      modifies this
      ensures Valid()
      ensures Bytes(freed) == old(Bytes(freed)) && DramBytes(freed, cfg.dramNode) == old(DramBytes(freed, cfg.dramNode))
      ensures found == (if va in old(table) then [old(table)[va]] else [])
      ensures table == old(table) - {va}
      ensures freeList == found + old(freeList)
      ensures dramUsed == old(dramUsed) - DramBytes(found, cfg.dramNode)
      ensures memAllocated == old(memAllocated) - Bytes(found)
    {
      var page := FindPage(va);
      found := [];
      if page != null {
        RemovePage(page);
        if page.inDram == cfg.dramNode {
          dramUsed := dramUsed - page.size;
        }
        memAllocated := memAllocated - page.size;
        PushFreePage(page);
        found := [page];
        assert [page][..0] == [];
      }
    }

    /**
     * Part way through `tmem_munmap`, having looked up `keys`: those keys
     * are gone from the table, the descriptors found there
     * are on the free list (last found first), and their bytes are off the
     * counters.
     */
    ghost predicate Unmapped(t0: map<int, Page>, free0: seq<Page>, dram0: int, mem0: int,
                             keys: seq<int>, freed: seq<Page>)
      reads this, freed
    {
      && table == RemoveAll(t0, keys)
      && freed == Found(t0, keys)
      && freeList == Reverse(freed) + free0
      && dramUsed == dram0 - DramBytes(freed, cfg.dramNode)
      && memAllocated == mem0 - Bytes(freed)
    }

    /** Index `i` of `tmem_munmap`: recompute the key, then unmap what is filed under it. */
    method UnmapIndex(addr: nat, length: nat, i: nat, ghost t0: map<int, Page>, ghost free0: seq<Page>,
                      ghost dram0: int, ghost mem0: int, ghost keys: seq<int>, ghost freed: seq<Page>)
      returns (ghost freed': seq<Page>)
      requires Valid() && length < Word && addr + length <= Word && i < DescriptorCount(length)
      requires UnmapKey(addr, length, i) !in keys
      requires Unmapped(t0, free0, dram0, mem0, keys, freed)
      modifies this
      ensures Valid() && Unmapped(t0, free0, dram0, mem0, keys + [UnmapKey(addr, length, i)], freed')
    {
      var va := UnmapKey(addr, length, i);
      ghost var t := table;
      ghost var found := UnmapOne(va, freed);
      FreedStep(t0, keys, va, freed, t, found, free0);
      BytesAppend(freed, found, cfg.dramNode);
      freed' := freed + found;
    }

    /**
     * `tmem_munmap`: for each index of the range, the descriptor filed under
     * the recomputed key (if any) leaves the table, its bytes are subtracted
     * from `mem_allocated` (and from `dram_used` when its `in_dram` equals
     * `DRAM_NODE`), and it is pushed on the free list. The result is always 0.
     */
    method Munmap(addr: nat, length: nat) returns (r: int, ghost freed: seq<Page>)
      requires Valid() && length < Word && addr + length <= Word
      modifies this
      ensures Valid() && r == 0
      ensures freed == Found(old(table), KeysFrom(addr, length, 0, DescriptorCount(length)))
      ensures table == RemoveAll(old(table), KeysFrom(addr, length, 0, DescriptorCount(length)))
      ensures freeList == Reverse(freed) + old(freeList)
      ensures dramUsed == old(dramUsed) - DramBytes(freed, cfg.dramNode)
      ensures memAllocated == old(memAllocated) - Bytes(freed)
    {
      var n := DescriptorCount(length);
      ghost var t0, free0, dram0, mem0 := table, freeList, dramUsed, memAllocated;
      freed := [];
      for i := 0 to n
        invariant Valid() && Unmapped(t0, free0, dram0, mem0, KeysFrom(addr, length, 0, i), freed)
      {
        NextKey(addr, length, i);
        freed := UnmapIndex(addr, length, i, t0, free0, dram0, mem0, KeysFrom(addr, length, 0, i), freed);
      }
      r := 0;
    }
  }
}
