/**
 * The page descriptor shared by the tiering runtime: one `struct tmem_page`
 * per 2 MB region (or smaller tail) of an application mapping. The struct's
 * declaration is not part of this model; its fields are those the runtime's
 * code reads and writes.
 */
module Pages {
  /** Which FIFO list a descriptor is on (`page->list`): none, the hot list or the cold list. */
  datatype ListTag = NoList | OnHot | OnCold

  /**
   * The numeric constants the runtime compares `in_dram` and node numbers
   * with. Their definitions are not part of this model, so they are
   * parameters: `DRAM_NODE`/`REM_NODE` are NUMA node numbers, `IN_DRAM`/`IN_REM`
   * the values stored in `page->in_dram`.
   */
  datatype Config = Config(dramNode: int, remNode: int, inDram: int, inRem: int)
  {
    predicate Valid() {
      dramNode != remNode && inDram != inRem
    }
  }

  /** One neighbour slot of a descriptor: the page, its distance and the cycle difference. */
  datatype Neighbor = Neighbor(page: Page?, distance: real, timeDiff: int)

  /** A slot as zero-initialised memory leaves it. */
  const EmptyNeighbor: Neighbor := Neighbor(null, 0.0, 0)

  class Page {
    var va: int            // the key of the page table
    var vaStart: int       // first byte of the region
    var size: int          // bytes in the region
    var cycAccessed: int   // cycle stamp of the last recorded access
    var ip: int
    var accesses: nat      // heat counter
    var localClock: int    // `global_clock` at the last cooling
    var hot: bool
    var free: bool
    var inDram: int
    var list: ListTag
    var migUp: int
    var migDown: int
    var migrating: bool
    const neighbors: array<Neighbor>

    /** A descriptor in zero-filled memory, with `maxNeighbors` empty neighbour slots. */
    constructor (maxNeighbors: nat)
      ensures va == 0 && vaStart == 0 && size == 0 && cycAccessed == 0 && ip == 0
      ensures accesses == 0 && localClock == 0 && !hot && !free && inDram == 0 && list == NoList
      ensures migUp == 0 && migDown == 0 && !migrating
      ensures fresh(neighbors) && neighbors.Length == maxNeighbors
      ensures forall j | 0 <= j < maxNeighbors :: neighbors[j] == EmptyNeighbor
    {
      va, vaStart, size, cycAccessed, ip := 0, 0, 0, 0, 0;
      accesses, localClock, hot, free, inDram, list := 0, 0, false, false, 0, NoList;
      migUp, migDown, migrating := 0, 0, false;
      neighbors := new Neighbor[maxNeighbors](_ => EmptyNeighbor);
    }
  }
}
