/** The disk manager: all pages live in one file, page `p` at byte `p * PAGE_SIZE`. */
module DiskManagement {
  import opened Pages

  /** Byte offset at which `read_page` and `write_page` address `page`. */
  function PageOffset(page: PageId): (offset: nat)
    ensures offset % PAGE_SIZE == 0 && offset / PAGE_SIZE == page
  {
    page * PAGE_SIZE
  }

  /** Distinct pages occupy disjoint byte ranges of the file. */
  lemma PageRangesDisjoint(p: PageId, q: PageId)
    requires p != q
    ensures PageOffset(p) + PAGE_SIZE <= PageOffset(q) || PageOffset(q) + PAGE_SIZE <= PageOffset(p)
  {
    if p < q {
      assert PageOffset(q) - PageOffset(p) == (q - p) * PAGE_SIZE;
    } else {
      assert PageOffset(p) - PageOffset(q) == (p - q) * PAGE_SIZE;
    }
  }

  class DiskManager {
    /** The identifier the next allocation hands out. */
    var nextPageId: PageId
    /** Name of the backing file; the file itself is not modelled. */
    const fileName: string
    /** Every identifier handed out so far. */
    ghost var issued: set<PageId>

    ghost predicate Valid()
      reads this
    {
      forall p :: p in issued ==> p < nextPageId
    }

    /** `DiskManager::new`: no page allocated yet. */
    constructor (dbFileName: string)
      ensures Valid()
      ensures nextPageId == 0 && issued == {} && fileName == dbFileName
    {
      nextPageId := 0;
      fileName := dbFileName;
      issued := {};
    }

    /** `allocate_page`: returns the current counter and bumps it; no identifier is issued twice. */
    method AllocatePage() returns (id: PageId)
      requires Valid()
      modifies this
      ensures Valid()
      ensures id == old(nextPageId) && nextPageId == id + 1
      ensures id !in old(issued) && issued == old(issued) + {id}
    {
      id := nextPageId;
      nextPageId := nextPageId + 1;
      issued := issued + {id};
    }

    /** `deallocate_page`: an empty associated function; it changes nothing. */
    static method DeallocatePage(page: PageId)
    {
    }
  }
}
