/** A page: a fixed-size byte buffer plus its bookkeeping fields. */
module Pages {
  import opened Bytes

  /** Size of a page in bytes. */
  const PAGE_SIZE: nat := 4096

  /** Page identifiers are unsigned machine words. */
  type PageId = nat

  /** The page buffer `[u8; PAGE_SIZE]`: exactly `PAGE_SIZE` bytes. */
  type PageData = s: seq<u8> | |s| == PAGE_SIZE witness Zeroes(PAGE_SIZE)

  datatype Page = Page(id: PageId, data: PageData, dirty: bool, usedSpace: nat, pinned: nat)

  /** `Page::new`: identifier 0, a zeroed buffer, clean, empty and pinned once. */
  function NewPage(): (p: Page)
    ensures p.id == 0 && |p.data| == PAGE_SIZE && AllZero(p.data)
    ensures !p.dirty && p.usedSpace == 0 && p.pinned == 1
  {
    Page(0, Zeroes(PAGE_SIZE), false, 0, 1)
  }

  /** `Default::default` for pages, written out on its own as in the source. */
  function DefaultPage(): (p: Page)
    ensures p == NewPage()
  {
    Page(id := 0, data := Zeroes(PAGE_SIZE), dirty := false, usedSpace := 0, pinned := 1)
  }
}
