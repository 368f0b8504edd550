/** The page store that trees live in. */
module BTreeStore {
  import opened PageIds
  import opened BTreePages

  /** The pages of the database as the pager hands them out. */
  class PageStore {
    var pages: Pages
    var pageCount: int

    ghost predicate Valid()
      reads this
    {
      pageCount >= 1 && forall id :: id in pages ==> 1 <= id < pageCount
    }

    /** new_page, with the page initialised to the given view. */
    method NewPage(page: Page) returns (id: PageId)
      requires Valid()
      modifies this
      ensures Valid() && id == old(pageCount) && pageCount == old(pageCount) + 1
      ensures id !in old(pages) && id != INVALID_PAGE_ID && pages == old(pages)[id := page]
    {
      id := pageCount;
      pages := pages[id := page];
      pageCount := pageCount + 1;
    }
  }
}
