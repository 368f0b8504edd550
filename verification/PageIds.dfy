/** Pages and their ids, shared by the B+ tree and the storage layer. */
module PageIds {
  const PAGE_SIZE := 4096

  type PageId = int

  /** The all-ones page id; no stored page has it. */
  const INVALID_PAGE_ID: PageId := -1

  /** Page 0 holds the database header. */
  const HEADER_PAGE_ID: PageId := 0
}
