/** What a stored page holds: the database header, or 4096 bytes that the storage layer does not look into. */
module PageImages {
  import opened PageIds
  import opened Bytes

  datatype DatabaseHeader = DatabaseHeader(databaseId: nat, pageCount: nat)

  /** HeaderImage is a page that DatabaseHeader::decode accepts. */
  datatype Image = HeaderImage(header: DatabaseHeader) | DataImage(bytes: Bytes)

  /** A page that nothing was written to. */
  function ZeroPage(): Image {
    DataImage(seq(PAGE_SIZE, _ => 0))
  }
}
