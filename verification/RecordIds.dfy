/** Record ids and page ids. */
module RecordIds {

  // A page and a slot in it.
  datatype Rid = Rid(pageNo: int, slotNo: int)

  // A page of a file.
  datatype PageId = PageId(fd: int, pageNo: int)

  // Page 0 of a table file holds its header.
  const FIRST_RECORD_PAGE := 1
}
