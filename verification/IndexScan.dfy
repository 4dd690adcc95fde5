/** The cursor over the leaf list of an index. */
module IndexScan {
  import opened IndexOrder
  import opened IndexState
  import opened IndexHandle

  class IxScan {
    const ih: IxIndexHandle
    const end: Iid
    var iid: Iid

    constructor (ih: IxIndexHandle, lower: Iid, upper: Iid)
      ensures this.ih == ih && iid == lower && end == upper
    {
      this.ih, iid, end := ih, lower, upper;
    }

    predicate IsEnd()
      reads this
    {
      iid == end
    }

    // From the n-th place to the next.
    method Next(ghost n: nat)
      requires ih.Valid() && Points(ih.t, ih.leaves, iid, n) && n < |Keys(ih.t, ih.leaves)|
      modifies this
      ensures Points(ih.t, ih.leaves, iid, n + 1)
    {
      hide *;
      ScanStep(ih, iid, n);
      var next := iid.(slotNo := iid.slotNo + 1);
      if next.pageNo != ih.lastLeaf && next.slotNo == |ih.pages[next.pageNo].keys| {
        next := Iid(ih.pages[next.pageNo].nextLeaf, 0);
      }
      iid := next;
    }
  }

  lemma ScanStep(ih: IxIndexHandle, iid: Iid, n: nat)
    requires ih.Valid() && Points(ih.t, ih.leaves, iid, n) && n < |Keys(ih.t, ih.leaves)|
    ensures iid.pageNo in ih.pages && 0 <= iid.slotNo < |ih.pages[iid.pageNo].keys|
    ensures var p := iid.pageNo;
            var s := iid.slotNo + 1;
            Points(ih.t, ih.leaves, if p != ih.lastLeaf && s == |ih.pages[p].keys| then Iid(ih.pages[p].nextLeaf, 0)
              else Iid(p, s), n + 1)
  {
    hide Whole, Points, Keys;
    NextPlace(ih.pages, ih.t, ih.rootPage, ih.numPages, ih.nextPageNo, ih.MaxSize(), ih.leaves, ih.contents,
      ih.lastLeaf, iid, n);
  }
}
