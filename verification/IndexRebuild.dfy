/** Rebuilding an index after recovery: a new index file filled by a scan of the table. */
module IndexRebuild {
  import opened RecordIds
  import opened IndexTree
  import opened IndexState
  import opened IndexHandle
  import opened KeyOrder
  import opened Tables
  import RecordFile
  import HeapFile
  import IndexScanExecutor

  ghost predicate Keyed(heap: Table, ixCols: seq<nat>, cols: seq<Column>) {
    IndexScanExecutor.Shaped(heap, [], ixCols, cols)
  }

  ghost function CodeAt(heap: Table, ixCols: seq<nat>, cols: seq<Column>, rid: Rid): Key
    requires Keyed(heap, ixCols, cols) && rid in heap
  {
    Code(KeyOf(heap[rid], ixCols), cols)
  }

  // The index holds the first record of each key among those before a place.
  ghost predicate FirstOfEach(heap: Table, ixCols: seq<nat>, cols: seq<Column>, contents: map<Key, Rid>, upto: Rid)
    requires Keyed(heap, ixCols, cols)
  {
    && (forall k :: k in contents ==>
      contents[k] in heap && RecordFile.Less(contents[k], upto) && CodeAt(heap, ixCols, cols, contents[k]) == k)
    && (forall rid :: rid in heap && RecordFile.Less(rid, upto) ==>
          CodeAt(heap, ixCols, cols, rid) in contents && !RecordFile.Less(rid,
            contents[CodeAt(heap, ixCols, cols, rid)]))
  }

  lemma EnterNext(heap: Table, ixCols: seq<nat>, cols: seq<Column>, contents: map<Key, Rid>, rid: Rid, next: Rid)
    requires Keyed(heap, ixCols, cols) && rid in heap && FirstOfEach(heap, ixCols, cols, contents, rid)
    requires forall x :: x in heap ==> (RecordFile.Less(x, next) <==> RecordFile.Less(x, rid) || x == rid)
    ensures var k := CodeAt(heap, ixCols, cols, rid);
      FirstOfEach(heap, ixCols, cols, if k in contents then contents else contents[k := rid], next)
  {
    hide CodeAt, Keyed;
  }

  // No two records of the table have the same key.
  ghost predicate UniqueKeys(heap: Table, ixCols: seq<nat>, cols: seq<Column>)
    requires Keyed(heap, ixCols, cols)
  {
    forall x, y :: x in heap && y in heap && x != y ==> CodeAt(heap, ixCols, cols, x) != CodeAt(heap, ixCols, cols, y)
  }

  lemma RebuiltIndexed(heap: Table, ixCols: seq<nat>, cols: seq<Column>, contents: map<Key, Rid>, end: Rid)
    requires Keyed(heap, ixCols, cols) && FirstOfEach(heap, ixCols, cols, contents, end)
    requires forall x :: x in heap ==> RecordFile.Less(x, end)
    ensures IndexScanExecutor.Indexed(heap, [], ixCols, cols, contents) <==> UniqueKeys(heap, ixCols, cols)
    ensures forall rid :: rid in heap ==> CodeAt(heap, ixCols, cols, rid) in contents
  {
    hide IndexScanExecutor.Shaped, Code;
    if UniqueKeys(heap, ixCols, cols) {
      forall rid | rid in heap ensures CodeAt(heap, ixCols, cols, rid) in contents
        && contents[CodeAt(heap, ixCols, cols, rid)] == rid {
      }
    }
    if IndexScanExecutor.Indexed(heap, [], ixCols, cols, contents) {
      forall x, y | x in heap && y in heap && CodeAt(heap, ixCols, cols, x) == CodeAt(heap, ixCols, cols,
        y) ensures x == y {
      }
    }
  }

  /**
   The rebuilt index is sound, holds the first record of each key, and is the table's index exactly if
   the keys are unique.
   */
  method RebuildIndex(fh: RecordFile.RmFileHandle, order: nat, ixCols: seq<nat>, cols: seq<Column>)
    returns (ih: IxIndexHandle)
    requires order > 2 && HeapFile.Sound(fh.State()) && Keyed(HeapFile.Contents(fh.State()), ixCols, cols)
    ensures fresh(ih) && ih.Valid()
    ensures var heap := HeapFile.Contents(fh.State());
      forall rid :: rid in heap ==> CodeAt(heap, ixCols, cols, rid) in ih.contents
    ensures var heap := HeapFile.Contents(fh.State());
      IndexScanExecutor.Indexed(heap, [], ixCols, cols, ih.contents) <==> UniqueKeys(heap, ixCols, cols)
  {
    hide IxIndexHandle.Valid, Whole, HeapFile.Contents, Keyed, FirstOfEach, Code, UniqueKeys, IndexScanExecutor.Indexed,
      HeapFile.Has, RecordFile.NextRecord, CodeAt, HeapFile.Sound;
    ghost var f := fh.State();
    SoundShaped(f);
    ih := new IxIndexHandle(order);
    var scan := new RecordFile.RmScan(fh);
    StartRebuild(f, scan.rid, ixCols, cols);
    while !scan.IsEnd()
      invariant fresh(ih) && fresh(scan) && ih.Valid()
      invariant scan.fh == fh && fh.State() == f && ScanOk(f, scan.rid)
      invariant FirstOfEach(HeapFile.Contents(f), ixCols, cols, ih.contents, scan.rid)
      decreases f.numPages - scan.rid.pageNo, f.perPage - scan.rid.slotNo
    {
      EnterRecord(ih, fh, scan, ixCols, cols);
    }
    EndRebuild(f, scan.rid);
    RebuiltIndexed(HeapFile.Contents(f), ixCols, cols, ih.contents, scan.rid);
  }

  // The cursor of a scan stands on a record, or behind the last page.
  ghost predicate ScanOk(f: HeapFile.File, rid: Rid) {
    rid.pageNo >= FIRST_RECORD_PAGE && -1 <= rid.slotNo < f.perPage
      && (rid.pageNo < f.numPages ==> HeapFile.Has(f, rid))
  }

  // The record's key goes into the index if it is not there yet, and the scan moves on.
  method EnterRecord(ih: IxIndexHandle, fh: RecordFile.RmFileHandle, scan: RecordFile.RmScan, ixCols: seq<nat>,
          cols: seq<Column>)
    requires scan.fh == fh && !scan.IsEnd() && ScanOk(fh.State(), scan.rid)
    requires ih.Valid() && HeapFile.Sound(fh.State()) && Keyed(HeapFile.Contents(fh.State()), ixCols, cols)
    requires FirstOfEach(HeapFile.Contents(fh.State()), ixCols, cols, ih.contents, scan.rid)
    modifies ih, scan
    ensures ih.Valid() && fh.State() == old(fh.State()) && ScanOk(fh.State(), scan.rid)
    ensures scan.rid.pageNo > old(scan.rid).pageNo || (scan.rid.pageNo == old(scan.rid).pageNo
      && scan.rid.slotNo > old(scan.rid).slotNo)
    ensures FirstOfEach(HeapFile.Contents(fh.State()), ixCols, cols, ih.contents, scan.rid)
  {
    hide IxIndexHandle.Valid, Whole, HeapFile.Contents, Keyed, Code, HeapFile.Has, CodeAt, FirstOfEach,
      RecordFile.NextRecord, HeapFile.Sound, Entered;
    ghost var f, rid, before := fh.State(), scan.rid, ih.contents;
    SoundShaped(f);
    RecordFile.RecordAt(f, rid);
    RecordKeyed(HeapFile.Contents(f), ixCols, cols, rid);
    var key := Code(KeyOf(fh.pages[scan.rid.pageNo].slots[scan.rid.slotNo], ixCols), cols);
    var _ := ih.InsertEntry(key, scan.rid);
    scan.Next();
    EnteredIs(HeapFile.Contents(f), ixCols, cols, before, rid, key);
    StepRebuild(f, ixCols, cols, before, ih.contents, rid, scan.rid);
  }

  lemma SoundShaped(f: HeapFile.File)
    requires HeapFile.Sound(f)
    ensures HeapFile.Shaped(f)
  {
  }

  lemma EnteredIs(heap: Table, ixCols: seq<nat>, cols: seq<Column>, contents: map<Key, Rid>, rid: Rid, key: Key)
    requires Keyed(heap, ixCols, cols) && rid in heap && key == CodeAt(heap, ixCols, cols, rid)
    ensures Entered(heap, ixCols, cols, contents, rid) == if key in contents then contents else contents[key := rid]
  {
  }

  ghost function Entered(heap: Table, ixCols: seq<nat>, cols: seq<Column>, contents: map<Key, Rid>,
          rid: Rid): map<Key, Rid>
    requires Keyed(heap, ixCols, cols)
  {
    if rid !in heap || CodeAt(heap, ixCols, cols, rid) in contents then contents
      else contents[CodeAt(heap, ixCols, cols, rid) := rid]
  }

  lemma StepRebuild(f: HeapFile.File, ixCols: seq<nat>, cols: seq<Column>, before: map<Key, Rid>, after: map<Key, Rid>,
          rid: Rid, next: Rid)
    requires HeapFile.Shaped(f) && HeapFile.Has(f, rid) && RecordFile.NextRecord(f, rid, next)
    requires Keyed(HeapFile.Contents(f), ixCols, cols) && FirstOfEach(HeapFile.Contents(f), ixCols, cols, before, rid)
    requires after == Entered(HeapFile.Contents(f), ixCols, cols, before, rid)
    ensures FirstOfEach(HeapFile.Contents(f), ixCols, cols, after, next)
    ensures RecordFile.Less(rid, next) && ScanOk(f, next)
  {
    assert rid.pageNo in f.pages;
    NextRid(f, rid, next);
    hide HeapFile.Contents, Keyed, CodeAt, FirstOfEach, RecordFile.NextRecord, HeapFile.Has;
    EnterNext(HeapFile.Contents(f), ixCols, cols, before, rid, next);
  }

  lemma RecordKeyed(heap: Table, ixCols: seq<nat>, cols: seq<Column>, rid: Rid)
    requires Keyed(heap, ixCols, cols) && rid in heap
    ensures |ixCols| == |cols| && (forall i :: 0 <= i < |ixCols| ==> ixCols[i] < |heap[rid]|)
    ensures CodeAt(heap, ixCols, cols, rid) == Code(KeyOf(heap[rid], ixCols), cols)
  {
  }

  lemma StartRebuild(f: HeapFile.File, first: Rid, ixCols: seq<nat>, cols: seq<Column>)
    requires HeapFile.Shaped(f) && RecordFile.NextRecord(f, Rid(FIRST_RECORD_PAGE, -1), first)
    requires Keyed(HeapFile.Contents(f), ixCols, cols)
    ensures FirstOfEach(HeapFile.Contents(f), ixCols, cols, map[], first)
  {
    hide Keyed, CodeAt;
    forall x | x in HeapFile.Contents(f) ensures !RecordFile.Less(x, first) {
      HeapFile.ContentsAre(f, x);
    }
  }

  lemma NextRid(f: HeapFile.File, rid: Rid, next: Rid)
    requires HeapFile.Shaped(f) && HeapFile.Has(f, rid) && RecordFile.NextRecord(f, rid, next)
    ensures rid in HeapFile.Contents(f)
    ensures forall x :: x in HeapFile.Contents(f) ==>
      (RecordFile.Less(x, next) <==> RecordFile.Less(x, rid) || x == rid)
  {
    HeapFile.ContentsAre(f, rid);
    forall x | x in HeapFile.Contents(f) ensures RecordFile.Less(x, next) <==> RecordFile.Less(x, rid) || x == rid {
      HeapFile.ContentsAre(f, x);
    }
  }

  lemma EndRebuild(f: HeapFile.File, end: Rid)
    requires HeapFile.Shaped(f) && end.pageNo >= f.numPages
    ensures forall x :: x in HeapFile.Contents(f) ==> RecordFile.Less(x, end)
  {
    forall x | x in HeapFile.Contents(f) ensures RecordFile.Less(x, end) {
      HeapFile.ContentsAre(f, x);
    }
  }
}
