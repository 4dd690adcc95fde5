/** Start-up as a whole: recovery of the pages, then the free chain and the indexes of a table. */
module StartUp {
  import opened RecordIds
  import opened Conditions
  import opened KeyOrder
  import opened Tables
  import opened RecoveryLog
  import opened Recovery
  import opened RecordFile
  import opened IndexHandle
  import opened IndexRebuild
  import HeapFile
  import IndexScanExecutor

  datatype IndexSpec = IndexSpec(order: nat, ixCols: seq<nat>, cols: seq<Column>)

  function ValueOf(heap: Table, rid: Rid): Val {
    if rid in heap then Present(heap[rid]) else Absent
  }

  // The records of the table file are those that the pages hold for recovery.
  ghost predicate Shows(heap: Table, db: Db, tab: int) {
    forall rid :: ValueOf(heap, rid) == At(db, Place(tab, rid))
  }

  // The table holds what the winners alone would have left.
  ghost predicate Won(heap: Table, log: Log, base: map<Place, Record>, winners: set<int>, tab: int) {
    forall rid :: ValueOf(heap, rid) == WonAt(log, Place(tab, rid), Base(base, Place(tab, rid)), |log|, winners)
  }

  ghost predicate SpecOk(heap: Table, spec: IndexSpec) {
    spec.order > 2 && Keyed(heap, spec.ixCols, spec.cols)
  }

  // The index is exactly that of the table if and only if no two records have the same key.
  ghost predicate Rebuilt(heap: Table, spec: IndexSpec, ih: IxIndexHandle)
    requires SpecOk(heap, spec)
    reads ih
  {
    && ih.Valid()
    && (IndexScanExecutor.Indexed(heap, [], spec.ixCols, spec.cols, ih.contents)
        <==> UniqueKeys(heap, spec.ixCols, spec.cols))
  }

  /**
   Start-up after a crash, seen from one table: it throws if and only if some file is too short for its header.
   Otherwise the table holds the winners' records, its chain runs through exactly the pages with room, and each of
   its indexes leads from the keys of these records to their places if and only if the keys are unique.
   */
  method StartUp(log: Log, disk: Db, ghost base: map<Place, Record>, tab: int, fh: RmFileHandle, specs: seq<IndexSpec>)
    returns (thrown: bool, indexes: seq<IxIndexHandle>, ghost chain: seq<int>, ghost v: Verdict)
    requires forall v :: Analyzed(log, |log|, v) ==> Restorable(disk, log, base, Winners(v))
    requires forall v :: Analyzed(log, |log|, v) ==>
      Shows(HeapFile.Contents(fh.State()), EndOf(disk, log, v), tab)
    requires tab in disk && HeapFile.Shaped(fh.State())
    requires forall k :: 0 <= k < |specs| ==> SpecOk(HeapFile.Contents(fh.State()), specs[k])
    modifies fh
    ensures Analyzed(log, |log|, v) && (thrown <==> !DbOk(disk))
    ensures !thrown ==> Won(HeapFile.Contents(fh.State()), log, base, Winners(v), tab)
    ensures !thrown ==> HeapFile.Linked(fh.State()) && HeapFile.Chained(fh.State(), chain)
    ensures !thrown ==> forall p :: p in chain <==> p in fh.pages && fh.pages[p].numRecords < fh.perPage
    ensures !thrown ==> |indexes| == |specs| && forall k :: 0 <= k < |specs| ==>
      fresh(indexes[k]) && SpecOk(HeapFile.Contents(fh.State()), specs[k])
        && Rebuilt(HeapFile.Contents(fh.State()), specs[k], indexes[k])
  {
    hide Analyzed, Restorable, DbOk, At, WonAt, HeapFile.Contents, HeapFile.Shaped, EndOf, Keyed, UniqueKeys,
      IndexScanExecutor.Indexed, IxIndexHandle.Valid, HeapFile.Chained;
    indexes, chain := [], [];
    var db;
    thrown, db, v := Recover(log, disk, base);
    if thrown {
      return;
    }
    assert Won(HeapFile.Contents(fh.State()), log, base, Winners(v), tab) by {
      WonShown(HeapFile.Contents(fh.State()), db, log, base, Winners(v), tab);
    }
    hide Won, Shows;
    chain := RebuildFreeList(fh);
    ghost var heap := HeapFile.Contents(fh.State());
    for k := 0 to |specs|
      invariant |indexes| == k && HeapFile.Contents(fh.State()) == heap && HeapFile.Linked(fh.State())
      invariant HeapFile.Chained(fh.State(), chain)
      invariant forall p :: p in chain <==> p in fh.pages && fh.pages[p].numRecords < fh.perPage
      invariant forall j :: 0 <= j < k ==> fresh(indexes[j]) && Rebuilt(heap, specs[j], indexes[j])
    {
      var ih := RebuildIndex(fh, specs[k].order, specs[k].ixCols, specs[k].cols);
      indexes := indexes + [ih];
    }
  }

  lemma WonShown(heap: Table, db: Db, log: Log, base: map<Place, Record>, winners: set<int>, tab: int)
    requires Shows(heap, db, tab)
    requires forall rid :: At(db, Place(tab, rid)) == WonAt(log, Place(tab, rid), Base(base, Place(tab, rid)), |log|,
      winners)
    ensures Won(heap, log, base, winners, tab)
  {
    hide At, WonAt;
  }
}
