/** A table: its records and the unique indexes over them, and the changes of one row. */
module TableRows {
  import opened RecordIds
  import opened Bitmap
  import opened Conditions
  import opened KeyOrder
  import HeapFile

  type Heap = map<Rid, Record>

  // Each index takes its key from some columns, and maps it to the record's id.
  datatype TableState = TableState(file: HeapFile.File, width: nat, cols: seq<seq<nat>>, indexes: seq<map<Tuple, Rid>>)

  // ---------------------------------------------------------------- indexes and heap

  // The index is exactly {key of the record to its id}.
  ghost predicate Indexed(heap: Heap, cols: seq<nat>, idx: map<Tuple, Rid>) {
    && (forall rid :: rid in heap ==> KeyOf(heap[rid], cols) in idx && idx[KeyOf(heap[rid], cols)] == rid)
    && (forall k :: k in idx ==> idx[k] in heap && KeyOf(heap[idx[k]], cols) == k)
  }

  ghost predicate AllIndexed(heap: Heap, cols: seq<seq<nat>>, indexes: seq<map<Tuple, Rid>>) {
    |indexes| == |cols| && forall i :: 0 <= i < |cols| ==> Indexed(heap, cols[i], indexes[i])
  }

  // No two records have the same key.
  ghost predicate UniqueOn(heap: Heap, cols: seq<nat>) {
    forall x, y :: x in heap && y in heap && x != y ==> KeyOf(heap[x], cols) != KeyOf(heap[y], cols)
  }

  ghost predicate Unique(heap: Heap, cols: seq<seq<nat>>) {
    forall i :: 0 <= i < |cols| ==> UniqueOn(heap, cols[i])
  }

  lemma IndexedUnique(heap: Heap, cols: seq<seq<nat>>, indexes: seq<map<Tuple, Rid>>)
    requires AllIndexed(heap, cols, indexes)
    ensures Unique(heap, cols)
  {
    forall i | 0 <= i < |cols| ensures UniqueOn(heap, cols[i]) {
      assert Indexed(heap, cols[i], indexes[i]);
    }
  }

  // The records determine the indexes.
  lemma IndexesDetermined(heap: Heap, cols: seq<seq<nat>>, a: seq<map<Tuple, Rid>>, b: seq<map<Tuple, Rid>>)
    requires AllIndexed(heap, cols, a) && AllIndexed(heap, cols, b)
    ensures a == b
  {
    forall i | 0 <= i < |cols| ensures a[i] == b[i] {
      assert Indexed(heap, cols[i], a[i]) && Indexed(heap, cols[i], b[i]);
      assert forall k :: k in a[i] ==> k in b[i] && b[i][k] == a[i][k];
      assert forall k :: k in b[i] ==> k in a[i];
    }
  }

  lemma AddIndexed(heap: Heap, cols: seq<nat>, idx: map<Tuple, Rid>, rid: Rid, rec: Record)
    requires Indexed(heap, cols, idx) && rid !in heap
    ensures KeyOf(rec, cols) !in idx <==> UniqueOn(heap[rid := rec], cols)
    ensures KeyOf(rec, cols) !in idx ==> Indexed(heap[rid := rec], cols, idx[KeyOf(rec, cols) := rid])
  {
    var heap', key := heap[rid := rec], KeyOf(rec, cols);
    if key in idx {
      assert idx[key] in heap' && idx[key] != rid && KeyOf(heap'[idx[key]], cols) == KeyOf(heap'[rid], cols);
    }
  }

  lemma DropIndexed(heap: Heap, cols: seq<nat>, idx: map<Tuple, Rid>, rid: Rid)
    requires Indexed(heap, cols, idx) && rid in heap
    ensures Indexed(heap - {rid}, cols, idx - {KeyOf(heap[rid], cols)})
  {
  }

  // ---------------------------------------------------------------- all indexes of a row

  // delete_entry on every index.
  method DropEntries(cols: seq<seq<nat>>, indexes: seq<map<Tuple, Rid>>, rec: Record)
    returns (indexes': seq<map<Tuple, Rid>>)
    requires |indexes| == |cols|
    ensures |indexes'| == |cols| && forall i :: 0 <= i < |cols| ==> indexes'[i] == indexes[i] - {KeyOf(rec, cols[i])}
  {
    indexes' := indexes;
    for i := 0 to |cols|
      invariant |indexes'| == |cols|
      invariant forall j :: 0 <= j < i ==> indexes'[j] == indexes[j] - {KeyOf(rec, cols[j])}
      invariant forall j :: i <= j < |cols| ==> indexes'[j] == indexes[j]
    {
      indexes' := indexes'[i := indexes'[i] - {KeyOf(rec, cols[i])}];
    }
  }

  // insert_entry on every index: a key that is already there stays as it is.
  method AddEntries(cols: seq<seq<nat>>, indexes: seq<map<Tuple, Rid>>, rec: Record, rid: Rid)
    returns (indexes': seq<map<Tuple, Rid>>)
    requires |indexes| == |cols|
    ensures |indexes'| == |cols|
    ensures forall i :: 0 <= i < |cols| ==>
      indexes'[i] == if KeyOf(rec, cols[i]) in indexes[i] then indexes[i] else indexes[i][KeyOf(rec, cols[i]) := rid]
  {
    indexes' := indexes;
    for i := 0 to |cols|
      invariant |indexes'| == |cols|
      invariant forall j :: 0 <= j < i ==>
        indexes'[j] == if KeyOf(rec, cols[j]) in indexes[j] then indexes[j] else indexes[j][KeyOf(rec, cols[j]) := rid]
      invariant forall j :: i <= j < |cols| ==> indexes'[j] == indexes[j]
    {
      if KeyOf(rec, cols[i]) !in indexes'[i] {
        indexes' := indexes'[i := indexes'[i][KeyOf(rec, cols[i]) := rid]];
      }
    }
  }

  lemma AllDropped(heap: Heap, cols: seq<seq<nat>>, indexes: seq<map<Tuple, Rid>>, indexes': seq<map<Tuple, Rid>>,
          rid: Rid)
    requires AllIndexed(heap, cols, indexes) && rid in heap && |indexes'| == |cols|
    requires forall i :: 0 <= i < |cols| ==> indexes'[i] == indexes[i] - {KeyOf(heap[rid], cols[i])}
    ensures AllIndexed(heap - {rid}, cols, indexes')
  {
    forall i | 0 <= i < |cols| ensures Indexed(heap - {rid}, cols[i], indexes'[i]) {
      DropIndexed(heap, cols[i], indexes[i], rid);
    }
  }

  lemma AllAdded(heap: Heap, cols: seq<seq<nat>>, indexes: seq<map<Tuple, Rid>>, indexes': seq<map<Tuple, Rid>>,
          rid: Rid, rec: Record)
    requires AllIndexed(heap, cols, indexes) && rid !in heap && |indexes'| == |cols|
    requires forall i :: 0 <= i < |cols| ==>
      indexes'[i] == if KeyOf(rec, cols[i]) in indexes[i] then indexes[i] else indexes[i][KeyOf(rec, cols[i]) := rid]
    requires Unique(heap[rid := rec], cols)
    ensures AllIndexed(heap[rid := rec], cols, indexes')
  {
    forall i | 0 <= i < |cols| ensures Indexed(heap[rid := rec], cols[i], indexes'[i]) {
      AddIndexed(heap, cols[i], indexes[i], rid, rec);
    }
  }

  // ---------------------------------------------------------------- a table

  ghost function HeapOf(ts: TableState): Heap {
    HeapFile.Contents(ts.file)
  }

  ghost predicate Wide(heap: Heap, width: nat) {
    forall rid :: rid in heap ==> |heap[rid]| == width
  }

  ghost predicate TableOk(ts: TableState) {
    HeapFile.Sound(ts.file) && Wide(HeapOf(ts), ts.width) && AllIndexed(HeapOf(ts), ts.cols, ts.indexes)
  }

  ghost predicate Placed(ts: TableState, rid: Rid) {
    rid.pageNo in ts.file.pages && 0 <= rid.slotNo < ts.file.perPage
  }

  // The same columns and indexes, and no page less.
  ghost predicate Keeps(ts: TableState, ts': TableState) {
    && ts'.width == ts.width && ts'.cols == ts.cols && ts'.file.perPage == ts.file.perPage
    && (forall p :: p in ts.file.pages ==> p in ts'.file.pages)
  }

  // Moreover, a chain of pages with room if there was one.
  ghost predicate Follows(ts: TableState, ts': TableState) {
    Keeps(ts, ts') && (HeapFile.Linked(ts.file) ==> HeapFile.Linked(ts'.file))
  }

  method GetRecord(f: HeapFile.File, rid: Rid) returns (found: bool, rec: Record)
    requires HeapFile.Sound(f)
    ensures found <==> rid in HeapFile.Contents(f)
    ensures found ==> rec == HeapFile.Contents(f)[rid]
  {
    HeapFile.ContentsAre(f, rid);
    hide HeapFile.Contents;
    found, rec := false, [];
    if rid.pageNo in f.pages && 0 <= rid.slotNo < f.perPage {
      assert HeapFile.PageShape(f, rid.pageNo);
      if IsSet(f.pages[rid.pageNo].bitmap, rid.slotNo) {
        found, rec := true, f.pages[rid.pageNo].slots[rid.slotNo];
      }
    }
  }

  // The index entries go, then the record.
  method DeleteRow(ts: TableState, rid: Rid, rec: Record) returns (ts': TableState)
    requires TableOk(ts) && rid in HeapOf(ts) && rec == HeapOf(ts)[rid]
    ensures TableOk(ts') && HeapOf(ts') == HeapOf(ts) - {rid} && Follows(ts, ts') && Placed(ts', rid)
  {
    var indexes := DropEntries(ts.cols, ts.indexes, rec);
    AllDropped(HeapOf(ts), ts.cols, ts.indexes, indexes, rid);
    HeapDelete(ts.file, rid);
    ts' := ts.(file := HeapFile.Removed(ts.file, rid), indexes := indexes);
    hide HeapFile.Contents, HeapFile.Sound, HeapFile.Linked, HeapFile.Removed, AllIndexed;
  }

  lemma HeapDelete(f: HeapFile.File, rid: Rid)
    requires HeapFile.Sound(f) && rid in HeapFile.Contents(f)
    ensures HeapFile.Has(f, rid) && rid.pageNo in f.pages && 0 <= rid.slotNo < WIDTH * |f.pages[rid.pageNo].bitmap|
    ensures var f' := HeapFile.Removed(f, rid);
      HeapFile.Sound(f') && HeapFile.Contents(f') == HeapFile.Contents(f) - {rid}
    ensures var f' := HeapFile.Removed(f, rid);
      f'.perPage == f.perPage && f'.pages.Keys == f.pages.Keys && 0 <= rid.slotNo < f'.perPage
    ensures HeapFile.Linked(f) ==> HeapFile.Linked(HeapFile.Removed(f, rid))
  {
    HeapFile.ContentsAre(f, rid);
    HeapFile.RemovedSound(f, rid);
    HeapFile.RemovedContents(f, rid);
    assert HeapFile.PageShape(f, rid.pageNo);
    if HeapFile.Linked(f) {
      HeapFile.StepLinked(f, HeapFile.OpDelete(rid));
    }
    hide HeapFile.Contents, HeapFile.Sound, HeapFile.Linked;
  }

  // The old index entries go, the record is rewritten in place, the new entries come.
  method UpdateRow(ts: TableState, rid: Rid, before: Record, rec: Record) returns (ts': TableState)
    requires TableOk(ts) && rid in HeapOf(ts) && before == HeapOf(ts)[rid] && |rec| == ts.width
    requires Unique(HeapOf(ts)[rid := rec], ts.cols)
    ensures TableOk(ts') && HeapOf(ts') == HeapOf(ts)[rid := rec] && Follows(ts, ts') && Placed(ts', rid)
  {
    ghost var heap := HeapOf(ts);
    var dropped := DropEntries(ts.cols, ts.indexes, before);
    AllDropped(heap, ts.cols, ts.indexes, dropped, rid);
    HeapUpdate(ts.file, rid, rec);
    var file := HeapFile.Rewritten(ts.file, rid, rec);
    var indexes := AddEntries(ts.cols, dropped, rec, rid);
    assert (heap - {rid})[rid := rec] == heap[rid := rec];
    AllAdded(heap - {rid}, ts.cols, dropped, indexes, rid, rec);
    ts' := ts.(file := file, indexes := indexes);
    hide HeapFile.Contents, HeapFile.Sound, HeapFile.Linked, HeapFile.Rewritten, AllIndexed, Unique;
  }

  lemma HeapUpdate(f: HeapFile.File, rid: Rid, rec: Record)
    requires HeapFile.Sound(f) && rid in HeapFile.Contents(f)
    ensures rid.pageNo in f.pages && 0 <= rid.slotNo < |f.pages[rid.pageNo].slots|
    ensures var f' := HeapFile.Rewritten(f, rid, rec);
      HeapFile.Sound(f') && HeapFile.Contents(f') == HeapFile.Contents(f)[rid := rec]
    ensures var f' := HeapFile.Rewritten(f, rid, rec);
      f'.perPage == f.perPage && f'.pages.Keys == f.pages.Keys && 0 <= rid.slotNo < f'.perPage
    ensures HeapFile.Linked(f) ==> HeapFile.Linked(HeapFile.Rewritten(f, rid, rec))
  {
    HeapFile.ContentsAre(f, rid);
    assert HeapFile.PageShape(f, rid.pageNo);
    HeapFile.RewrittenContents(f, rid, rec);
    if HeapFile.Linked(f) {
      HeapFile.StepLinked(f, HeapFile.OpUpdate(rid, rec));
    }
    hide HeapFile.Contents, HeapFile.Sound, HeapFile.Linked;
  }

  // The record goes to an unused place, then its index entries come.
  method InsertRow(ts: TableState, rec: Record) returns (ts': TableState, rid: Rid)
    requires TableOk(ts) && HeapFile.HeadHasRoom(ts.file) && |rec| == ts.width
    requires forall i :: 0 <= i < |ts.cols| ==> KeyOf(rec, ts.cols[i]) !in ts.indexes[i]
    ensures rid !in HeapOf(ts)
    ensures TableOk(ts') && HeapOf(ts') == HeapOf(ts)[rid := rec] && Follows(ts, ts') && Placed(ts', rid)
  {
    ghost var heap := HeapOf(ts);
    HeapInsert(ts.file, rec);
    rid := HeapFile.InsertedAt(ts.file);
    var file := HeapFile.Inserted(ts.file, rec);
    var indexes := AddEntries(ts.cols, ts.indexes, rec, rid);
    NewKeys(heap, ts.cols, ts.indexes, rid, rec);
    AllAdded(heap, ts.cols, ts.indexes, indexes, rid, rec);
    ts' := ts.(file := file, indexes := indexes);
    hide HeapFile.Contents, HeapFile.Sound, HeapFile.Linked, HeapFile.Inserted, HeapFile.InsertedAt, AllIndexed, Unique;
  }

  lemma NewKeys(heap: Heap, cols: seq<seq<nat>>, indexes: seq<map<Tuple, Rid>>, rid: Rid, rec: Record)
    requires AllIndexed(heap, cols, indexes) && rid !in heap
    ensures Unique(heap[rid := rec], cols) <==> forall i :: 0 <= i < |cols| ==> KeyOf(rec, cols[i]) !in indexes[i]
  {
    forall i | 0 <= i < |cols| ensures UniqueOn(heap[rid := rec], cols[i]) <==> KeyOf(rec, cols[i]) !in indexes[i] {
      AddIndexed(heap, cols[i], indexes[i], rid, rec);
    }
  }

  lemma HeapInsert(f: HeapFile.File, rec: Record)
    requires HeapFile.Sound(f) && HeapFile.HeadHasRoom(f)
    ensures var f', rid := HeapFile.Inserted(f, rec), HeapFile.InsertedAt(f);
      HeapFile.Sound(f') && rid !in HeapFile.Contents(f) && HeapFile.Contents(f') == HeapFile.Contents(f)[rid := rec]
    ensures var f', rid := HeapFile.Inserted(f, rec), HeapFile.InsertedAt(f);
      f'.perPage == f.perPage && (forall p :: p in f.pages ==> p in f'.pages) && rid.pageNo in f'.pages
        && 0 <= rid.slotNo < f'.perPage
    ensures HeapFile.Linked(f) ==> HeapFile.Linked(HeapFile.Inserted(f, rec))
  {
    HeapFile.InsertedContents(f, rec);
    if HeapFile.Linked(f) {
      HeapFile.StepLinked(f, HeapFile.OpInsert(rec));
    }
    HeapFile.RoomFound(f);
    hide HeapFile.Contents, HeapFile.Sound, HeapFile.Linked;
  }

  // What abort does for a deleted record: back to its place, then its index entries come back.
  method RestoreRow(ts: TableState, rid: Rid, rec: Record) returns (ts': TableState)
    requires TableOk(ts) && rid !in HeapOf(ts) && Placed(ts, rid) && |rec| == ts.width
    requires Unique(HeapOf(ts)[rid := rec], ts.cols)
    ensures TableOk(ts') && HeapOf(ts') == HeapOf(ts)[rid := rec]
    ensures Keeps(ts, ts')
    ensures HeapFile.Linked(ts.file) ==>
      (HeapFile.Linked(ts'.file) <==> HeapFile.OffChain(ts.file, rid.pageNo) || HasRoom(HeapOf(ts'), ts.file.perPage,
        rid.pageNo))
  {
    ghost var heap := HeapOf(ts);
    HeapPut(ts.file, rid, rec);
    ChainAfterPut(ts.file, rid, rec);
    var file := HeapFile.Put(ts.file, rid, rec);
    var indexes := AddEntries(ts.cols, ts.indexes, rec, rid);
    AllAdded(heap, ts.cols, ts.indexes, indexes, rid, rec);
    ts' := ts.(file := file, indexes := indexes);
    hide HeapFile.Contents, HeapFile.Sound, HeapFile.Put, HeapFile.Linked, HeapFile.OffChain, HasRoom, AllIndexed,
      Unique;
  }

  // The page has a free slot.
  ghost predicate HasRoom(heap: Heap, perPage: nat, p: int) {
    exists s :: 0 <= s < perPage && Rid(p, s) !in heap
  }

  lemma RoomOf(f: HeapFile.File, p: int)
    requires HeapFile.Sound(f) && p in f.pages
    ensures HasRoom(HeapFile.Contents(f), f.perPage, p) <==> f.pages[p].numRecords < f.perPage
  {
    assert HeapFile.PageShape(f, p);
    HeapFile.CountClear(f.pages[p].bitmap, f.perPage);
    forall s | 0 <= s < f.perPage ensures Rid(p, s) in HeapFile.Contents(f) <==> IsSet(f.pages[p].bitmap, s) {
      HeapFile.ContentsAre(f, Rid(p, s));
    }
    hide HeapFile.Contents, HeapFile.Count;
  }

  lemma ChainAfterPut(f: HeapFile.File, rid: Rid, rec: Record)
    requires HeapFile.Sound(f) && rid !in HeapFile.Contents(f) && rid.pageNo in f.pages && 0 <= rid.slotNo < f.perPage
    ensures 0 <= rid.slotNo < |f.pages[rid.pageNo].slots| && rid.slotNo < WIDTH * |f.pages[rid.pageNo].bitmap|
    ensures var f' := HeapFile.Put(f, rid, rec);
      HeapFile.Linked(f) ==>
        (HeapFile.Linked(f') <==> HeapFile.OffChain(f, rid.pageNo) || HasRoom(HeapFile.Contents(f'), f.perPage,
          rid.pageNo))
  {
    assert HeapFile.PageShape(f, rid.pageNo);
    HeapPut(f, rid, rec);
    HeapFile.PutEffect(f, rid, rec);
    RoomOf(HeapFile.Put(f, rid, rec), rid.pageNo);
    HeapFile.ContentsAre(f, rid);
    hide HeapFile.Contents, HeapFile.OffChain, HasRoom, HeapFile.Sound;
    if HeapFile.Linked(f) {
      HeapFile.PutLinked(f, rid, rec);
    }
  }

  lemma HeapPut(f: HeapFile.File, rid: Rid, rec: Record)
    requires HeapFile.Sound(f) && rid !in HeapFile.Contents(f) && rid.pageNo in f.pages && 0 <= rid.slotNo < f.perPage
    ensures 0 <= rid.slotNo < |f.pages[rid.pageNo].slots| && rid.slotNo < WIDTH * |f.pages[rid.pageNo].bitmap|
    ensures var f' := HeapFile.Put(f, rid, rec);
      HeapFile.Sound(f') && HeapFile.Contents(f') == HeapFile.Contents(f)[rid := rec]
    ensures HeapFile.Put(f, rid, rec).perPage == f.perPage && HeapFile.Put(f, rid, rec).pages.Keys == f.pages.Keys
  {
    assert HeapFile.PageShape(f, rid.pageNo);
    HeapFile.ContentsAre(f, rid);
    HeapFile.PutSound(f, rid, rec);
    HeapFile.PutContents(f, rid, rec);
    HeapFile.PutEffect(f, rid, rec);
    hide HeapFile.Contents, HeapFile.Sound;
  }
}
