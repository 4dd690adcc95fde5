/** The write set of a transaction, and what undoing it backwards leaves. */
module Rollback {
  import opened RecordIds
  import opened Conditions
  import opened TableRows
  import HeapFile

  // An inserted record, or the old value of a deleted or updated one.
  datatype WriteRec =
    | InsertTuple(tab: string, rid: Rid)
    | DeleteTuple(tab: string, rid: Rid, rec: Record)
    | UpdateTuple(tab: string, rid: Rid, rec: Record)

  type Tables = map<string, TableState>

  type Heaps = map<string, Heap>

  datatype Schema = Schema(width: nat, cols: seq<seq<nat>>)

  ghost function HeapsOf(tables: Tables): Heaps {
    map n | n in tables :: HeapOf(tables[n])
  }

  ghost function SchemasOf(tables: Tables): map<string, Schema> {
    map n | n in tables :: Schema(tables[n].width, tables[n].cols)
  }

  ghost function UndoHeap(heap: Heap, w: WriteRec): Heap {
    match w
    case InsertTuple(_, rid) => heap - {rid}
    case DeleteTuple(_, rid, rec) => heap[rid := rec]
    case UpdateTuple(_, rid, rec) => heap[rid := rec]
  }

  // The heap is as the recorded write left it, as far as the record is concerned.
  ghost predicate Undoable(heap: Heap, w: WriteRec) {
    w.rid in heap <==> !w.DeleteTuple?
  }

  // The heaps after undoing the write set from its end.
  ghost function Rewind(heaps: Heaps, ws: seq<WriteRec>): Heaps {
    if ws == [] then heaps
    else
      var w := ws[|ws| - 1];
      Rewind(if w.tab in heaps then heaps[w.tab := UndoHeap(heaps[w.tab], w)] else heaps, ws[..|ws| - 1])
  }

  // Every heap met while undoing satisfies the unique indexes.
  ghost predicate Reversible(heaps: Heaps, schemas: map<string, Schema>, ws: seq<WriteRec>) {
    if ws == [] then true
    else
      var w := ws[|ws| - 1];
      && w.tab in heaps && w.tab in schemas && Undoable(heaps[w.tab], w)
      && Wide(UndoHeap(heaps[w.tab], w), schemas[w.tab].width)
      && Unique(UndoHeap(heaps[w.tab], w), schemas[w.tab].cols)
      && Reversible(heaps[w.tab := UndoHeap(heaps[w.tab], w)], schemas, ws[..|ws| - 1])
  }

  ghost predicate AllOk(tables: Tables) {
    forall n :: n in tables ==> TableOk(tables[n])
  }

  ghost predicate AllPlaced(tables: Tables, ws: seq<WriteRec>) {
    forall i :: 0 <= i < |ws| ==> ws[i].tab in tables && Placed(tables[ws[i].tab], ws[i].rid)
  }

  ghost predicate AllLinked(tables: Tables) {
    forall n :: n in tables ==> HeapFile.Linked(tables[n].file)
  }

  // Every index is {key of record to id}, and the write set leads back to where the transaction began.
  ghost predicate SessionOk(tables: Tables, ws: seq<WriteRec>) {
    AllOk(tables) && AllPlaced(tables, ws) && Reversible(HeapsOf(tables), SchemasOf(tables), ws)
  }

  // Where undoing everything leads.
  ghost function Origin(tables: Tables, ws: seq<WriteRec>): Heaps {
    Rewind(HeapsOf(tables), ws)
  }

  lemma PlacedKept(tables: Tables, ws: seq<WriteRec>, tab: string, ts': TableState)
    requires tab in tables && Keeps(tables[tab], ts') && AllPlaced(tables, ws)
    ensures AllPlaced(tables[tab := ts'], ws)
  {
  }

  lemma SchemaKept(tables: Tables, tab: string, ts': TableState)
    requires tab in tables && Keeps(tables[tab], ts')
    ensures SchemasOf(tables[tab := ts']) == SchemasOf(tables)
    ensures HeapsOf(tables[tab := ts']) == HeapsOf(tables)[tab := HeapOf(ts')]
  {
    hide HeapOf;
  }

  lemma OneMoreWrite(heaps: Heaps, heaps': Heaps, schemas: map<string, Schema>, ws: seq<WriteRec>, w: WriteRec)
    requires w.tab in heaps' && w.tab in schemas && Undoable(heaps'[w.tab], w)
    requires heaps == heaps'[w.tab := UndoHeap(heaps'[w.tab], w)]
    requires Wide(heaps[w.tab], schemas[w.tab].width) && Unique(heaps[w.tab], schemas[w.tab].cols)
    requires Reversible(heaps, schemas, ws)
    ensures Reversible(heaps', schemas, ws + [w]) && Rewind(heaps', ws + [w]) == Rewind(heaps, ws)
  {
    hide UndoHeap, Undoable, Unique, Wide;
    assert (ws + [w])[..|ws|] == ws && (ws + [w])[|ws|] == w;
  }

  lemma OneWriteLess(heaps: Heaps, heaps': Heaps, schemas: map<string, Schema>, ws: seq<WriteRec>)
    requires ws != [] && Reversible(heaps, schemas, ws)
    requires var w := ws[|ws| - 1]; w.tab in heaps && heaps' == heaps[w.tab := UndoHeap(heaps[w.tab], w)]
    ensures Reversible(heaps', schemas, ws[..|ws| - 1]) && Rewind(heaps', ws[..|ws| - 1]) == Rewind(heaps, ws)
  {
    hide UndoHeap, Undoable, Unique, Wide;
  }

  lemma TableFacts(ts: TableState)
    requires TableOk(ts)
    ensures Wide(HeapOf(ts), ts.width) && Unique(HeapOf(ts), ts.cols)
  {
    hide HeapOf, Wide, Unique, HeapFile.Sound;
    IndexedUnique(HeapOf(ts), ts.cols, ts.indexes);
  }

  lemma HeapsAt(tables: Tables, n: string)
    ensures n in HeapsOf(tables) <==> n in tables
    ensures n in tables ==> HeapsOf(tables)[n] == HeapOf(tables[n])
    ensures n in tables ==> n in SchemasOf(tables) && SchemasOf(tables)[n] == Schema(tables[n].width, tables[n].cols)
  {
    hide HeapOf;
  }

  lemma SessionIntro(tables: Tables, ws: seq<WriteRec>, tables': Tables, ws': seq<WriteRec>, tab: string)
    requires tab in tables && tab in tables' && tables' == tables[tab := tables'[tab]]
    requires TableOk(tables'[tab]) && AllPlaced(tables', ws') && Reversible(HeapsOf(tables'), SchemasOf(tables'), ws')
    requires SessionOk(tables, ws)
    ensures SessionOk(tables', ws')
  {
    hide TableOk, AllPlaced, Reversible, HeapsOf, SchemasOf;
  }

  // A change with its write record: undoing it leads to where undoing led before.
  lemma Recorded(tables: Tables, ws: seq<WriteRec>, w: WriteRec, ts': TableState)
    requires w.tab in tables && Keeps(tables[w.tab], ts') && TableOk(ts') && Placed(ts', w.rid)
    requires Undoable(HeapOf(ts'), w) && UndoHeap(HeapOf(ts'), w) == HeapOf(tables[w.tab])
    requires SessionOk(tables, ws)
    ensures SessionOk(tables[w.tab := ts'], ws + [w])
    ensures Origin(tables[w.tab := ts'], ws + [w]) == Origin(tables, ws)
  {
    hide HeapOf, TableOk, Keeps, Placed, Reversible, Rewind, HeapsOf, SchemasOf, UndoHeap, Undoable, Wide, Unique;
    var tables' := tables[w.tab := ts'];
    PlacedKept(tables, ws, w.tab, ts');
    SchemaKept(tables, w.tab, ts');
    HeapsAt(tables, w.tab);
    TableFacts(tables[w.tab]);
    assert AllPlaced(tables', ws + [w]);
    hide AllPlaced;
    var heaps, heaps' := HeapsOf(tables), HeapsOf(tables');
    assert heaps == heaps'[w.tab := heaps[w.tab]];
    OneMoreWrite(heaps, heaps', SchemasOf(tables), ws, w);
    SessionIntro(tables, ws, tables', ws + [w], w.tab);
    hide SessionOk;
  }

  // Undoing the last write.
  lemma Undone(tables: Tables, ws: seq<WriteRec>, ts': TableState)
    requires ws != [] && SessionOk(tables, ws)
    requires var w := ws[|ws| - 1];
      w.tab in tables && Keeps(tables[w.tab], ts') && TableOk(ts') && HeapOf(ts') == UndoHeap(HeapOf(tables[w.tab]), w)
    ensures var n := |ws| - 1; SessionOk(tables[ws[n].tab := ts'], ws[..n])
    ensures var n := |ws| - 1; Origin(tables[ws[n].tab := ts'], ws[..n]) == Origin(tables, ws)
  {
    hide HeapOf, TableOk, Keeps, Placed, Reversible, Rewind, HeapsOf, SchemasOf, UndoHeap, Undoable, Wide, Unique;
    var n := |ws| - 1;
    var tables' := tables[ws[n].tab := ts'];
    PlacedKept(tables, ws, ws[n].tab, ts');
    SchemaKept(tables, ws[n].tab, ts');
    HeapsAt(tables, ws[n].tab);
    assert AllPlaced(tables', ws[..n]);
    hide AllPlaced;
    OneWriteLess(HeapsOf(tables), HeapsOf(tables'), SchemasOf(tables), ws);
    SessionIntro(tables, ws, tables', ws[..n], ws[n].tab);
    hide SessionOk;
  }

  // What the last write record asks of its undoing.
  lemma LastWrite(tables: Tables, ws: seq<WriteRec>)
    requires ws != [] && SessionOk(tables, ws)
    ensures var w := ws[|ws| - 1];
      && w.tab in tables && TableOk(tables[w.tab]) && Placed(tables[w.tab], w.rid)
      && (w.rid in HeapOf(tables[w.tab]) <==> !w.DeleteTuple?)
      && Unique(UndoHeap(HeapOf(tables[w.tab]), w), tables[w.tab].cols)
      && (!w.InsertTuple? ==> |w.rec| == tables[w.tab].width)
  {
    var w := ws[|ws| - 1];
    assert HeapsOf(tables)[w.tab] == HeapOf(tables[w.tab]);
    hide HeapOf, TableOk, Placed, Unique;
    if !w.InsertTuple? {
      assert w.rid in UndoHeap(HeapOf(tables[w.tab]), w);
    }
  }

  // ---------------------------------------------------------------- the free chains

  ghost function PerPages(tables: Tables): map<string, nat> {
    map n | n in tables :: tables[n].file.perPage
  }

  // No record that comes back fills its page.
  ghost predicate LeavesRoom(heaps: Heaps, perPages: map<string, nat>, ws: seq<WriteRec>) {
    if ws == [] then true
    else
      var w := ws[|ws| - 1];
      && (w.DeleteTuple? && w.tab in heaps && w.tab in perPages ==> HasRoom(UndoHeap(heaps[w.tab], w), perPages[w.tab],
        w.rid.pageNo))
      && LeavesRoom(if w.tab in heaps then heaps[w.tab := UndoHeap(heaps[w.tab], w)]
        else heaps, perPages, ws[..|ws| - 1])
  }

  // The abort that follows keeps the free chains.
  ghost predicate ChainsLast(tables: Tables, ws: seq<WriteRec>) {
    AllLinked(tables) && LeavesRoom(HeapsOf(tables), PerPages(tables), ws)
  }

  lemma ChainStep(tables: Tables, ws: seq<WriteRec>, ts': TableState)
    requires ws != [] && ChainsLast(tables, ws)
    requires var w := ws[|ws| - 1];
      && w.tab in tables && Keeps(tables[w.tab], ts') && HeapOf(ts') == UndoHeap(HeapOf(tables[w.tab]), w)
      && (HeapFile.Linked(tables[w.tab].file) && (w.DeleteTuple? ==> HasRoom(HeapOf(ts'), tables[w.tab].file.perPage,
        w.rid.pageNo)) ==>
           HeapFile.Linked(ts'.file))
    ensures ChainsLast(tables[ws[|ws| - 1].tab := ts'], ws[..|ws| - 1])
  {
    hide HeapOf, UndoHeap, HeapFile.Linked, HasRoom, SchemasOf;
    var w := ws[|ws| - 1];
    HeapsAt(tables, w.tab);
    SchemaKept(tables, w.tab, ts');
    assert PerPages(tables[w.tab := ts']) == PerPages(tables);
    hide HeapsOf;
  }
}
