/** The insert, delete and update executors over heap and unique indexes, and the rollback of their writes. */
module Executors {
  import opened RecordIds
  import opened Conditions
  import opened KeyOrder
  import opened TableRows
  import opened Rollback
  import HeapFile

  datatype SetClause = SetClause(col: nat, val: int)

  datatype Result = Done | InvalidValueCount | DuplicateKey | RecordNotFound

  // ---------------------------------------------------------------- SET clauses

  predicate SetsOk(sets: seq<SetClause>, width: nat) {
    forall i :: 0 <= i < |sets| ==> sets[i].col < width
  }

  function Apply(rec: Record, sets: seq<SetClause>): (r: Record)
    requires SetsOk(sets, |rec|)
    ensures |r| == |rec|
  {
    if sets == [] then rec
    else
      var n := |sets| - 1;
      Apply(rec, sets[..n])[sets[n].col := sets[n].val]
  }

  // No later clause names the same column.
  ghost predicate LastOn(sets: seq<SetClause>, i: nat)
    requires i < |sets|
  {
    forall j :: i < j < |sets| ==> sets[j].col != sets[i].col
  }

  // The record with the SET list carried out: a column has the value of the last clause that names it, and without
  // one the value it had.
  ghost predicate SetTo(rec: Record, rec': Record, sets: seq<SetClause>) {
    && |rec'| == |rec|
    && (forall c :: 0 <= c < |rec| && (forall i :: 0 <= i < |sets| ==> sets[i].col != c) ==> rec'[c] == rec[c])
    && (forall i :: 0 <= i < |sets| && sets[i].col < |rec| && LastOn(sets, i) ==> rec'[sets[i].col] == sets[i].val)
  }

  lemma {:induction false} Applied(rec: Record, sets: seq<SetClause>)
    requires SetsOk(sets, |rec|)
    ensures SetTo(rec, Apply(rec, sets), sets)
  {
    if sets != [] {
      var n := |sets| - 1;
      Applied(rec, sets[..n]);
      forall c | 0 <= c < |rec| && forall i :: 0 <= i < |sets| ==> sets[i].col != c
        ensures Apply(rec, sets)[c] == rec[c]
      {
        assert sets[n].col != c && forall i :: 0 <= i < n ==> sets[..n][i] == sets[i];
      }
      forall i | 0 <= i < |sets| && LastOn(sets, i)
        ensures Apply(rec, sets)[sets[i].col] == sets[i].val
      {
        if i < n {
          assert sets[n].col != sets[i].col && sets[..n][i] == sets[i];
          assert LastOn(sets[..n], i);
        }
      }
    }
  }

  // A column is set to a constant, or left as it is.
  lemma {:induction false} ApplyField(a: Record, b: Record, sets: seq<SetClause>, c: nat)
    requires |a| == |b| && SetsOk(sets, |a|)
    ensures (Field(Apply(a, sets), c) == Field(a, c) && Field(Apply(b, sets), c) == Field(b, c))
         || Field(Apply(a, sets), c) == Field(Apply(b, sets), c)
  {
    if sets != [] {
      ApplyField(a, b, sets[..|sets| - 1], c);
    }
  }

  lemma SameKey(a: Record, b: Record, cols: seq<nat>)
    requires forall i :: 0 <= i < |cols| ==> Field(a, cols[i]) == Field(b, cols[i])
    ensures KeyOf(a, cols) == KeyOf(b, cols)
  {
  }

  // An updated row that takes the old key of another row takes its new key as well.
  lemma CollisionStays(a: Record, b: Record, sets: seq<SetClause>, cols: seq<nat>)
    requires |a| == |b| && SetsOk(sets, |a|) && KeyOf(Apply(a, sets), cols) == KeyOf(b, cols)
    ensures KeyOf(Apply(a, sets), cols) == KeyOf(Apply(b, sets), cols)
  {
    var a', b' := Apply(a, sets), Apply(b, sets);
    forall i | 0 <= i < |cols| ensures Field(a', cols[i]) == Field(b', cols[i]) {
      ApplyField(a, b, sets, cols[i]);
      assert KeyOf(a', cols)[i] == Field(a', cols[i]) && KeyOf(b, cols)[i] == Field(b, cols[i]);
    }
    SameKey(a', b', cols);
  }

  lemma {:induction false} ApplyTwice(rec: Record, sets: seq<SetClause>)
    requires SetsOk(sets, |rec|)
    ensures Apply(Apply(rec, sets), sets) == Apply(rec, sets)
  {
    var once := Apply(rec, sets);
    var twice := Apply(once, sets);
    forall c | 0 <= c < |rec| ensures twice[c] == once[c] {
      ApplyField(rec, once, sets, c);
    }
  }

  // ---------------------------------------------------------------- the updated table

  ghost function Updated(heap: Heap, rids: seq<Rid>, sets: seq<SetClause>, width: nat): Heap
    requires Wide(heap, width) && SetsOk(sets, width)
  {
    map x | x in heap :: if x in rids then Apply(heap[x], sets) else heap[x]
  }

  // The named rows have the SET list carried out, the others are as they were.
  ghost predicate CarriedOut(heap: Heap, heap': Heap, rids: seq<Rid>, sets: seq<SetClause>) {
    heap'.Keys == heap.Keys && forall x :: x in heap ==>
      if x in rids then SetTo(heap[x], heap'[x], sets) else heap'[x] == heap[x]
  }

  lemma UpdateCarriedOut(heap: Heap, rids: seq<Rid>, sets: seq<SetClause>, width: nat)
    requires Wide(heap, width) && SetsOk(sets, width)
    ensures CarriedOut(heap, Updated(heap, rids, sets, width), rids, sets)
  {
    forall x | x in heap && x in rids ensures SetTo(heap[x], Apply(heap[x], sets), sets) {
      Applied(heap[x], sets);
    }
  }

  // If the whole update satisfies a unique index, so does every table on the way.
  lemma NoCollision(heap: Heap, rids: seq<Rid>, sets: seq<SetClause>, width: nat, cols: seq<nat>, k: nat)
    requires Wide(heap, width) && SetsOk(sets, width) && k <= |rids|
    requires UniqueOn(heap, cols) && UniqueOn(Updated(heap, rids, sets, width), cols)
    ensures UniqueOn(Updated(heap, rids[..k], sets, width), cols)
  {
    var some, all := Updated(heap, rids[..k], sets, width), Updated(heap, rids, sets, width);
    forall x, y | x in some && y in some && x != y ensures KeyOf(some[x], cols) != KeyOf(some[y], cols) {
      if x in rids[..k] || y !in rids[..k] {
        Untangled(heap, rids, sets, width, cols, k, x, y);
      } else {
        Untangled(heap, rids, sets, width, cols, k, y, x);
      }
    }
  }

  lemma Untangled(heap: Heap, rids: seq<Rid>, sets: seq<SetClause>, width: nat, cols: seq<nat>, k: nat, x: Rid, y: Rid)
    requires Wide(heap, width) && SetsOk(sets, width) && k <= |rids| && x in heap && y in heap && x != y
    requires KeyOf(heap[x], cols) != KeyOf(heap[y], cols)
    requires var all := Updated(heap, rids, sets, width); KeyOf(all[x], cols) != KeyOf(all[y], cols)
    requires x in rids[..k] || y !in rids[..k]
    ensures var some := Updated(heap, rids[..k], sets, width); KeyOf(some[x], cols) != KeyOf(some[y], cols)
  {
    if x in rids[..k] {
      assert x in rids;
      if y in rids[..k] {
        assert y in rids;
      } else if y in rids && KeyOf(Apply(heap[x], sets), cols) == KeyOf(heap[y], cols) {
        CollisionStays(heap[x], heap[y], sets, cols);
      }
    }
  }

  lemma NoCollisions(heap: Heap, rids: seq<Rid>, sets: seq<SetClause>, width: nat, cols: seq<seq<nat>>, k: nat)
    requires Wide(heap, width) && SetsOk(sets, width) && k <= |rids|
    requires Unique(heap, cols) && Unique(Updated(heap, rids, sets, width), cols)
    ensures Unique(Updated(heap, rids[..k], sets, width), cols)
  {
    forall i | 0 <= i < |cols| ensures UniqueOn(Updated(heap, rids[..k], sets, width), cols[i]) {
      NoCollision(heap, rids, sets, width, cols[i], k);
    }
  }

  // ---------------------------------------------------------------- the pre-check of an update

  ghost predicate Present(heap: Heap, rids: seq<Rid>) {
    forall i :: 0 <= i < |rids| ==> rids[i] in heap
  }

  ghost predicate Apart(rids: seq<Rid>) {
    forall i, j :: 0 <= i < j < |rids| ==> rids[i] != rids[j]
  }

  ghost function NewKey(heap: Heap, rid: Rid, sets: seq<SetClause>, width: nat, cols: seq<nat>): Tuple
    requires Wide(heap, width) && SetsOk(sets, width) && rid in heap
  {
    KeyOf(Apply(heap[rid], sets), cols)
  }

  // The first n rows pass: their new keys differ, and no row outside the batch has one of them.
  ghost predicate Passed(heap: Heap, rids: seq<Rid>, sets: seq<SetClause>, width: nat, cols: seq<nat>,
          idx: map<Tuple, Rid>, n: nat)
    requires Wide(heap, width) && SetsOk(sets, width) && n <= |rids|
  {
    && Present(heap, rids[..n])
    && (forall i, j :: 0 <= i < j < n && rids[i] in heap && rids[j] in heap ==>
          NewKey(heap, rids[i], sets, width, cols) != NewKey(heap, rids[j], sets, width, cols))
    && (forall i :: 0 <= i < n && rids[i] in heap ==>
          NewKey(heap, rids[i], sets, width, cols) in idx ==> idx[NewKey(heap, rids[i], sets, width, cols)] in rids)
  }

  // The new keys of the first n rows.
  ghost function NewKeys(heap: Heap, rids: seq<Rid>, sets: seq<SetClause>, width: nat, cols: seq<nat>,
          n: nat): set<Tuple>
    requires Wide(heap, width) && SetsOk(sets, width) && n <= |rids|
  {
    set j | 0 <= j < n && rids[j] in heap :: NewKey(heap, rids[j], sets, width, cols)
  }

  lemma PassedNext(heap: Heap, rids: seq<Rid>, sets: seq<SetClause>, width: nat, cols: seq<nat>, idx: map<Tuple, Rid>,
          n: nat)
    requires Wide(heap, width) && SetsOk(sets, width) && n < |rids| && Passed(heap, rids, sets, width, cols, idx, n)
    ensures Passed(heap, rids, sets, width, cols, idx, |rids|) ==> Passed(heap, rids, sets, width, cols, idx, n + 1)
    ensures Passed(heap, rids, sets, width, cols, idx, n + 1) <==>
      rids[n] in heap && var key := NewKey(heap, rids[n], sets, width, cols);
        key !in NewKeys(heap, rids, sets, width, cols, n) && (key in idx ==> idx[key] in rids)
    ensures rids[n] in heap ==>
      NewKeys(heap, rids, sets, width, cols, n + 1) == NewKeys(heap, rids, sets, width, cols,
        n) + {NewKey(heap, rids[n], sets, width, cols)}
    ensures rids[n] !in heap ==> !Present(heap, rids)
  {
    hide NewKey;
    assert rids[..n + 1] == rids[..n] + [rids[n]] && rids[..|rids|] == rids;
  }

  // One index of the pre-check.
  method CheckIndex(ts: TableState, i: nat, rids: seq<Rid>, sets: seq<SetClause>) returns (res: Result)
    requires TableOk(ts) && i < |ts.cols| && SetsOk(sets, ts.width)
    ensures res == Done <==> Passed(HeapOf(ts), rids, sets, ts.width, ts.cols[i], ts.indexes[i], |rids|)
    ensures res == RecordNotFound ==> !Present(HeapOf(ts), rids)
    ensures res != InvalidValueCount
  {
    assert |ts.indexes| == |ts.cols| && Wide(HeapOf(ts), ts.width);
    hide HeapOf, TableOk, Wide, Passed, NewKeys, Present;
    ghost var heap := HeapOf(ts);
    var seen: set<Tuple> := {};
    NothingPassed(heap, rids, sets, ts.width, ts.cols[i], ts.indexes[i]);
    for n := 0 to |rids|
      invariant Passed(heap, rids, sets, ts.width, ts.cols[i], ts.indexes[i], n)
      invariant seen == NewKeys(heap, rids, sets, ts.width, ts.cols[i], n)
    {
      PassedNext(heap, rids, sets, ts.width, ts.cols[i], ts.indexes[i], n);
      var found, rec := FindRecord(ts, rids[n]);
      if !found {
        return RecordNotFound;
      }
      var key := KeyOf(Apply(rec, sets), ts.cols[i]);
      if key in seen {
        return DuplicateKey;
      }
      seen := seen + {key};
      if key in ts.indexes[i] && ts.indexes[i][key] !in rids {
        return DuplicateKey;
      }
    }
    res := Done;
  }

  lemma NothingPassed(heap: Heap, rids: seq<Rid>, sets: seq<SetClause>, width: nat, cols: seq<nat>,
          idx: map<Tuple, Rid>)
    requires Wide(heap, width) && SetsOk(sets, width)
    ensures Passed(heap, rids, sets, width, cols, idx, 0) && NewKeys(heap, rids, sets, width, cols, 0) == {}
  {
  }

  lemma PassedThenUnique(heap: Heap, rids: seq<Rid>, sets: seq<SetClause>, width: nat, cols: seq<nat>,
          idx: map<Tuple, Rid>)
    requires Wide(heap, width) && SetsOk(sets, width) && Indexed(heap, cols, idx)
    requires Passed(heap, rids, sets, width, cols, idx, |rids|)
    ensures Present(heap, rids) && Apart(rids) && UniqueOn(Updated(heap, rids, sets, width), cols)
  {
    assert rids[..|rids|] == rids;
    hide NewKey;
    var all := Updated(heap, rids, sets, width);
    forall x, y | x in all && y in all && x != y ensures KeyOf(all[x], cols) != KeyOf(all[y], cols) {
      if x in rids {
        PassedPair(heap, rids, sets, width, cols, idx, x, y);
      } else if y in rids {
        PassedPair(heap, rids, sets, width, cols, idx, y, x);
      }
    }
  }

  lemma PassedPair(heap: Heap, rids: seq<Rid>, sets: seq<SetClause>, width: nat, cols: seq<nat>, idx: map<Tuple, Rid>,
          x: Rid, y: Rid)
    requires Wide(heap, width) && SetsOk(sets, width) && Indexed(heap, cols, idx)
    requires Passed(heap, rids, sets, width, cols, idx, |rids|)
    requires x in heap && y in heap && x != y && x in rids
    ensures var all := Updated(heap, rids, sets, width); KeyOf(all[x], cols) != KeyOf(all[y], cols)
  {
    var i :| 0 <= i < |rids| && rids[i] == x;
    assert KeyOf(heap[y], cols) in idx && idx[KeyOf(heap[y], cols)] == y;
    if y in rids {
      var j :| 0 <= j < |rids| && rids[j] == y;
      assert i < j || j < i;
    }
  }

  lemma UniqueThenPassed(heap: Heap, rids: seq<Rid>, sets: seq<SetClause>, width: nat, cols: seq<nat>,
          idx: map<Tuple, Rid>)
    requires Wide(heap, width) && SetsOk(sets, width) && Indexed(heap, cols, idx)
    requires Present(heap, rids) && Apart(rids) && UniqueOn(Updated(heap, rids, sets, width), cols)
    ensures Passed(heap, rids, sets, width, cols, idx, |rids|)
  {
    assert rids[..|rids|] == rids;
    var all := Updated(heap, rids, sets, width);
    forall i | 0 <= i < |rids| && NewKey(heap, rids[i], sets, width, cols) in idx
      ensures idx[NewKey(heap, rids[i], sets, width, cols)] in rids
    {
      var y := idx[NewKey(heap, rids[i], sets, width, cols)];
      assert y in all && rids[i] in all;
    }
    forall i, j | 0 <= i < j < |rids| ensures NewKey(heap, rids[i], sets, width, cols) != NewKey(heap, rids[j], sets,
      width, cols) {
      assert rids[i] in all && rids[j] in all && rids[i] != rids[j];
    }
  }

  // The whole pre-check.  On rows of a table with an index it passes exactly if the rows differ and
  // the updated table satisfies every unique index.
  method PreCheck(ts: TableState, rids: seq<Rid>, sets: seq<SetClause>) returns (res: Result)
    requires TableOk(ts) && SetsOk(sets, ts.width)
    ensures res == Done <==> (|ts.cols| > 0 ==>
      Present(HeapOf(ts), rids) && Apart(rids) && Unique(Updated(HeapOf(ts), rids, sets, ts.width), ts.cols))
    ensures res == RecordNotFound ==> !Present(HeapOf(ts), rids)
    ensures res != InvalidValueCount
  {
    hide HeapOf, UniqueOn, Passed, HeapFile.Sound, Updated, Apart, Present;
    for i := 0 to |ts.cols|
      invariant i > 0 ==> Present(HeapOf(ts), rids) && Apart(rids)
      invariant forall j :: 0 <= j < i ==> UniqueOn(Updated(HeapOf(ts), rids, sets, ts.width), ts.cols[j])
    {
      res := CheckIndex(ts, i, rids, sets);
      if res != Done {
        if Present(HeapOf(ts), rids) && Apart(rids) && UniqueOn(Updated(HeapOf(ts), rids, sets, ts.width), ts.cols[i]) {
          UniqueThenPassed(HeapOf(ts), rids, sets, ts.width, ts.cols[i], ts.indexes[i]);
        }
        return;
      }
      PassedThenUnique(HeapOf(ts), rids, sets, ts.width, ts.cols[i], ts.indexes[i]);
    }
    res := Done;
  }

  // ---------------------------------------------------------------- one transaction on its tables

  class Session {
    var tables: Tables
    var writeSet: seq<WriteRec>

    ghost predicate Valid()
      reads this
    {
      SessionOk(tables, writeSet)
    }

    constructor (tables: Tables)
      requires AllOk(tables)
      ensures Valid() && this.tables == tables && writeSet == []
    {
      this.tables, writeSet := tables, [];
    }

    // A record goes in only if no index has one of its keys already.
    method Insert(tab: string, rec: Record) returns (res: Result, rid: Rid)
      requires Valid() && tab in tables && HeapFile.HeadHasRoom(tables[tab].file)
      modifies this
      ensures Valid() && SchemasOf(tables) == SchemasOf(old(tables)) && (old(AllLinked(tables)) ==> AllLinked(tables))
      ensures Origin(tables, writeSet) == Origin(old(tables), old(writeSet))
      ensures res == InvalidValueCount <==> |rec| != old(tables)[tab].width
      ensures res == Done <==> |rec| == old(tables)[tab].width && KeysFree(old(tables)[tab], rec)
      ensures res != RecordNotFound
      ensures res == Done ==> rid !in HeapOf(old(tables)[tab])
      ensures res == Done ==> HeapsOf(tables) == HeapsOf(old(tables))[tab := HeapOf(old(tables)[tab])[rid := rec]]
      ensures res == Done ==> Unique(HeapOf(old(tables)[tab])[rid := rec], old(tables)[tab].cols)
      ensures res != Done ==> tables == old(tables) && writeSet == old(writeSet)
      ensures res == DuplicateKey ==> forall x :: x !in HeapOf(old(tables)[tab]) ==>
        !Unique(HeapOf(old(tables)[tab])[x := rec], old(tables)[tab].cols)
    {
      hide SessionOk, Origin, TableOk, Unique, HeapOf, HeapsOf, SchemasOf, HeapFile.Linked, HeapFile.HeadHasRoom;
      var ts := tables[tab];
      rid := Rid(-1, -1);
      TableAt(tables, writeSet, tab);
      if |rec| != ts.width {
        return InvalidValueCount, rid;
      }
      for i := 0 to |ts.cols|
        invariant tables == old(tables) && writeSet == old(writeSet)
        invariant forall j :: 0 <= j < i ==> KeyOf(rec, ts.cols[j]) !in ts.indexes[j]
      {
        if KeyOf(rec, ts.cols[i]) in ts.indexes[i] {
          KeyTaken(ts, rec, i);
          return DuplicateKey, rid;
        }
      }
      var ts', rid' := InsertRow(ts, rec);
      rid := rid';
      InsertUndone(tables, writeSet, tab, ts', rid, rec);
      tables, writeSet := tables[tab := ts'], writeSet + [InsertTuple(tab, rid)];
      res := Done;
    }

    // Row by row; a missing row throws and leaves the rest undone.
    method Delete(tab: string, rids: seq<Rid>) returns (res: Result)
      requires Valid() && tab in tables
      modifies this
      ensures Valid() && SchemasOf(tables) == SchemasOf(old(tables)) && (old(AllLinked(tables)) ==> AllLinked(tables))
      ensures Origin(tables, writeSet) == Origin(old(tables), old(writeSet))
      ensures res == Done <==> Present(HeapOf(old(tables)[tab]), rids) && Apart(rids)
      ensures res == Done ==> HeapsOf(tables) == HeapsOf(old(tables))[tab := Without(HeapOf(old(tables)[tab]), rids)]
    {
      hide SessionOk, Origin, TableOk, HeapOf, HeapsOf, SchemasOf, HeapFile.Linked, Placed, Keeps;
      ghost var heap := HeapOf(tables[tab]);
      HeapsAt(tables, tab);
      WithoutNone(heap);
      for k := 0 to |rids|
        invariant SessionOk(tables, writeSet) && tab in tables && SchemasOf(tables) == SchemasOf(old(tables))
          && (old(AllLinked(tables)) ==> AllLinked(tables))
        invariant Origin(tables, writeSet) == Origin(old(tables), old(writeSet))
        invariant Present(heap, rids[..k]) && Apart(rids[..k])
        invariant HeapOf(tables[tab]) == Without(heap, rids[..k])
        invariant HeapsOf(tables) == HeapsOf(old(tables))[tab := HeapOf(tables[tab])]
      {
        TableAt(tables, writeSet, tab);
        var found, rec := FindRecord(tables[tab], rids[k]);
        NextDeleted(heap, rids, k);
        if !found {
          return RecordNotFound;
        }
        var ts' := DeleteRow(tables[tab], rids[k], rec);
        DeleteUndone(tables, writeSet, tab, ts', rids[k], rec);
        tables, writeSet := tables[tab := ts'], writeSet + [DeleteTuple(tab, rids[k], rec)];
      }
      assert rids[..|rids|] == rids;
      res := Done;
    }

    // All rows are checked against all unique indexes first; then they change one by one.
    method Update(tab: string, rids: seq<Rid>, sets: seq<SetClause>) returns (res: Result)
      requires Valid() && tab in tables && SetsOk(sets, tables[tab].width)
      requires Wide(HeapOf(tables[tab]), tables[tab].width)
      modifies this
      ensures Valid() && SchemasOf(tables) == SchemasOf(old(tables)) && (old(AllLinked(tables)) ==> AllLinked(tables))
      ensures Origin(tables, writeSet) == Origin(old(tables), old(writeSet))
      ensures var ts := old(tables)[tab]; var heap := HeapOf(ts);
        Present(heap, rids) && Apart(rids) ==>
          (res == Done <==> Unique(Updated(heap, rids, sets, ts.width), ts.cols))
          && (res == Done ==> HeapsOf(tables) == HeapsOf(old(tables))[tab := Updated(heap, rids, sets, ts.width)])
          && (res != Done ==> tables == old(tables) && writeSet == old(writeSet))
      ensures res == Done ==> tab in tables && CarriedOut(HeapOf(old(tables)[tab]), HeapOf(tables[tab]), rids, sets)
    {
      hide SessionOk, Origin, TableOk, HeapOf, HeapsOf, SchemasOf, HeapFile.Linked, Placed, Keeps, Wide, Unique,
        Updated, CarriedOut;
      ghost var heap := HeapOf(tables[tab]);
      var ts := tables[tab];
      TableAt(tables, writeSet, tab);
      res := PreCheck(ts, rids, sets);
      if res != Done {
        return;
      }
      HeapsAt(tables, tab);
      TableFacts(ts);
      NoIndexes(Updated(heap, rids, sets, ts.width), ts.cols);
      UpdatedNone(heap, sets, ts.width);
      for k := 0 to |rids|
        invariant SessionOk(tables, writeSet) && tab in tables && SchemasOf(tables) == SchemasOf(old(tables))
          && (old(AllLinked(tables)) ==> AllLinked(tables))
        invariant Origin(tables, writeSet) == Origin(old(tables), old(writeSet))
        invariant Present(heap, rids[..k])
        invariant HeapOf(tables[tab]) == Updated(heap, rids[..k], sets, ts.width)
        invariant tables[tab].cols == ts.cols && tables[tab].width == ts.width
        invariant HeapsOf(tables) == HeapsOf(old(tables))[tab := HeapOf(tables[tab])]
      {
        TableAt(tables, writeSet, tab);
        var found, rec := FindRecord(tables[tab], rids[k]);
        if !found {
          NotPresent(heap, rids, k, sets, ts.width);
          return RecordNotFound;
        }
        NextUpdated(heap, rids, k, sets, ts, rec);
        var ts' := UpdateRow(tables[tab], rids[k], rec, Apply(rec, sets));
        UpdateUndone(tables, writeSet, tab, ts', rids[k], rec);
        tables, writeSet := tables[tab := ts'], writeSet + [UpdateTuple(tab, rids[k], rec)];
      }
      assert rids[..|rids|] == rids;
      UpdateCarriedOut(heap, rids, sets, ts.width);
      res := Done;
    }

    // Undoes the write set from its end: afterwards everything is as before its first record.
    method Abort()
      requires Valid()
      modifies this
      ensures Valid() && writeSet == [] && SchemasOf(tables) == SchemasOf(old(tables))
      ensures HeapsOf(tables) == Origin(old(tables), old(writeSet))
      ensures old(ChainsLast(tables, writeSet)) ==> AllLinked(tables)
    {
      hide ChainsLast, HasRoom, HeapFile.Linked;
      hide SessionOk, TableOk, HeapOf, HeapsOf, SchemasOf, Placed, Keeps, Unique, UndoHeap;
      while writeSet != []
        invariant SessionOk(tables, writeSet) && SchemasOf(tables) == SchemasOf(old(tables))
        invariant Origin(tables, writeSet) == Origin(old(tables), old(writeSet))
        invariant old(ChainsLast(tables, writeSet)) ==> ChainsLast(tables, writeSet)
        decreases |writeSet|
      {
        var w := writeSet[|writeSet| - 1];
        LastWrite(tables, writeSet);
        var ts' := UndoWrite(tables[w.tab], w);
        Undone(tables, writeSet, ts');
        SchemaKept(tables, w.tab, ts');
        if ChainsLast(tables, writeSet) {
          ChainStep(tables, writeSet, ts');
        }
        tables := tables[w.tab := ts'];
        writeSet := writeSet[..|writeSet| - 1];
      }
      ChainsNow(tables, writeSet);
    }

    // Any statements, whether they succeed, fail or break off, and then an abort: every table has the
    // records and the indexes it had before.
    method RunThenAbort(stmts: seq<Stmt>)
      requires Valid() && writeSet == []
        && (AllLinked(tables) || forall i :: 0 <= i < |stmts| ==> !stmts[i].InsertInto?)
      requires forall i :: 0 <= i < |stmts| ==> StmtOk(stmts[i], SchemasOf(tables))
      modifies this
      ensures Valid() && writeSet == [] && tables.Keys == old(tables).Keys
      ensures forall n :: n in tables ==>
        HeapOf(tables[n]) == HeapOf(old(tables)[n]) && tables[n].indexes == old(tables)[n].indexes
          && tables[n].cols == old(tables)[n].cols
    {
      assert AllOk(tables);
      hide SessionOk, AllOk, TableOk, HeapOf, HeapsOf, SchemasOf, HeapFile.Linked, AllLinked, Rewind;
      NoWrites(tables);
      for i := 0 to |stmts|
        invariant SessionOk(tables, writeSet) && SchemasOf(tables) == SchemasOf(old(tables))
          && (old(AllLinked(tables)) ==> AllLinked(tables))
        invariant Origin(tables, writeSet) == HeapsOf(old(tables))
      {
        HeapsAt(tables, stmts[i].tab);
        StmtTable(stmts[i], tables);
        match stmts[i]
        case InsertInto(tab, rec) =>
          RoomThere(tables, tab);
          var _, _ := Insert(tab, rec);
        case DeleteFrom(tab, rids) =>
          var _ := Delete(tab, rids);
        case UpdateSet(tab, rids, sets) =>
          TableAt(tables, writeSet, tab);
          TableFacts(tables[tab]);
          var _ := Update(tab, rids, sets);
      }
      Abort();
      Restored(old(tables), tables, writeSet);
    }
  }

  datatype Stmt =
    | InsertInto(tab: string, rec: Record)
    | DeleteFrom(tab: string, rids: seq<Rid>)
    | UpdateSet(tab: string, rids: seq<Rid>, sets: seq<SetClause>)

  // The statement's table exists, and its SET clauses name columns of it.
  ghost predicate StmtOk(stmt: Stmt, schemas: map<string, Schema>) {
    stmt.tab in schemas && (stmt.UpdateSet? ==> SetsOk(stmt.sets, schemas[stmt.tab].width))
  }

  lemma StmtTable(stmt: Stmt, tables: Tables)
    requires StmtOk(stmt, SchemasOf(tables))
    ensures stmt.tab in tables && (stmt.UpdateSet? ==> SetsOk(stmt.sets, tables[stmt.tab].width))
  {
  }

  lemma RoomThere(tables: Tables, tab: string)
    requires AllLinked(tables) && tab in tables
    ensures HeapFile.HeadHasRoom(tables[tab].file)
  {
    HeapFile.LinkedHasRoom(tables[tab].file);
  }

  lemma NoWrites(tables: Tables)
    ensures Origin(tables, []) == HeapsOf(tables)
  {
  }

  lemma Restored(before: Tables, after: Tables, ws: seq<WriteRec>)
    requires AllOk(before) && SessionOk(after, ws) && SchemasOf(after) == SchemasOf(before)
      && HeapsOf(after) == HeapsOf(before)
    ensures after.Keys == before.Keys
    ensures forall n :: n in after ==>
      HeapOf(after[n]) == HeapOf(before[n]) && after[n].indexes == before[n].indexes && after[n].cols == before[n].cols
  {
    hide HeapOf, HeapFile.Sound, AllIndexed;
    assert after.Keys == SchemasOf(after).Keys == SchemasOf(before).Keys == before.Keys;
    forall n | n in after
      ensures HeapOf(after[n]) == HeapOf(before[n]) && after[n].indexes == before[n].indexes
        && after[n].cols == before[n].cols
    {
      assert HeapsOf(after)[n] == HeapsOf(before)[n] && SchemasOf(after)[n] == SchemasOf(before)[n];
      assert TableOk(before[n]) && TableOk(after[n]);
      IndexesDetermined(HeapOf(after[n]), after[n].cols, after[n].indexes, before[n].indexes);
    }
  }

  lemma ChainsNow(tables: Tables, ws: seq<WriteRec>)
    ensures ChainsLast(tables, ws) ==> AllLinked(tables)
  {
  }

  method FindRecord(ts: TableState, rid: Rid) returns (found: bool, rec: Record)
    requires TableOk(ts)
    ensures found <==> rid in HeapOf(ts)
    ensures found ==> rec == HeapOf(ts)[rid] && |rec| == ts.width
  {
    hide HeapFile.Contents, HeapFile.Sound;
    found, rec := GetRecord(ts.file, rid);
  }

  // One write record undone on its table.
  method UndoWrite(ts: TableState, w: WriteRec) returns (ts': TableState)
    requires TableOk(ts) && Placed(ts, w.rid) && (w.rid in HeapOf(ts) <==> !w.DeleteTuple?)
    requires Unique(UndoHeap(HeapOf(ts), w), ts.cols) && (!w.InsertTuple? ==> |w.rec| == ts.width)
    ensures TableOk(ts') && Keeps(ts, ts') && HeapOf(ts') == UndoHeap(HeapOf(ts), w)
    ensures HeapFile.Linked(ts.file) ==>
      (HeapFile.Linked(ts'.file) <==>
        (w.DeleteTuple? ==> HeapFile.OffChain(ts.file, w.rid.pageNo) || HasRoom(HeapOf(ts'), ts.file.perPage,
          w.rid.pageNo)))
  {
    hide HeapOf, TableOk, Unique, Placed, Keeps, HeapFile.Linked, HeapFile.OffChain, HasRoom;
    match w
    case InsertTuple(_, rid) =>
      var _, rec := FindRecord(ts, rid);
      ts' := DeleteRow(ts, rid, rec);
    case DeleteTuple(_, rid, rec) =>
      ts' := RestoreRow(ts, rid, rec);
    case UpdateTuple(_, rid, rec) =>
      var _, now := FindRecord(ts, rid);
      ts' := UpdateRow(ts, rid, now, rec);
  }

  ghost function Without(heap: Heap, rids: seq<Rid>): Heap {
    map x | x in heap && x !in rids :: heap[x]
  }

  lemma WithoutNone(heap: Heap)
    ensures Without(heap, []) == heap
  {
  }

  lemma UpdatedNone(heap: Heap, sets: seq<SetClause>, width: nat)
    requires Wide(heap, width) && SetsOk(sets, width)
    ensures Updated(heap, [], sets, width) == heap
  {
  }

  lemma NextDeleted(heap: Heap, rids: seq<Rid>, k: nat)
    requires k < |rids| && Present(heap, rids[..k]) && Apart(rids[..k])
    ensures rids[k] in Without(heap, rids[..k]) <==> Present(heap, rids[..k + 1]) && Apart(rids[..k + 1])
    ensures rids[k] !in Without(heap, rids[..k]) ==> !(Present(heap, rids) && Apart(rids))
    ensures Without(heap, rids[..k]) - {rids[k]} == Without(heap, rids[..k + 1])
  {
    assert rids[..k + 1] == rids[..k] + [rids[k]];
    if rids[k] in rids[..k] {
      var j :| 0 <= j < k && rids[..k][j] == rids[k];
      assert rids[..k + 1][j] == rids[..k + 1][k] && rids[j] == rids[k];
    }
  }

  lemma DeleteUndone(tables: Tables, ws: seq<WriteRec>, tab: string, ts': TableState, rid: Rid, rec: Record)
    requires tab in tables && rid in HeapOf(tables[tab]) && HeapOf(tables[tab])[rid] == rec
      && HeapOf(ts') == HeapOf(tables[tab]) - {rid}
    requires Keeps(tables[tab], ts') && TableOk(ts') && Placed(ts', rid)
    requires SessionOk(tables, ws)
    ensures SessionOk(tables[tab := ts'], ws + [DeleteTuple(tab, rid, rec)])
    ensures Origin(tables[tab := ts'], ws + [DeleteTuple(tab, rid, rec)]) == Origin(tables, ws)
    ensures HeapsOf(tables[tab := ts']) == HeapsOf(tables)[tab := HeapOf(ts')]
      && SchemasOf(tables[tab := ts']) == SchemasOf(tables)
  {
    hide SessionOk, TableOk, HeapOf, Placed, HeapsOf, SchemasOf, Origin, Unique, Wide;
    assert (HeapOf(tables[tab]) - {rid})[rid := rec] == HeapOf(tables[tab]);
    Recorded(tables, ws, DeleteTuple(tab, rid, rec), ts');
    SchemaKept(tables, tab, ts');
  }

  lemma UpdateUndone(tables: Tables, ws: seq<WriteRec>, tab: string, ts': TableState, rid: Rid, rec: Record)
    requires tab in tables && rid in HeapOf(tables[tab]) && HeapOf(tables[tab])[rid] == rec
    requires rid in HeapOf(ts') && HeapOf(ts') == HeapOf(tables[tab])[rid := HeapOf(ts')[rid]]
    requires Keeps(tables[tab], ts') && TableOk(ts') && Placed(ts', rid)
    requires SessionOk(tables, ws)
    ensures SessionOk(tables[tab := ts'], ws + [UpdateTuple(tab, rid, rec)])
    ensures Origin(tables[tab := ts'], ws + [UpdateTuple(tab, rid, rec)]) == Origin(tables, ws)
    ensures HeapsOf(tables[tab := ts']) == HeapsOf(tables)[tab := HeapOf(ts')]
      && SchemasOf(tables[tab := ts']) == SchemasOf(tables)
    ensures ts'.cols == tables[tab].cols && ts'.width == tables[tab].width
  {
    hide SessionOk, TableOk, HeapOf, Placed, HeapsOf, SchemasOf, Origin, Unique, Wide;
    assert HeapOf(ts')[rid := rec] == HeapOf(tables[tab]);
    Recorded(tables, ws, UpdateTuple(tab, rid, rec), ts');
    SchemaKept(tables, tab, ts');
  }

  lemma NotPresent(heap: Heap, rids: seq<Rid>, k: nat, sets: seq<SetClause>, width: nat)
    requires k < |rids| && Wide(heap, width) && SetsOk(sets, width)
    requires rids[k] !in Updated(heap, rids[..k], sets, width)
    ensures !Present(heap, rids)
  {
  }

  lemma NextUpdated(heap: Heap, rids: seq<Rid>, k: nat, sets: seq<SetClause>, ts: TableState, rec: Record)
    requires k < |rids| && Wide(heap, ts.width) && SetsOk(sets, ts.width) && Present(heap, rids[..k])
    requires var now := Updated(heap, rids[..k], sets, ts.width);
      rids[k] in now && rec == now[rids[k]] && |rec| == ts.width
    requires Unique(heap, ts.cols)
    requires Unique(Updated(heap, rids, sets, ts.width), ts.cols)
    ensures Present(heap, rids[..k + 1])
    ensures Updated(heap, rids[..k], sets, ts.width)[rids[k] := Apply(rec, sets)] == Updated(heap, rids[..k + 1], sets,
      ts.width)
    ensures Unique(Updated(heap, rids[..k + 1], sets, ts.width), ts.cols)
  {
    UpdatedNext(heap, rids, k, sets, ts.width);
    NoCollisions(heap, rids, sets, ts.width, ts.cols, k + 1);
    hide Unique, Updated, Apply, Wide;
  }

  lemma UpdatedNext(heap: Heap, rids: seq<Rid>, k: nat, sets: seq<SetClause>, width: nat)
    requires k < |rids| && Wide(heap, width) && SetsOk(sets, width) && rids[k] in heap && Present(heap, rids[..k])
    ensures Present(heap, rids[..k + 1])
    ensures var now := Updated(heap, rids[..k], sets, width);
      |now[rids[k]]| == width && now[rids[k] := Apply(now[rids[k]], sets)] == Updated(heap, rids[..k + 1], sets, width)
  {
    assert rids[..k + 1] == rids[..k] + [rids[k]];
    ApplyTwice(heap[rids[k]], sets);
    hide Apply;
  }

  lemma NoIndexes(heap: Heap, cols: seq<seq<nat>>)
    ensures |cols| == 0 ==> Unique(heap, cols)
  {
  }

  // No index has a key of the record already.
  predicate KeysFree(ts: TableState, rec: Record) {
    forall i :: 0 <= i < |ts.cols| && i < |ts.indexes| ==> KeyOf(rec, ts.cols[i]) !in ts.indexes[i]
  }

  lemma TableAt(tables: Tables, ws: seq<WriteRec>, tab: string)
    requires tab in tables && SessionOk(tables, ws)
    ensures TableOk(tables[tab]) && |tables[tab].indexes| == |tables[tab].cols|
  {
    hide HeapOf, HeapFile.Sound, Reversible, AllPlaced;
  }

  lemma KeyTaken(ts: TableState, rec: Record, i: nat)
    requires TableOk(ts) && i < |ts.cols| && KeyOf(rec, ts.cols[i]) in ts.indexes[i]
    ensures forall x :: x !in HeapOf(ts) ==> !Unique(HeapOf(ts)[x := rec], ts.cols)
  {
    hide HeapOf, HeapFile.Sound, Unique;
    forall x | x !in HeapOf(ts) ensures !Unique(HeapOf(ts)[x := rec], ts.cols) {
      TableRows.NewKeys(HeapOf(ts), ts.cols, ts.indexes, x, rec);
    }
  }

  lemma InsertUndone(tables: Tables, ws: seq<WriteRec>, tab: string, ts': TableState, rid: Rid, rec: Record)
    requires tab in tables && rid !in HeapOf(tables[tab]) && HeapOf(ts') == HeapOf(tables[tab])[rid := rec]
    requires Keeps(tables[tab], ts') && TableOk(ts') && Placed(ts', rid)
    requires SessionOk(tables, ws)
    ensures SessionOk(tables[tab := ts'], ws + [InsertTuple(tab, rid)])
    ensures Origin(tables[tab := ts'], ws + [InsertTuple(tab, rid)]) == Origin(tables, ws)
    ensures HeapsOf(tables[tab := ts']) == HeapsOf(tables)[tab := HeapOf(ts')]
      && SchemasOf(tables[tab := ts']) == SchemasOf(tables)
    ensures Unique(HeapOf(ts'), tables[tab].cols)
  {
    hide SessionOk, TableOk, HeapOf, Placed, HeapsOf, SchemasOf, Origin, Unique, Wide;
    assert HeapOf(tables[tab])[rid := rec] - {rid} == HeapOf(tables[tab]);
    Recorded(tables, ws, InsertTuple(tab, rid), ts');
    SchemaKept(tables, tab, ts');
    TableFacts(ts');
  }
}