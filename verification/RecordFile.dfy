/** The table file as an object, its scan, and the sequential scan executor. */
module RecordFile {
  import opened RecordIds
  import opened Bitmap
  import opened Conditions
  import opened Tables
  import opened HeapFile

  class RmFileHandle {
    const perPage: nat
    const bitmapSize: nat
    var numPages: int
    var firstFree: int
    var pages: map<int, HeapPage>

    function State(): File
      reads this
    {
      File(perPage, bitmapSize, numPages, firstFree, pages)
    }

    // A new file of records of one size.
    constructor (recordSize: nat)
      requires 1 <= recordSize <= MAX_RECORD_SIZE
      ensures Linked(State()) && Contents(State()) == map[]
    {
      SlotsBound(recordSize);
      perPage := SlotsPerPage(recordSize);
      bitmapSize := BitmapSize(SlotsPerPage(recordSize));
      numPages, firstFree, pages := FIRST_RECORD_PAGE, NO_PAGE, map[];
      new;
      EmptyFileLinked(perPage, bitmapSize);
      assert State() == File(perPage, bitmapSize, FIRST_RECORD_PAGE, NO_PAGE, map[]);
    }

    method GetRecord(rid: Rid) returns (out: Outcome, rec: Record)
      requires Sound(State()) && rid.pageNo != 0 && 0 <= rid.slotNo < perPage
      ensures out == PageNotExist <==> rid.pageNo < 0 || rid.pageNo >= numPages
      ensures out == Done <==> rid in Contents(State())
      ensures out == Done ==> rec == Contents(State())[rid]
    {
      ContentsAre(State(), rid);
      hide Contents;
      rec := [];
      if rid.pageNo < 0 || rid.pageNo >= numPages {
        return PageNotExist, rec;
      }
      assert PageShape(State(), rid.pageNo);
      if !IsSet(pages[rid.pageNo].bitmap, rid.slotNo) {
        return RecordNotFound, rec;
      }
      return Done, pages[rid.pageNo].slots[rid.slotNo];
    }

    method Insert(rec: Record) returns (rid: Rid)
      requires Sound(State()) && HeadHasRoom(State())
      modifies this
      ensures State() == Inserted(old(State()), rec) && rid == InsertedAt(old(State()))
    {
      ghost var f := State();
      assert f.perPage == perPage;
      hide *;
      var p := FindRoom();
      RoomRead(f);
      var slot := FirstBit(false, pages[p].bitmap, perPage);
      SlotFound(f, slot, rec);
      rid := Rid(p, slot);
      PutRecord(rid, rec);
    }

    // The head of the chain, or a new page at the end of the file.
    method FindRoom() returns (p: int)
      modifies this
      ensures State() == Roomy(old(State())) && p == RoomyPage(old(State())) && pages == Roomy(old(State())).pages
    {
      if firstFree == NO_PAGE {
        p := numPages;
        pages := pages[p := FreshPage(bitmapSize, perPage)];
        numPages := numPages + 1;
      } else {
        p := firstFree;
      }
    }

    method PutRecord(rid: Rid, rec: Record)
      requires rid.pageNo in pages && 0 <= rid.slotNo < |pages[rid.pageNo].slots|
        && rid.slotNo < WIDTH * |pages[rid.pageNo].bitmap|
      modifies this
      ensures rid.pageNo in old(pages) && rid.slotNo < |old(pages)[rid.pageNo].slots|
        && rid.slotNo < WIDTH * |old(pages)[rid.pageNo].bitmap|
      ensures State() == PutFirst(old(State()), rid, rec)
    {
      hide Set;
      var page := pages[rid.pageNo];
      pages := pages[rid.pageNo := page.(bitmap := Set(page.bitmap, rid.slotNo), slots := page.slots[rid.slotNo := rec],
        numRecords := page.numRecords + 1)];
      if pages[rid.pageNo].numRecords == perPage {
        firstFree := pages[rid.pageNo].nextFree;
      }
    }

    // Puts a record back where it was; a no-op if the slot is taken.
    method InsertAt(rid: Rid, rec: Record) returns (out: Outcome)
      requires Sound(State()) && rid.pageNo != 0 && 0 <= rid.slotNo < perPage
      modifies this
      ensures out == PageNotExist <==> rid.pageNo < 0 || rid.pageNo >= old(numPages)
      ensures Has(old(State()), rid) || out == PageNotExist ==> State() == old(State())
      ensures !Has(old(State()), rid) && out != PageNotExist ==>
                rid.pageNo in old(pages) && PageShape(old(State()), rid.pageNo)
                  && State() == Put(old(State()), rid, rec)
    {
      if rid.pageNo < 0 || rid.pageNo >= numPages {
        return PageNotExist;
      }
      assert PageShape(State(), rid.pageNo);
      if IsSet(pages[rid.pageNo].bitmap, rid.slotNo) {
        return Done;
      }
      var page := pages[rid.pageNo];
      pages := pages[rid.pageNo := page.(bitmap := Set(page.bitmap, rid.slotNo), slots := page.slots[rid.slotNo := rec],
        numRecords := page.numRecords + 1)];
      return Done;
    }

    method Delete(rid: Rid) returns (out: Outcome)
      requires Sound(State()) && rid.pageNo != 0 && 0 <= rid.slotNo < perPage
      modifies this
      ensures out == Done <==> Has(old(State()), rid)
      ensures out == PageNotExist <==> rid.pageNo < 0 || rid.pageNo >= old(numPages)
      ensures State() == if out == Done then Removed(old(State()), rid) else old(State())
    {
      if rid.pageNo < 0 || rid.pageNo >= numPages {
        return PageNotExist;
      }
      assert PageShape(State(), rid.pageNo);
      if !IsSet(pages[rid.pageNo].bitmap, rid.slotNo) {
        return RecordNotFound;
      }
      var page := pages[rid.pageNo];
      page := page.(bitmap := Reset(page.bitmap, rid.slotNo), numRecords := page.numRecords - 1);
      if page.numRecords == perPage - 1 {
        page := page.(nextFree := firstFree);
        firstFree := rid.pageNo;
      }
      pages := pages[rid.pageNo := page];
      return Done;
    }

    method Update(rid: Rid, rec: Record) returns (out: Outcome)
      requires Sound(State()) && rid.pageNo != 0 && 0 <= rid.slotNo < perPage
      modifies this
      ensures out == Done <==> Has(old(State()), rid)
      ensures out == PageNotExist <==> rid.pageNo < 0 || rid.pageNo >= old(numPages)
      ensures State() == if out == Done then Rewritten(old(State()), rid, rec) else old(State())
    {
      if rid.pageNo < 0 || rid.pageNo >= numPages {
        return PageNotExist;
      }
      assert PageShape(State(), rid.pageNo);
      if !IsSet(pages[rid.pageNo].bitmap, rid.slotNo) {
        return RecordNotFound;
      }
      pages := pages[rid.pageNo := pages[rid.pageNo].(slots := pages[rid.pageNo].slots[rid.slotNo := rec])];
      return Done;
    }
  }

  lemma RoomRead(f: File)
    requires Sound(f) && HeadHasRoom(f)
    ensures var g, p := Roomy(f), RoomyPage(f);
            p in g.pages && g.perPage == f.perPage <= WIDTH * |g.pages[p].bitmap| && |g.pages[p].slots| == f.perPage
  {
    RoomFound(f);
    hide Roomy, RoomyPage, FirstClear;
  }

  lemma SlotFound(f: File, slot: int, rec: Record)
    requires Sound(f) && HeadHasRoom(f)
    requires var g, p := Roomy(f), RoomyPage(f);
             && p in g.pages && f.perPage <= WIDTH * |g.pages[p].bitmap| && 0 <= slot <= f.perPage
             && (slot < f.perPage ==> !IsSet(g.pages[p].bitmap, slot))
               && forall k :: 0 <= k < slot ==> IsSet(g.pages[p].bitmap, k)
    ensures slot < f.perPage && Rid(RoomyPage(f), slot) == InsertedAt(f)
    ensures RoomyPage(f) in Roomy(f).pages
      && |Roomy(f).pages[RoomyPage(f)].slots| == f.perPage <= WIDTH * |Roomy(f).pages[RoomyPage(f)].bitmap|
    ensures Inserted(f, rec) == PutFirst(Roomy(f), Rid(RoomyPage(f), slot), rec)
  {
    RoomFound(f);
    hide Roomy, RoomyPage, IsSet, PutFirst, Sound, HeadHasRoom;
  }

  // ---------------------------------------------------------------- the free chain rebuilt after recovery

  // The two files differ in page and file headers only.
  ghost predicate SameSlots(f: File, f': File) {
    && f'.perPage == f.perPage && f'.bitmapSize == f.bitmapSize && f'.numPages == f.numPages
      && f'.pages.Keys == f.pages.Keys
    && forall p :: p in f.pages ==> f'.pages[p] == f.pages[p].(nextFree := f'.pages[p].nextFree,
      numRecords := f'.pages[p].numRecords)
  }

  lemma SameSlotsContents(f: File, f': File)
    requires SameSlots(f, f')
    ensures Contents(f') == Contents(f) && (Shaped(f) ==> Shaped(f'))
  {
    forall x ensures Has(f', x) <==> Has(f, x) {
      assert x.pageNo in f.pages ==> (PageShape(f, x.pageNo) <==> PageShape(f', x.pageNo));
    }
    if Shaped(f) {
      forall p | p in f'.pages ensures PageShape(f', p) {
        assert PageShape(f, p);
      }
    }
    forall x ensures x in Contents(f') <==> x in Contents(f) {
      ContentsAre(f, x);
      ContentsAre(f', x);
    }
    forall x | x in Contents(f') ensures Contents(f')[x] == Contents(f)[x] {
      ContentsAre(f, x);
      ContentsAre(f', x);
    }
  }

  // The pages below upto are counted, and those with room are on the chain.
  ghost predicate Rebuilt(f0: File, f: File, upto: int, chain: seq<int>)
    requires Shaped(f0)
  {
    && SameSlots(f0, f) && Chained(f, chain)
    && (forall p :: p in f.pages && PageShape(f0, p) && p < upto ==> f.pages[p].numRecords == Count(f0.pages[p].bitmap,
      f0.perPage))
    && (forall p :: p in chain <==> p in f.pages && p < upto && f.pages[p].numRecords < f.perPage)
  }

  // Page p recounted, and chained if it has room.
  function Recounted(f: File, p: int, count: nat): File
    requires p in f.pages
  {
    if count < f.perPage
    then f.(pages := f.pages[p := f.pages[p].(numRecords := count, nextFree := f.firstFree)], firstFree := p)
    else f.(pages := f.pages[p := f.pages[p].(numRecords := count, nextFree := NO_PAGE)])
  }

  lemma RecountedChained(f: File, p: int, chain: seq<int>, count: nat)
    requires Chained(f, chain) && p in f.pages && p !in chain
    ensures Chained(Recounted(f, p, count), if count < f.perPage then [p] + chain else chain)
  {
    var f' := Recounted(f, p, count);
    var o := if count < f.perPage then 1 else 0;
    var chain' := if count < f.perPage then [p] + chain else chain;
    forall i | 0 <= i < |chain'|
      ensures chain'[i] in f'.pages && f'.pages[chain'[i]].numRecords < f'.perPage
      ensures f'.pages[chain'[i]].nextFree == Follower(chain', i + 1)
    {
      if i >= o {
        assert chain'[i] == chain[i - o] && chain[i - o] in chain;
      }
    }
    forall i, j | 0 <= i < j < |chain'| ensures chain'[i] != chain'[j] {
      assert chain'[j] == chain[j - o] && chain[j - o] in chain;
    }
  }

  lemma RebuildStep(f0: File, f: File, p: int, chain: seq<int>, count: nat)
    requires Shaped(f0) && Rebuilt(f0, f, p, chain) && p in f.pages && p in f0.pages && PageShape(f0, p)
      && count == Count(f0.pages[p].bitmap, f0.perPage)
    ensures Rebuilt(f0, Recounted(f, p, count), p + 1, if count < f0.perPage then [p] + chain else chain)
  {
    CountClear(f0.pages[p].bitmap, f0.perPage);
    hide Count, Chained, Shaped, PageShape;
    assert p !in chain && f.perPage == f0.perPage;
    RecountedChained(f, p, chain, count);
    RecountedPages(f0, f, p, count);
    hide SameSlots, Recounted;
    var f' := Recounted(f, p, count);
    var chain' := if count < f0.perPage then [p] + chain else chain;
    forall q | q in f'.pages && PageShape(f0, q)
      && q < p + 1 ensures f'.pages[q].numRecords == Count(f0.pages[q].bitmap, f0.perPage) {
      assert q != p ==> f'.pages[q] == f.pages[q];
    }
    forall q ensures q in chain' <==> q in f'.pages && q < p + 1 && f'.pages[q].numRecords < f'.perPage {
      assert q in chain' <==> q in chain || (count < f0.perPage && q == p);
      assert q in f.pages && q != p ==> f'.pages[q] == f.pages[q];
    }
    assert SameSlots(f0, f') && Chained(f', chain');
  }

  lemma RecountedPages(f0: File, f: File, p: int, count: nat)
    requires SameSlots(f0, f) && p in f.pages
    ensures var f' := Recounted(f, p, count);
            && SameSlots(f0, f') && f'.perPage == f.perPage && f'.pages.Keys == f.pages.Keys
            && f'.pages[p].numRecords == count && forall q :: q in f.pages && q != p ==> f'.pages[q] == f.pages[q]
  {
  }

  lemma RebuiltLinked(f0: File, f: File, chain: seq<int>)
    requires Shaped(f0) && Rebuilt(f0, f, f0.numPages, chain)
    ensures Linked(f)
  {
    SameSlotsContents(f0, f);
    forall p | p in f.pages && PageShape(f, p) ensures f.pages[p].numRecords == Count(f.pages[p].bitmap, f.perPage) {
      assert PageShape(f0, p);
    }
  }

  method CountRecords(bm: Bits, perPage: nat) returns (count: nat)
    requires perPage <= WIDTH * |bm|
    ensures count == Count(bm, perPage)
  {
    count := 0;
    for slot := 0 to perPage
      invariant count == Count(bm, slot)
    {
      if IsSet(bm, slot) {
        count := count + 1;
      }
    }
  }

  // Recounts the records of every page and chains all pages with room.
  method RebuildFreeList(fh: RmFileHandle) returns (ghost chain: seq<int>)
    requires Shaped(fh.State())
    modifies fh
    ensures Linked(fh.State()) && Contents(fh.State()) == Contents(old(fh.State()))
    ensures Chained(fh.State(), chain)
    ensures forall p :: p in chain <==> p in fh.pages && fh.pages[p].numRecords < fh.perPage
  {
    ghost var f0 := fh.State();
    fh.firstFree := NO_PAGE;
    chain := [];
    assert Rebuilt(f0, fh.State(), FIRST_RECORD_PAGE, chain);
    for p := FIRST_RECORD_PAGE to fh.numPages
      invariant fh.numPages == f0.numPages && Rebuilt(f0, fh.State(), p, chain)
    {
      ghost var f := fh.State();
      RebuildRead(f0, f, p, chain);
      hide *;
      var count := CountRecords(fh.pages[p].bitmap, fh.perPage);
      RebuildStep(f0, f, p, chain, count);
      RecountPage(fh, p, count);
      chain := if count < fh.perPage then [p] + chain else chain;
    }
    RebuiltLinked(f0, fh.State(), chain);
    SameSlotsContents(f0, fh.State());
  }

  method RecountPage(fh: RmFileHandle, p: int, count: nat)
    requires p in fh.pages
    modifies fh
    ensures p in old(fh.pages) && fh.State() == Recounted(old(fh.State()), p, count) && fh.numPages == old(fh.numPages)
  {
    if count < fh.perPage {
      fh.pages := fh.pages[p := fh.pages[p].(numRecords := count, nextFree := fh.firstFree)];
      fh.firstFree := p;
    } else {
      fh.pages := fh.pages[p := fh.pages[p].(numRecords := count, nextFree := NO_PAGE)];
    }
  }

  lemma RebuildRead(f0: File, f: File, p: int, chain: seq<int>)
    requires Shaped(f0) && Rebuilt(f0, f, p, chain) && FIRST_RECORD_PAGE <= p < f0.numPages
    ensures p in f.pages && p in f0.pages && PageShape(f0, p) && f.pages[p].bitmap == f0.pages[p].bitmap
      && f.perPage == f0.perPage
    ensures f.perPage <= WIDTH * |f.pages[p].bitmap|
  {
    assert PageShape(f0, p);
  }

  // ---------------------------------------------------------------- scanning

  predicate Less(a: Rid, b: Rid) {
    a.pageNo < b.pageNo || (a.pageNo == b.pageNo && a.slotNo < b.slotNo)
  }

  class RmScan {
    const fh: RmFileHandle
    var rid: Rid

    // The first record of the file, or its end.
    constructor (fh: RmFileHandle)
      requires Sound(fh.State())
      ensures this.fh == fh && NextRecord(fh.State(), Rid(FIRST_RECORD_PAGE, -1), rid)
    {
      this.fh, rid := fh, Rid(FIRST_RECORD_PAGE, -1);
      new;
      Next();
    }

    predicate IsEnd()
      reads this, fh
    {
      rid.pageNo >= fh.numPages
    }

    // The next record in the order of pages and slots, or the end of the file.
    method Next()
      requires Sound(fh.State()) && rid.pageNo >= FIRST_RECORD_PAGE && -1 <= rid.slotNo < fh.perPage
      modifies this
      ensures NextRecord(fh.State(), old(rid), rid)
    {
      ghost var f, start := fh.State(), rid;
      while rid.pageNo < fh.numPages
        invariant rid.pageNo >= FIRST_RECORD_PAGE && -1 <= rid.slotNo < fh.perPage
        invariant rid == start || (Less(start, rid) && rid.slotNo == -1)
        invariant forall x :: Has(f, x) && Less(start, x) && !Less(rid, x) ==> false
        decreases fh.numPages - rid.pageNo
      {
        assert PageShape(f, rid.pageNo);
        ghost var before := rid;
        var slot := NextBit(true, fh.pages[rid.pageNo].bitmap, fh.perPage, rid.slotNo);
        NoneBetween(f, before, slot);
        rid := rid.(slotNo := slot);
        if rid.slotNo < fh.perPage {
          return;
        }
        rid := Rid(rid.pageNo + 1, -1);
      }
    }
  }

  lemma NoneBetween(f: File, rid: Rid, slot: int)
    requires Shaped(f) && rid.pageNo in f.pages && PageShape(f, rid.pageNo)
    requires forall k :: 0 <= k && rid.slotNo < k < slot && k < f.perPage ==> !IsSet(f.pages[rid.pageNo].bitmap, k)
    ensures forall x :: Has(f, x) && Less(rid, x) && x.pageNo == rid.pageNo ==> x.slotNo >= slot
  {
  }

  // b is the least record after a, or past the last page if there is none.
  ghost predicate NextRecord(f: File, a: Rid, b: Rid) {
    && b.pageNo >= FIRST_RECORD_PAGE && -1 <= b.slotNo < f.perPage
    && (if b.pageNo < f.numPages
        then Less(a, b) && Has(f, b) && forall x :: Has(f, x) && Less(a, x) ==> !Less(x, b)
        else forall x :: Has(f, x) ==> !Less(a, x))
  }

  // ---------------------------------------------------------------- the sequential scan

  // The matching records up to a place, in order.
  ghost predicate Collected(out: seq<Rid>, f: File, conds: seq<Cond>, upto: Rid) {
    && (forall i, j :: 0 <= i < j < |out| ==> Less(out[i], out[j]))
    && (forall x :: x in out <==> Hit(Contents(f), conds, x) && Less(x, upto))
  }

  lemma RecordAt(f: File, rid: Rid)
    requires Shaped(f) && Has(f, rid)
    ensures rid.pageNo in f.pages && 0 <= rid.slotNo < |f.pages[rid.pageNo].slots| && rid.pageNo >= FIRST_RECORD_PAGE
      && rid.slotNo < f.perPage && rid.pageNo < f.numPages
    ensures rid in Contents(f) && Contents(f)[rid] == f.pages[rid.pageNo].slots[rid.slotNo]
  {
    ContentsAre(f, rid);
  }

  lemma CollectNext(out: seq<Rid>, f: File, conds: seq<Cond>, rid: Rid, next: Rid, taken: bool)
    requires Shaped(f) && Collected(out, f, conds, rid) && Has(f, rid) && NextRecord(f, rid, next)
      && (taken <==> Hit(Contents(f), conds, rid))
    requires rid.pageNo < next.pageNo || Less(rid, next)
    ensures Collected(if taken then out + [rid] else out, f, conds, next)
  {
    hide Has, Hit, Contents;
    var out' := if taken then out + [rid] else out;
    forall x | Hit(Contents(f), conds, x) ensures Less(x, next) <==> Less(x, rid) || x == rid {
      HitHas(f, conds, x);
    }
    forall x ensures x in out' <==> Hit(Contents(f), conds, x) && Less(x, next) {
    }
    forall i, j | 0 <= i < j < |out'| ensures Less(out'[i], out'[j]) {
      if j == |out| {
        assert out'[i] in out;
      }
    }
  }

  lemma HitHas(f: File, conds: seq<Cond>, x: Rid)
    requires Hit(Contents(f), conds, x)
    ensures Has(f, x)
  {
    ContentsAre(f, x);
  }

  // The records of the file that satisfy the conditions, in the order of their ids.
  method SeqScan(fh: RmFileHandle, conds: seq<Cond>) returns (out: seq<Rid>)
    requires Sound(fh.State())
    requires forall rid :: rid in Contents(fh.State()) ==> forall i :: 0 <= i < |conds| ==> InRange(conds[i],
      |Contents(fh.State())[rid]|)
    ensures Answers(out, Contents(fh.State()), conds)
    ensures forall i, j :: 0 <= i < j < |out| ==> Less(out[i], out[j])
  {
    ghost var f := fh.State();
    out := [];
    var scan := new RmScan(fh);
    StartCollect(f, conds, scan.rid);
    while !scan.IsEnd()
      invariant scan.fh == fh && fh.State() == f && scan.rid.pageNo >= FIRST_RECORD_PAGE
        && -1 <= scan.rid.slotNo < f.perPage
      invariant scan.IsEnd() || Has(f, scan.rid)
      invariant Collected(out, f, conds, scan.rid)
      decreases f.numPages - scan.rid.pageNo, f.perPage - scan.rid.slotNo
    {
      var rid := scan.rid;
      RecordAt(f, rid);
      var ok := EvalConds(fh.pages[rid.pageNo].slots[rid.slotNo], conds);
      ghost var before := out;
      if ok {
        out := out + [rid];
      }
      scan.Next();
      CollectNext(before, f, conds, rid, scan.rid, ok);
    }
    EndCollect(out, f, conds, scan.rid);
  }

  lemma StartCollect(f: File, conds: seq<Cond>, first: Rid)
    requires Shaped(f) && NextRecord(f, Rid(FIRST_RECORD_PAGE, -1), first)
    ensures Collected([], f, conds, first)
  {
    forall x | Hit(Contents(f), conds, x) ensures !Less(x, first) {
      HitHas(f, conds, x);
    }
  }

  lemma EndCollect(out: seq<Rid>, f: File, conds: seq<Cond>, end: Rid)
    requires Shaped(f) && Collected(out, f, conds, end) && end.pageNo >= f.numPages
    ensures forall rid :: rid in out <==> Hit(Contents(f), conds, rid)
  {
    forall x | Hit(Contents(f), conds, x) ensures Less(x, end) {
      HitHas(f, conds, x);
    }
  }
}
