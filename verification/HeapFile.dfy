/** A table file: record pages with slot bitmaps and a chain of pages with room. */
module HeapFile {
  import opened Arithmetic
  import opened RecordIds
  import opened Bitmap
  import opened Conditions

  const NO_PAGE := -1

  datatype HeapPage = HeapPage(nextFree: int, numRecords: int, bitmap: Bits, slots: seq<Record>)

  // perPage: slots of a page; pages from FIRST_RECORD_PAGE up to numPages hold records.
  datatype File = File(perPage: nat, bitmapSize: nat, numPages: int, firstFree: int, pages: map<int, HeapPage>)

  datatype Outcome = Done | PageNotExist | RecordNotFound

  // ---------------------------------------------------------------- what a file stands for

  ghost predicate PageShape(f: File, p: int)
    requires p in f.pages
  {
    |f.pages[p].slots| == f.perPage <= WIDTH * |f.pages[p].bitmap| && |f.pages[p].bitmap| == f.bitmapSize
  }

  ghost predicate Shaped(f: File) {
    && 1 <= f.perPage <= WIDTH * f.bitmapSize && f.numPages >= FIRST_RECORD_PAGE
    && (forall p :: p in f.pages <==> FIRST_RECORD_PAGE <= p < f.numPages)
    && (forall p :: p in f.pages ==> PageShape(f, p))
  }

  // The number of set bits among the first n.
  ghost function Count(bm: Bits, n: nat): nat
    requires n <= WIDTH * |bm|
  {
    if n == 0 then 0 else Count(bm, n - 1) + if IsSet(bm, n - 1) then 1 else 0
  }

  ghost predicate Counted(f: File)
    requires Shaped(f)
  {
    forall p :: p in f.pages && PageShape(f, p) ==> f.pages[p].numRecords == Count(f.pages[p].bitmap, f.perPage)
  }

  ghost predicate Has(f: File, rid: Rid) {
    && rid.pageNo in f.pages && 0 <= rid.slotNo < f.perPage && PageShape(f, rid.pageNo)
    && IsSet(f.pages[rid.pageNo].bitmap, rid.slotNo)
  }

  // The records by their ids.
  ghost function Contents(f: File): map<Rid, Record> {
    map p, s | p in f.pages && 0 <= s < f.perPage && Has(f, Rid(p, s)) :: Rid(p, s) := f.pages[p].slots[s]
  }

  lemma ContentsAre(f: File, rid: Rid)
    ensures rid in Contents(f) <==> Has(f, rid)
    ensures Has(f, rid) ==> Contents(f)[rid] == f.pages[rid.pageNo].slots[rid.slotNo]
  {
    assert rid == Rid(rid.pageNo, rid.slotNo);
  }

  ghost predicate Sound(f: File) {
    Shaped(f) && Counted(f)
  }

  // ---------------------------------------------------------------- the chain of pages with room

  // Page i of the chain, or the end mark.
  ghost function Follower(chain: seq<int>, i: nat): int {
    if i < |chain| then chain[i] else NO_PAGE
  }

  ghost predicate Chained(f: File, chain: seq<int>) {
    && (forall i, j :: 0 <= i < j < |chain| ==> chain[i] != chain[j])
    && (forall i :: 0 <= i < |chain| ==> chain[i] in f.pages && f.pages[chain[i]].numRecords < f.perPage)
    && (forall i :: 0 <= i < |chain| ==> f.pages[chain[i]].nextFree == Follower(chain, i + 1))
    && f.firstFree == Follower(chain, 0)
  }

  // The next insertion finds a free slot.
  ghost predicate HeadHasRoom(f: File) {
    f.firstFree == NO_PAGE || (f.firstFree in f.pages && f.pages[f.firstFree].numRecords < f.perPage)
  }

  lemma ChainedHasRoom(f: File, chain: seq<int>)
    requires Chained(f, chain)
    ensures HeadHasRoom(f)
  {
    if |chain| > 0 {
      assert chain[0] in f.pages;
    }
  }

  // ---------------------------------------------------------------- the operations on values

  function FreshPage(bitmapSize: nat, perPage: nat): HeapPage {
    HeapPage(NO_PAGE, 0, seq(bitmapSize, _ => 0), seq(perPage, _ => []))
  }

  // The file with a new empty page at its end; the page is not put on the chain.
  function Extended(f: File): File {
    f.(pages := f.pages[f.numPages := FreshPage(f.bitmapSize, f.perPage)], numPages := f.numPages + 1)
  }

  function Put(f: File, rid: Rid, rec: Record): File
    requires rid.pageNo in f.pages && 0 <= rid.slotNo < |f.pages[rid.pageNo].slots|
      && rid.slotNo < WIDTH * |f.pages[rid.pageNo].bitmap|
  {
    var page := f.pages[rid.pageNo];
    var page' := page.(bitmap := Set(page.bitmap, rid.slotNo), slots := page.slots[rid.slotNo := rec],
      numRecords := page.numRecords + 1);
    f.(pages := f.pages[rid.pageNo := page'])
  }

  // A record put on the head page; a page that fills up leaves the chain.
  function PutFirst(f: File, rid: Rid, rec: Record): File
    requires rid.pageNo in f.pages && 0 <= rid.slotNo < |f.pages[rid.pageNo].slots|
      && rid.slotNo < WIDTH * |f.pages[rid.pageNo].bitmap|
  {
    var f' := Put(f, rid, rec);
    if f'.pages[rid.pageNo].numRecords == f.perPage then f'.(firstFree := f'.pages[rid.pageNo].nextFree) else f'
  }

  // A record taken out; a page that was full goes to the front of the chain.
  function Removed(f: File, rid: Rid): File
    requires rid.pageNo in f.pages && 0 <= rid.slotNo < WIDTH * |f.pages[rid.pageNo].bitmap|
  {
    var page := f.pages[rid.pageNo];
    var page' := page.(bitmap := Reset(page.bitmap, rid.slotNo), numRecords := page.numRecords - 1);
    if page'.numRecords == f.perPage - 1
    then f.(pages := f.pages[rid.pageNo := page'.(nextFree := f.firstFree)], firstFree := rid.pageNo)
    else f.(pages := f.pages[rid.pageNo := page'])
  }

  function Rewritten(f: File, rid: Rid, rec: Record): File
    requires rid.pageNo in f.pages && 0 <= rid.slotNo < |f.pages[rid.pageNo].slots|
  {
    var page := f.pages[rid.pageNo];
    f.(pages := f.pages[rid.pageNo := page.(slots := page.slots[rid.slotNo := rec])])
  }

  // ---------------------------------------------------------------- what the operations do to the records

  lemma {:induction false} CountSet(bm: Bits, pos: nat, n: nat)
    requires n <= WIDTH * |bm| && pos < WIDTH * |bm| && !IsSet(bm, pos)
    ensures Count(Set(bm, pos), n) == Count(bm, n) + if pos < n then 1 else 0
  {
    hide IsSet, Set;
    if n > 0 {
      CountSet(bm, pos, n - 1);
      OnlyThatBit(bm, pos, n - 1);
    }
  }

  lemma {:induction false} CountReset(bm: Bits, pos: nat, n: nat)
    requires n <= WIDTH * |bm| && pos < WIDTH * |bm| && IsSet(bm, pos)
    ensures Count(Reset(bm, pos), n) == Count(bm, n) - if pos < n then 1 else 0
  {
    hide IsSet, Reset;
    if n > 0 {
      CountReset(bm, pos, n - 1);
      OnlyThatBit(bm, pos, n - 1);
    }
  }

  lemma {:induction false} CountClear(bm: Bits, n: nat)
    requires n <= WIDTH * |bm|
    ensures Count(bm, n) <= n
    ensures Count(bm, n) == n <==> forall k :: 0 <= k < n ==> IsSet(bm, k)
  {
    if n > 0 {
      CountClear(bm, n - 1);
    }
  }

  lemma PutHas(f: File, rid: Rid, rec: Record, x: Rid)
    requires Shaped(f) && rid.pageNo in f.pages && 0 <= rid.slotNo < f.perPage
    ensures Shaped(Put(f, rid, rec))
    ensures Has(Put(f, rid, rec), x) <==> x == rid || Has(f, x)
  {
    var f' := Put(f, rid, rec);
    if x.pageNo == rid.pageNo && 0 <= x.slotNo < f.perPage {
      OnlyThatBit(f.pages[rid.pageNo].bitmap, rid.slotNo, x.slotNo);
    }
  }

  lemma PutContents(f: File, rid: Rid, rec: Record)
    requires Shaped(f) && rid.pageNo in f.pages && 0 <= rid.slotNo < f.perPage
    ensures Contents(Put(f, rid, rec)) == Contents(f)[rid := rec]
  {
    var f' := Put(f, rid, rec);
    forall x ensures x in Contents(f') <==> x == rid || x in Contents(f) {
      PutHas(f, rid, rec, x);
      ContentsAre(f, x);
      ContentsAre(f', x);
    }
    forall x | x in Contents(f') ensures Contents(f')[x] == Contents(f)[rid := rec][x] {
      ContentsAre(f, x);
      ContentsAre(f', x);
    }
  }

  lemma PutSound(f: File, rid: Rid, rec: Record)
    requires Sound(f) && rid.pageNo in f.pages && 0 <= rid.slotNo < f.perPage && !Has(f, rid)
    ensures Sound(Put(f, rid, rec))
  {
    PutHas(f, rid, rec, rid);
    var f' := Put(f, rid, rec);
    CountSet(f.pages[rid.pageNo].bitmap, rid.slotNo, f.perPage);
    forall p | p in f'.pages && PageShape(f', p) ensures f'.pages[p].numRecords == Count(f'.pages[p].bitmap,
      f'.perPage) {
      assert PageShape(f, p);
    }
  }

  lemma FreshCount(n: nat, k: nat, perPage: nat)
    requires k <= WIDTH * n
    ensures Count(FreshPage(n, perPage).bitmap, k) == 0
  {
  }

  lemma ExtendedSound(f: File)
    requires Sound(f)
    ensures Sound(Extended(f)) && f.numPages !in f.pages && Contents(Extended(f)) == Contents(f)
  {
    var f' := Extended(f);
    ExtendedPages(f);
    hide Sound, Has, Contents, Extended;
    forall x
      ensures x in Contents(f') <==> x in Contents(f)
      ensures x in Contents(f) ==> Contents(f')[x] == Contents(f)[x]
    {
      ExtendedCell(f, x);
      ContentsAre(f, x);
      ContentsAre(f', x);
    }
  }

  lemma ExtendedPages(f: File)
    requires Sound(f)
    ensures Sound(Extended(f)) && f.numPages !in f.pages
  {
    FreshCount(f.bitmapSize, f.perPage, f.perPage);
  }

  lemma ExtendedCell(f: File, x: Rid)
    requires Sound(f)
    ensures Has(Extended(f), x) <==> Has(f, x)
    ensures Has(f, x) ==> Extended(f).pages[x.pageNo].slots[x.slotNo] == f.pages[x.pageNo].slots[x.slotNo]
  {
    if x.pageNo in f.pages {
      assert PageShape(f, x.pageNo);
    }
  }

  lemma RemovedHas(f: File, rid: Rid, x: Rid)
    requires Shaped(f) && Has(f, rid)
    ensures Shaped(Removed(f, rid))
    ensures Has(Removed(f, rid), x) <==> x != rid && Has(f, x)
  {
    if x.pageNo == rid.pageNo && 0 <= x.slotNo < f.perPage {
      OnlyThatBit(f.pages[rid.pageNo].bitmap, rid.slotNo, x.slotNo);
    }
    if x.pageNo in f.pages {
      assert PageShape(f, x.pageNo);
    }
  }

  lemma RemovedSound(f: File, rid: Rid)
    requires Sound(f) && Has(f, rid)
    ensures Sound(Removed(f, rid))
  {
    var f' := Removed(f, rid);
    RemovedHas(f, rid, rid);
    CountReset(f.pages[rid.pageNo].bitmap, rid.slotNo, f.perPage);
    hide Count;
    forall p | p in f'.pages && PageShape(f', p) ensures f'.pages[p].numRecords == Count(f'.pages[p].bitmap,
      f'.perPage) {
      assert PageShape(f, p);
    }
  }

  lemma RemovedValue(f: File, rid: Rid, x: Rid)
    requires Has(f, rid) && x.pageNo in f.pages
    ensures x.pageNo in Removed(f, rid).pages && Removed(f, rid).pages[x.pageNo].slots == f.pages[x.pageNo].slots
  {
  }

  lemma RemovedContents(f: File, rid: Rid)
    requires Sound(f) && Has(f, rid)
    ensures Contents(Removed(f, rid)) == Contents(f) - {rid}
  {
    var f' := Removed(f, rid);
    hide Contents, Counted, Removed;
    forall x ensures x in Contents(f') <==> x != rid && x in Contents(f) {
      RemovedHas(f, rid, x);
      ContentsAre(f, x);
      ContentsAre(f', x);
    }
    forall x | x in Contents(f') ensures Contents(f')[x] == Contents(f)[x] {
      ContentsAre(f, x);
      ContentsAre(f', x);
      RemovedValue(f, rid, x);
    }
  }

  lemma RewrittenContents(f: File, rid: Rid, rec: Record)
    requires Sound(f) && Has(f, rid)
    ensures Sound(Rewritten(f, rid, rec)) && Contents(Rewritten(f, rid, rec)) == Contents(f)[rid := rec]
  {
    var f' := Rewritten(f, rid, rec);
    forall p | p in f'.pages ensures PageShape(f', p) && f'.pages[p].numRecords == Count(f'.pages[p].bitmap,
      f'.perPage) {
      assert PageShape(f, p);
    }
    forall x ensures Has(f', x) <==> Has(f, x) {
      if x.pageNo in f.pages {
        assert PageShape(f, x.pageNo);
      }
    }
    forall x ensures x in Contents(f') <==> x in Contents(f) {
      ContentsAre(f, x);
      ContentsAre(f', x);
    }
    forall x | x in Contents(f') ensures Contents(f')[x] == Contents(f)[rid := rec][x] {
      ContentsAre(f, x);
      ContentsAre(f', x);
    }
  }

  // The header of a file does not matter for its records.
  lemma SameRecords(f: File, f': File)
    requires f'.pages == f.pages && f'.perPage == f.perPage && f'.numPages == f.numPages
      && f'.bitmapSize == f.bitmapSize
    ensures Sound(f) ==> Sound(f')
    ensures Contents(f') == Contents(f)
  {
    if Sound(f) {
      forall p | p in f'.pages ensures PageShape(f', p) && f'.pages[p].numRecords == Count(f'.pages[p].bitmap,
        f'.perPage) {
        assert PageShape(f, p);
      }
    }
    forall x ensures Has(f', x) <==> Has(f, x) {
      assert x.pageNo in f.pages ==> (PageShape(f, x.pageNo) <==> PageShape(f', x.pageNo));
    }
    forall x ensures x in Contents(f') <==> x in Contents(f) {
      ContentsAre(f, x);
      ContentsAre(f', x);
    }
    forall x | x in Contents(f') ensures Contents(f')[x] == Contents(f)[x] {
      ContentsAre(f, x);
      ContentsAre(f', x);
    }
  }

  // ---------------------------------------------------------------- the chain

  lemma PutEffect(f: File, rid: Rid, rec: Record)
    requires rid.pageNo in f.pages && PageShape(f, rid.pageNo) && 0 <= rid.slotNo < f.perPage
    ensures var f', g := Put(f, rid, rec), PutFirst(f, rid, rec);
            && f'.perPage == f.perPage && g.perPage == f.perPage && g.bitmapSize == f'.bitmapSize
              && g.numPages == f'.numPages && g.pages == f'.pages && f'.pages.Keys == f.pages.Keys
            && f'.pages[rid.pageNo].numRecords == f.pages[rid.pageNo].numRecords + 1
              && f'.pages[rid.pageNo].nextFree == f.pages[rid.pageNo].nextFree
            && f'.firstFree == f.firstFree
            && g.firstFree == (if f.pages[rid.pageNo].numRecords + 1 == f.perPage then f.pages[rid.pageNo].nextFree
              else f.firstFree)
            && forall p :: p in f.pages && p != rid.pageNo ==> f'.pages[p] == f.pages[p]
  {
  }

  lemma PutFirstChained(f: File, chain: seq<int>, rid: Rid, rec: Record)
    requires Chained(f, chain) && |chain| > 0 && rid.pageNo == chain[0] && 0 <= rid.slotNo < f.perPage
      && chain[0] in f.pages && PageShape(f, chain[0])
    ensures Chained(PutFirst(f, rid, rec), if f.pages[chain[0]].numRecords + 1 == f.perPage then chain[1..] else chain)
  {
    PutEffect(f, rid, rec);
    hide Put, PutFirst;
    var g := PutFirst(f, rid, rec);
    var o := if f.pages[chain[0]].numRecords + 1 == f.perPage then 1 else 0;
    var chain' := chain[o..];
    assert chain[0..] == chain;
    forall i | 0 <= i < |chain'|
      ensures chain'[i] in g.pages && g.pages[chain'[i]].numRecords < g.perPage
      ensures g.pages[chain'[i]].nextFree == Follower(chain', i + 1)
    {
      assert chain'[i] == chain[i + o];
      if i + o > 0 {
        assert chain[i + o] != chain[0];
      }
    }
    assert f.pages[chain[0]].nextFree == Follower(chain, 1);
  }

  // A record put on a fresh page: the page joins no chain, full or not.
  lemma PutFreshChained(f: File, rid: Rid, rec: Record)
    requires Shaped(f) && Chained(f, []) && rid.pageNo == f.numPages && 0 <= rid.slotNo < f.perPage
    ensures Chained(PutFirst(Extended(f), rid, rec), [])
  {
  }

  lemma RemovedEffect(f: File, rid: Rid)
    requires Has(f, rid)
    ensures var f' := Removed(f, rid);
            var full := f.pages[rid.pageNo].numRecords == f.perPage;
            && f'.perPage == f.perPage && f'.pages.Keys == f.pages.Keys
            && f'.pages[rid.pageNo].numRecords == f.pages[rid.pageNo].numRecords - 1
            && f'.pages[rid.pageNo].nextFree == (if full then f.firstFree else f.pages[rid.pageNo].nextFree)
            && f'.firstFree == (if full then rid.pageNo else f.firstFree)
            && f'.pages[rid.pageNo].bitmap == Reset(f.pages[rid.pageNo].bitmap, rid.slotNo)
              && f'.pages[rid.pageNo].slots == f.pages[rid.pageNo].slots
            && forall p :: p in f.pages && p != rid.pageNo ==> f'.pages[p] == f.pages[p]
  {
  }

  lemma RemovedChained(f: File, chain: seq<int>, rid: Rid)
    requires Chained(f, chain) && Has(f, rid)
    ensures Chained(Removed(f, rid), if f.pages[rid.pageNo].numRecords == f.perPage then [rid.pageNo] + chain
      else chain)
  {
    RemovedEffect(f, rid);
    hide Removed, Has, Reset;
    if f.pages[rid.pageNo].numRecords == f.perPage {
      ChainFront(f, Removed(f, rid), chain, rid.pageNo);
    } else {
      ChainSame(f, Removed(f, rid), chain);
    }
  }

  lemma ChainFront(f: File, f': File, chain: seq<int>, p: int)
    requires Chained(f, chain) && p in f.pages && f.pages[p].numRecords == f.perPage
    requires f'.perPage == f.perPage && f'.pages.Keys == f.pages.Keys && f'.firstFree == p
    requires f'.pages[p].nextFree == f.firstFree && f'.pages[p].numRecords < f.perPage
    requires forall q :: q in f.pages && q != p ==> f'.pages[q] == f.pages[q]
    ensures Chained(f', [p] + chain)
  {
    var chain' := [p] + chain;
    forall i | 0 <= i < |chain'|
      ensures chain'[i] in f'.pages && f'.pages[chain'[i]].numRecords < f'.perPage
      ensures f'.pages[chain'[i]].nextFree == Follower(chain', i + 1)
    {
      if i > 0 {
        assert chain'[i] == chain[i - 1];
      }
    }
    forall i, j | 0 <= i < j < |chain'| ensures chain'[i] != chain'[j] {
      assert chain'[j] == chain[j - 1];
    }
  }

  lemma ChainSame(f: File, f': File, chain: seq<int>)
    requires Chained(f, chain)
    requires f'.perPage == f.perPage && f'.pages.Keys == f.pages.Keys && f'.firstFree == f.firstFree
    requires forall q :: q in f.pages ==>
      f'.pages[q].nextFree == f.pages[q].nextFree && f'.pages[q].numRecords <= f.pages[q].numRecords
    ensures Chained(f', chain)
  {
  }

  // A positioned insertion leaves the chain as it is, so a page on it may fill up and stay there.
  lemma PutChained(f: File, chain: seq<int>, rid: Rid, rec: Record)
    requires Sound(f) && Chained(f, chain) && rid.pageNo in f.pages && 0 <= rid.slotNo < f.perPage
    ensures |f.pages[rid.pageNo].slots| == f.perPage <= WIDTH * |f.pages[rid.pageNo].bitmap|
    ensures Chained(Put(f, rid, rec), chain) <==> rid.pageNo !in chain || f.pages[rid.pageNo].numRecords + 1 < f.perPage
  {
    assert PageShape(f, rid.pageNo);
    var f' := Put(f, rid, rec);
    if rid.pageNo in chain {
      var i :| 0 <= i < |chain| && chain[i] == rid.pageNo;
      assert f'.pages[chain[i]].numRecords == f.pages[rid.pageNo].numRecords + 1;
    }
  }

  // The chain can be read off the links.
  lemma ChainAt(f: File, chain: seq<int>, i: nat)
    requires Chained(f, chain) && NO_PAGE !in f.pages && i <= |chain|
    ensures i < |chain| <==> Follower(chain, i) != NO_PAGE
    ensures if i == 0 then f.firstFree == Follower(chain, 0)
      else chain[i - 1] in f.pages && f.pages[chain[i - 1]].nextFree == Follower(chain, i)
  {
    assert i < |chain| ==> chain[i] in f.pages;
  }

  lemma {:induction false} ChainOnce(f: File, a: seq<int>, b: seq<int>, i: nat)
    requires Chained(f, a) && Chained(f, b) && NO_PAGE !in f.pages && i <= |a| && i <= |b|
    ensures a[..i] == b[..i] && (i == |a| <==> i == |b|)
  {
    hide Chained;
    ChainAt(f, a, i);
    ChainAt(f, b, i);
    if i > 0 {
      ChainOnce(f, a, b, i - 1);
      ChainAt(f, a, i - 1);
      ChainAt(f, b, i - 1);
      assert a[..i] == a[..i - 1] + [a[i - 1]] && b[..i] == b[..i - 1] + [b[i - 1]];
      if i > 1 {
        assert a[i - 2] == a[..i - 1][i - 2] && b[i - 2] == b[..i - 1][i - 2];
      }
    }
  }

  ghost predicate OffChain(f: File, p: int) {
    exists chain :: Chained(f, chain) && p !in chain
  }

  // A positioned insertion leaves the file a chain of pages with room if and only if its page is not on the
  // chain or has room afterwards.
  lemma PutLinked(f: File, rid: Rid, rec: Record)
    requires Linked(f) && rid.pageNo in f.pages && 0 <= rid.slotNo < f.perPage && !Has(f, rid)
    ensures PageShape(f, rid.pageNo)
    ensures Linked(Put(f, rid, rec)) <==> OffChain(f, rid.pageNo) || f.pages[rid.pageNo].numRecords + 1 < f.perPage
  {
    var f' := Put(f, rid, rec);
    var chain :| Chained(f, chain);
    assert PageShape(f, rid.pageNo) && NO_PAGE !in f.pages;
    PutSound(f, rid, rec);
    PutChained(f, chain, rid, rec);
    if Linked(f') {
      var chain' :| Chained(f', chain');
      PutBack(f, f', chain', rid);
      SameChains(f, chain, chain');
    }
    if OffChain(f, rid.pageNo) {
      var off :| Chained(f, off) && rid.pageNo !in off;
      SameChains(f, chain, off);
    }
  }

  lemma PutBack(f: File, f': File, chain: seq<int>, rid: Rid)
    requires Chained(f', chain) && f'.perPage == f.perPage && f'.pages.Keys == f.pages.Keys
      && f'.firstFree == f.firstFree
    requires forall p :: p in f.pages ==>
      f'.pages[p].nextFree == f.pages[p].nextFree && f.pages[p].numRecords <= f'.pages[p].numRecords
    ensures Chained(f, chain)
  {
  }

  lemma SameChains(f: File, a: seq<int>, b: seq<int>)
    requires Chained(f, a) && Chained(f, b) && NO_PAGE !in f.pages
    ensures a == b
  {
    if |a| <= |b| {
      ChainOnce(f, a, b, |a|);
    } else {
      ChainOnce(f, b, a, |b|);
    }
  }

  // A deletion rolled back as abort does it: the record is put back where it was.
  ghost function Restored(f: File, rid: Rid): File
    requires Shaped(f) && Has(f, rid)
  {
    RemovedHas(f, rid, rid);
    assert PageShape(f, rid.pageNo);
    Put(Removed(f, rid), rid, f.pages[rid.pageNo].slots[rid.slotNo])
  }

  lemma RestoredContents(f: File, rid: Rid)
    requires Sound(f) && Has(f, rid)
    ensures Contents(Restored(f, rid)) == Contents(f)
  {
    RemovedSound(f, rid);
    RemovedContents(f, rid);
    RemovedEffect(f, rid);
    ContentsAre(f, rid);
    hide Removed, Contents, Counted, IsSet;
    PutContents(Removed(f, rid), rid, f.pages[rid.pageNo].slots[rid.slotNo]);
  }

  // If the page was full, it is full again, but now it is also the head of the chain:
  // the next insertion finds no free slot there.
  lemma AbortedDeleteBlocksInsert(f: File, rid: Rid)
    requires Sound(f) && Has(f, rid) && f.pages[rid.pageNo].numRecords == f.perPage
    ensures var f' := Restored(f, rid);
            && f'.firstFree == rid.pageNo && !HeadHasRoom(f')
            && forall s :: 0 <= s < f'.perPage ==> Has(f', Rid(rid.pageNo, s))
  {
    var f1, f' := Removed(f, rid), Restored(f, rid);
    assert PageShape(f, rid.pageNo);
    RemovedEffect(f, rid);
    RemovedHas(f, rid, rid);
    CountClear(f.pages[rid.pageNo].bitmap, f.perPage);
    hide Removed, Count, IsSet;
    PutEffect(f1, rid, f.pages[rid.pageNo].slots[rid.slotNo]);
    forall s | 0 <= s < f'.perPage ensures Has(f', Rid(rid.pageNo, s)) {
      RemovedHas(f, rid, Rid(rid.pageNo, s));
      PutHas(f1, rid, f.pages[rid.pageNo].slots[rid.slotNo], Rid(rid.pageNo, s));
    }
  }

  // ---------------------------------------------------------------- unpositioned insertion

  // The first clear position from i on, or n.
  function FirstClear(bm: Bits, i: nat, n: nat): (k: nat)
    requires i <= n <= WIDTH * |bm|
    ensures i <= k <= n && (k < n ==> !IsSet(bm, k)) && forall j :: i <= j < k ==> IsSet(bm, j)
    decreases n - i
  {
    if i == n || !IsSet(bm, i) then i else FirstClear(bm, i + 1, n)
  }

  // The page that takes the next record: the head of the chain, or a new page.
  function Roomy(f: File): File {
    if f.firstFree == NO_PAGE then Extended(f) else f
  }

  function RoomyPage(f: File): int {
    if f.firstFree == NO_PAGE then f.numPages else f.firstFree
  }

  lemma RoomFound(f: File)
    requires Sound(f) && HeadHasRoom(f)
    ensures Sound(Roomy(f)) && Contents(Roomy(f)) == Contents(f) && RoomyPage(f) in Roomy(f).pages
      && PageShape(Roomy(f), RoomyPage(f))
    ensures Roomy(f).perPage == f.perPage
    ensures FirstClear(Roomy(f).pages[RoomyPage(f)].bitmap, 0, f.perPage) < f.perPage
  {
    var g, p := Roomy(f), RoomyPage(f);
    if f.firstFree == NO_PAGE {
      ExtendedSound(f);
      FreshCount(f.bitmapSize, f.perPage, f.perPage);
    }
    assert PageShape(g, p) && g.pages[p].numRecords < g.perPage;
    CountClear(g.pages[p].bitmap, g.perPage);
  }

  function InsertedAt(f: File): Rid
    requires Sound(f) && HeadHasRoom(f)
  {
    RoomFound(f);
    Rid(RoomyPage(f), FirstClear(Roomy(f).pages[RoomyPage(f)].bitmap, 0, f.perPage))
  }

  function Inserted(f: File, rec: Record): File
    requires Sound(f) && HeadHasRoom(f)
  {
    RoomFound(f);
    PutFirst(Roomy(f), InsertedAt(f), rec)
  }

  // The record goes to an unused id and nothing else changes.
  lemma InsertedContents(f: File, rec: Record)
    requires Sound(f) && HeadHasRoom(f)
    ensures Sound(Inserted(f, rec)) && InsertedAt(f) !in Contents(f)
      && Contents(Inserted(f, rec)) == Contents(f)[InsertedAt(f) := rec]
  {
    RoomFound(f);
    var g, rid := Roomy(f), InsertedAt(f);
    hide Roomy, RoomyPage, IsSet, Contents, Count;
    ContentsAre(g, rid);
    assert !Has(g, rid);
    PutEffect(g, rid, rec);
    hide Set, Put, PutFirst, FirstClear, HeadHasRoom;
    PutSound(g, rid, rec);
    PutContents(g, rid, rec);
    assert Inserted(f, rec) == PutFirst(g, rid, rec);
    hide Sound, Shaped, Has, InsertedAt, Inserted;
    SameRecords(Put(g, rid, rec), PutFirst(g, rid, rec));
  }

  lemma InsertedChained(f: File, rec: Record, chain: seq<int>)
    requires Sound(f) && HeadHasRoom(f) && Chained(f, chain)
    ensures chain == [] ==> Chained(Inserted(f, rec), [])
    ensures chain != [] ==> chain[0] in f.pages
    ensures chain != [] ==>
      Chained(Inserted(f, rec), if f.pages[chain[0]].numRecords + 1 == f.perPage then chain[1..] else chain)
  {
    RoomFound(f);
    var rid := InsertedAt(f);
    if |chain| == 0 {
      PutFreshChained(f, rid, rec);
    } else {
      assert chain[0] in f.pages;
      PutFirstChained(f, chain, rid, rec);
    }
  }

  // Without a chain an insertion appends a page and does not put it on the chain either.
  lemma InsertAppends(f: File, rec: Record)
    requires Sound(f) && f.firstFree == NO_PAGE
    ensures HeadHasRoom(f) && Sound(Inserted(f, rec))
    ensures InsertedAt(f) == Rid(f.numPages, 0)
    ensures Inserted(f, rec).numPages == f.numPages + 1 && Inserted(f, rec).firstFree == NO_PAGE
  {
    InsertedContents(f, rec);
    RoomFound(f);
  }

  // Slot 0 of the page holds the record.
  ghost predicate FirstOn(f: File, p: int, rec: Record) {
    Rid(p, 0) in Contents(f) && Contents(f)[Rid(p, 0)] == rec
  }

  ghost function InsertedAll(f: File, recs: seq<Record>): File
    requires Sound(f) && f.firstFree == NO_PAGE
    decreases |recs|
  {
    if recs == [] then f
    else
      InsertAppends(f, recs[0]);
      InsertedAll(Inserted(f, recs[0]), recs[1..])
  }

  /**
   However many records a page has room for, in a file whose chain is empty every insertion appends a page of its own:
   record number i goes to slot 0 of a page i pages behind the old end.
   */
  lemma {:induction false} PagePerRecord(f: File, recs: seq<Record>)
    requires Sound(f) && f.firstFree == NO_PAGE
    ensures var g := InsertedAll(f, recs);
      && Sound(g) && g.firstFree == NO_PAGE && g.numPages == f.numPages + |recs|
      && (forall rid :: rid in Contents(f) ==> rid in Contents(g) && Contents(g)[rid] == Contents(f)[rid])
      && (forall i :: 0 <= i < |recs| ==> FirstOn(g, f.numPages + i, recs[i]))
    decreases |recs|
  {
    hide Inserted, Contents, Sound, InsertedAt, HeadHasRoom;
    if recs != [] {
      InsertAppends(f, recs[0]);
      InsertedContents(f, recs[0]);
      var f' := Inserted(f, recs[0]);
      PagePerRecord(f', recs[1..]);
      var g := InsertedAll(f, recs);
      assert g == InsertedAll(f', recs[1..]);
      assert Rid(f.numPages, 0) in Contents(f') && Contents(f')[Rid(f.numPages, 0)] == recs[0];
      forall i | 0 <= i < |recs|
        ensures FirstOn(g, f.numPages + i, recs[i])
      {
        if i > 0 {
          assert FirstOn(g, f'.numPages + (i - 1), recs[1..][i - 1]);
        }
      }
    }
  }

  // ---------------------------------------------------------------- runs of unpositioned operations

  datatype Op = OpInsert(rec: Record) | OpDelete(rid: Rid) | OpUpdate(rid: Rid, rec: Record)

  ghost predicate Linked(f: File) {
    Sound(f) && exists chain :: Chained(f, chain)
  }

  // Deletion and update of a missing record throw and change nothing.
  ghost function Step(f: File, op: Op): File
    requires Linked(f)
  {
    LinkedHasRoom(f);
    match op
    case OpInsert(rec) => Inserted(f, rec)
    case OpDelete(rid) => if Has(f, rid) then Removed(f, rid) else f
    case OpUpdate(rid, rec) => if Has(f, rid) then Rewritten(f, rid, rec) else f
  }

  // What the operation means for the map of records.
  ghost function Meaning(f: File, op: Op): map<Rid, Record>
    requires Linked(f)
  {
    LinkedHasRoom(f);
    match op
    case OpInsert(rec) => Contents(f)[InsertedAt(f) := rec]
    case OpDelete(rid) => Contents(f) - {rid}
    case OpUpdate(rid, rec) => if rid in Contents(f) then Contents(f)[rid := rec] else Contents(f)
  }

  lemma LinkedHasRoom(f: File)
    requires Linked(f)
    ensures HeadHasRoom(f)
  {
    var chain :| Chained(f, chain);
    ChainedHasRoom(f, chain);
  }

  lemma RewrittenChained(f: File, chain: seq<int>, rid: Rid, rec: Record)
    requires Chained(f, chain) && Has(f, rid)
    ensures Chained(Rewritten(f, rid, rec), chain)
  {
  }

  lemma StepLinked(f: File, op: Op)
    requires Linked(f)
    ensures Linked(Step(f, op)) && Contents(Step(f, op)) == Meaning(f, op)
  {
    LinkedHasRoom(f);
    var chain :| Chained(f, chain);
    hide Chained, HeadHasRoom, Inserted, Removed, Rewritten, Contents, Has, Sound, Shaped;
    match op
    case OpInsert(rec) =>
      InsertedContents(f, rec);
      InsertedChained(f, rec, chain);
    case OpDelete(rid) =>
      ContentsAre(f, rid);
      if Has(f, rid) {
        RemovedSound(f, rid);
        RemovedContents(f, rid);
        RemovedChained(f, chain, rid);
      }
    case OpUpdate(rid, rec) =>
      ContentsAre(f, rid);
      if Has(f, rid) {
        RewrittenContents(f, rid, rec);
        RewrittenChained(f, chain, rid, rec);
      }
  }

  ghost function Run(f: File, ops: seq<Op>): File
    requires Linked(f)
    ensures Linked(Run(f, ops))
    decreases |ops|
  {
    if ops == [] then f else
      StepLinked(f, ops[0]);
      Run(Step(f, ops[0]), ops[1..])
  }

  lemma EmptyFileLinked(perPage: nat, bitmapSize: nat)
    requires 1 <= perPage <= WIDTH * bitmapSize
    ensures Linked(File(perPage, bitmapSize, FIRST_RECORD_PAGE, NO_PAGE, map[]))
    ensures Contents(File(perPage, bitmapSize, FIRST_RECORD_PAGE, NO_PAGE, map[])) == map[]
  {
    var f := File(perPage, bitmapSize, FIRST_RECORD_PAGE, NO_PAGE, map[]);
    assert Chained(f, []);
  }

  // ---------------------------------------------------------------- the layout of a page

  const PAGE_SIZE := 4096
  const FILE_HDR_SIZE := 20
  const PAGE_HDR_OFFSET := 4
  const PAGE_HDR_SIZE := 8
  const MAX_RECORD_SIZE := 512

  function SlotsPerPage(recordSize: nat): nat
    requires recordSize >= 1
  {
    (WIDTH * (PAGE_SIZE - 1 - FILE_HDR_SIZE) + 1) / (1 + recordSize * WIDTH)
  }

  function BitmapSize(slots: nat): nat {
    (slots + WIDTH - 1) / WIDTH
  }

  // Where slot i starts in its page.
  function SlotOffset(recordSize: nat, i: nat): nat
    requires recordSize >= 1
  {
    PAGE_HDR_OFFSET + PAGE_HDR_SIZE + BitmapSize(SlotsPerPage(recordSize)) + i * recordSize
  }

  lemma SlotsBound(recordSize: nat)
    requires 1 <= recordSize <= MAX_RECORD_SIZE
    ensures 1 <= SlotsPerPage(recordSize)
    ensures SlotsPerPage(recordSize) + WIDTH * (SlotsPerPage(recordSize) * recordSize)
      <= WIDTH * (PAGE_SIZE - 1 - FILE_HDR_SIZE) + 1
  {
    var n, d := SlotsPerPage(recordSize), 1 + recordSize * WIDTH;
    DivTimes(WIDTH * (PAGE_SIZE - 1 - FILE_HDR_SIZE) + 1, d);
    Distribute(n, recordSize);
  }

  lemma Distribute(n: nat, recordSize: nat)
    ensures n * (1 + recordSize * WIDTH) == n + WIDTH * (n * recordSize)
  {
  }

  lemma SlotEnd(n: nat, recordSize: nat, i: nat)
    requires i < n
    ensures i * recordSize + recordSize == (i + 1) * recordSize <= n * recordSize
  {
  }

  // The slots of a page are as many as header, bitmap and slots have room for, counting the bitmap by the bit.
  lemma SlotsMost(recordSize: nat)
    requires 1 <= recordSize <= MAX_RECORD_SIZE
    ensures var n := SlotsPerPage(recordSize);
      && WIDTH * FILE_HDR_SIZE + (n + WIDTH - 1) + WIDTH * (n * recordSize) <= WIDTH * PAGE_SIZE
      && WIDTH * FILE_HDR_SIZE + (n + 1 + WIDTH - 1) + WIDTH * ((n + 1) * recordSize) > WIDTH * PAGE_SIZE
  {
    var n, d := SlotsPerPage(recordSize), 1 + recordSize * WIDTH;
    DivTimes(WIDTH * (PAGE_SIZE - 1 - FILE_HDR_SIZE) + 1, d);
    Distribute(n, recordSize);
    Distribute(n + 1, recordSize);
  }

  // Every legal record size gives at least one slot; bitmap and slots lie apart and inside the page.
  lemma SlotsFit(recordSize: nat, i: nat)
    requires 1 <= recordSize <= MAX_RECORD_SIZE && i < SlotsPerPage(recordSize)
    ensures 1 <= SlotsPerPage(recordSize) <= WIDTH * BitmapSize(SlotsPerPage(recordSize))
    ensures PAGE_HDR_OFFSET + PAGE_HDR_SIZE + BitmapSize(SlotsPerPage(recordSize)) <= SlotOffset(recordSize, i)
    ensures SlotOffset(recordSize, i) + recordSize == SlotOffset(recordSize, i + 1) <= PAGE_SIZE
  {
    SlotsBound(recordSize);
    var n := SlotsPerPage(recordSize);
    hide SlotsPerPage;
    SlotEnd(n, recordSize, i);
    assert SlotOffset(recordSize, i) == PAGE_HDR_OFFSET + PAGE_HDR_SIZE + BitmapSize(n) + i * recordSize;
    assert SlotOffset(recordSize, i + 1) == PAGE_HDR_OFFSET + PAGE_HDR_SIZE + BitmapSize(n) + (i + 1) * recordSize;
  }
}
