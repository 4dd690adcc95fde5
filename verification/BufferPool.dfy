/** The buffer pool: a cache of pages that agrees with the disk, and keeps the log ahead of it. */
module BufferPool {
  import opened LruReplacer
  import opened LogManager
  import opened RecordIds

  // The sequence number of the last logged change, and the rest of the page.
  datatype PageData = PageData(lsn: int, body: seq<int>)

  datatype Frame = Frame(id: PageId, data: PageData, dirty: bool, pins: int)

  const NO_PAGE := -1
  const NO_ID := PageId(-1, NO_PAGE)
  const ZERO := PageData(0, [])

  // The disk as a total map: what was never written reads as zeros.
  function OnDisk(disk: map<PageId, PageData>, id: PageId): PageData {
    if id in disk then disk[id] else ZERO
  }

  // What a reader of the page is to see: the frame if there is one, else the disk.
  function Logical(frames: seq<Frame>, table: map<PageId, nat>, disk: map<PageId, PageData>, id: PageId): PageData {
    if id in table && table[id] < |frames| then frames[table[id]].data else OnDisk(disk, id)
  }

  // Page table and frames name each other.
  ghost predicate Mapped(frames: seq<Frame>, table: map<PageId, nat>) {
    && (forall id :: id in table ==> table[id] < |frames| && frames[table[id]].id == id && id.pageNo != NO_PAGE)
    && (forall i :: 0 <= i < |frames| && frames[i].id != NO_ID ==> frames[i].id in table && table[frames[i].id] == i)
  }

  // The free frames are those without a page; of the others the replacer holds exactly the unpinned ones.
  // A free frame may still be with the replacer.
  ghost predicate Listed(frames: seq<Frame>, free: seq<int>, list: seq<int>, but: int) {
    && (forall i, j :: 0 <= i < j < |free| ==> free[i] != free[j])
    && (forall i :: 0 <= i < |frames| ==> frames[i].pins >= 0 && (frames[i].dirty ==> frames[i].id != NO_ID))
    && (forall i :: i in free ==> 0 <= i < |frames| && i != but && frames[i].id == NO_ID && frames[i].pins == 0)
    && (forall i :: 0 <= i < |frames| && i != but && frames[i].id == NO_ID ==> i in free)
    && (forall i :: i in list ==> 0 <= i < |frames| && frames[i].pins == 0)
    && (forall i :: 0 <= i < |frames| && i != but && frames[i].id != NO_ID && frames[i].pins == 0 ==> i in list)
  }

  // A frame that is not marked dirty agrees with the disk, unless its user has changed it and not given it back yet.
  ghost predicate Synced(frames: seq<Frame>, disk: map<PageId, PageData>, touched: set<int>) {
    && (forall i :: i in touched ==> 0 <= i < |frames| && frames[i].pins > 0)
    && (forall i :: 0 <= i < |frames| && frames[i].id != NO_ID && !frames[i].dirty ==>
      frames[i].data == OnDisk(disk, frames[i].id) || i in touched)
  }

  // Sequence numbers come from the log; 0 is never that of a page change.
  ghost predicate Numbered(frames: seq<Frame>, globalLsn: int) {
    forall i :: 0 <= i < |frames| ==> frames[i].data.lsn <= 0 || frames[i].data.lsn < globalLsn
  }

  // The write-ahead rule: no page on disk is ahead of the log on disk.
  ghost predicate LogAhead(disk: map<PageId, PageData>, persistLsn: int) {
    forall id :: id in disk ==> disk[id].lsn <= 0 || disk[id].lsn <= persistLsn
  }

  // No page reads differently.
  ghost predicate SameContent(frames: seq<Frame>, table: map<PageId, nat>, disk: map<PageId, PageData>,
                              frames': seq<Frame>, table': map<PageId, nat>, disk': map<PageId, PageData>) {
    forall id :: Logical(frames', table', disk', id) == Logical(frames, table, disk, id)
  }

  // What a page reads as once the frames of the file are gone: a change not marked dirty is lost.
  ghost function Saved(frames: seq<Frame>, table: map<PageId, nat>, disk: map<PageId, PageData>, fd: int, id: PageId):
      PageData {
    if id.fd == fd && id in table && table[id] < |frames| && !frames[table[id]].dirty then OnDisk(disk, id)
    else Logical(frames, table, disk, id)
  }

  ghost predicate SameSaved(frames: seq<Frame>, table: map<PageId, nat>, disk: map<PageId, PageData>,
                            frames': seq<Frame>, table': map<PageId, nat>, disk': map<PageId, PageData>, fd: int) {
    forall id :: Saved(frames', table', disk', fd, id) == Saved(frames, table, disk, fd, id)
  }

  predicate OfFile(frame: Frame, fd: int) {
    frame.id.fd == fd && frame.id.pageNo != NO_PAGE
  }

  // The frames of the file that are not marked dirty agree with the disk.
  ghost predicate CleanOnDisk(frames: seq<Frame>, disk: map<PageId, PageData>, fd: int) {
    forall i :: 0 <= i < |frames| && OfFile(frames[i], fd) && !frames[i].dirty ==>
      frames[i].data == OnDisk(disk, frames[i].id)
  }

  // Whoever has changed a page of the file and still holds it has said so.
  ghost predicate AllMarked(frames: seq<Frame>, touched: set<int>, fd: int) {
    forall i :: 0 <= i < |frames| && i in touched && frames[i].id.fd == fd ==> frames[i].dirty
  }

  ghost predicate Pool(frames: seq<Frame>, table: map<PageId, nat>, free: seq<int>, list: seq<int>, but: int,
          disk: map<PageId, PageData>,
                       touched: set<int>, globalLsn: int, persistLsn: int) {
    Mapped(frames, table) && Listed(frames, free, list, but) && Synced(frames, disk, touched)
      && Numbered(frames, globalLsn) && LogAhead(disk, persistLsn)
  }

  // ---------------------------------------------------------------- single steps on values

  lemma WriteBackStep(frames: seq<Frame>, table: map<PageId, nat>, free: seq<int>, list: seq<int>, but: int,
          disk: map<PageId, PageData>, touched: set<int>, persist: int, i: nat)
    requires Mapped(frames, table) && Listed(frames, free, list, but) && Synced(frames, disk, touched)
      && LogAhead(disk, persist)
    requires i < |frames| && frames[i].id != NO_ID && (frames[i].data.lsn <= 0 || frames[i].data.lsn <= persist)
    ensures var frames', disk' := frames[i := frames[i].(dirty := false)], disk[frames[i].id := frames[i].data];
            && Mapped(frames', table) && Listed(frames', free, list, but) && Synced(frames', disk', touched - {i})
              && LogAhead(disk', persist)
            && SameContent(frames, table, disk, frames', table, disk')
  {
    var frames', disk' := frames[i := frames[i].(dirty := false)], disk[frames[i].id := frames[i].data];
    forall j | 0 <= j < |frames'| && frames'[j].id != NO_ID && !frames'[j].dirty
      ensures frames'[j].data == OnDisk(disk', frames'[j].id) || j in touched - {i}
    {
      if j != i {
        assert frames[j].id != frames[i].id;
      }
    }
  }

  // Frame f gets a new, empty page; its old one is clean.
  ghost function Replaced(table: map<PageId, nat>, was: PageId, id: PageId, f: nat): map<PageId, nat> {
    (table - {was})[id := f]
  }

  lemma ReplaceStep(frames: seq<Frame>, table: map<PageId, nat>, free: seq<int>, list: seq<int>,
          disk: map<PageId, PageData>, touched: set<int>, f: nat, id: PageId, data: PageData)
    requires Mapped(frames, table) && Listed(frames, free, list, f) && Synced(frames, disk, touched)
    requires f < |frames| && f !in list && !frames[f].dirty && frames[f].pins == 0 && id !in table
      && id.pageNo != NO_PAGE && data == OnDisk(disk, id)
    ensures var frames', table' := frames[f := Frame(id, data, false, 1)], Replaced(table, frames[f].id, id, f);
            && Mapped(frames', table') && Listed(frames', free, list, NO_PAGE) && Synced(frames', disk, touched)
            && SameContent(frames, table, disk, frames', table', disk)
  {
    var frames', table' := frames[f := Frame(id, data, false, 1)], Replaced(table, frames[f].id, id, f);
    forall q ensures Logical(frames', table', disk, q) == Logical(frames, table, disk, q) {
      if q in table && q != frames[f].id {
        assert table[q] != f;
      }
    }
    assert forall q :: q in table' && q != id ==> q in table && table[q] != f;
  }

  lemma PinStep(frames: seq<Frame>, table: map<PageId, nat>, free: seq<int>, list: seq<int>,
          disk: map<PageId, PageData>, touched: set<int>, f: nat)
    requires Mapped(frames, table) && Listed(frames, free, list, NO_PAGE) && Synced(frames, disk, touched)
    requires f < |frames| && frames[f].id != NO_ID
    ensures var frames' := frames[f := frames[f].(pins := frames[f].pins + 1)];
            && Mapped(frames', table) && Listed(frames', free, Without(list, f), NO_PAGE)
              && Synced(frames', disk, touched)
            && SameContent(frames, table, disk, frames', table, disk)
  {
  }

  lemma UnpinStep(frames: seq<Frame>, table: map<PageId, nat>, free: seq<int>, list: seq<int>,
          disk: map<PageId, PageData>, touched: set<int>, f: nat, dirty: bool)
    requires Mapped(frames, table) && Listed(frames, free, list, NO_PAGE) && Synced(frames, disk, touched)
    requires f < |frames| && frames[f].id != NO_ID && frames[f].pins > 0
    requires f in touched ==> dirty || frames[f].dirty || frames[f].pins > 1
    ensures var frames' := frames[f := frames[f].(pins := frames[f].pins - 1, dirty := frames[f].dirty || dirty)];
            var list' := if frames[f].pins == 1 && f !in list then [f] + list else list;
            var touched' := if frames[f].pins == 1 then touched - {f} else touched;
            && Mapped(frames', table) && Listed(frames', free, list', NO_PAGE) && Synced(frames', disk, touched')
            && SameContent(frames, table, disk, frames', table, disk)
  {
  }

  lemma DropStep(frames: seq<Frame>, table: map<PageId, nat>, free: seq<int>, list: seq<int>,
          disk: map<PageId, PageData>, touched: set<int>, f: nat)
    requires Mapped(frames, table) && Listed(frames, free, list, NO_PAGE) && Synced(frames, disk, touched)
    requires f < |frames| && frames[f].id != NO_ID && !frames[f].dirty
    ensures var frames', table' := frames[f := Frame(NO_ID, ZERO, false, 0)], table - {frames[f].id};
            && f !in free && Mapped(frames', table') && Listed(frames', free + [f], list, NO_PAGE)
              && Synced(frames', disk, touched - {f})
            && (frames[f].pins == 0 ==> SameContent(frames, table, disk, frames', table', disk))
  {
    var frames', table' := frames[f := Frame(NO_ID, ZERO, false, 0)], table - {frames[f].id};
    forall q | frames[f].pins == 0
      ensures Logical(frames', table', disk, q) == Logical(frames, table, disk, q)
    {
      if q in table && q != frames[f].id {
        assert table[q] != f;
      }
    }
    assert forall q :: q in table' ==> q in table && table[q] != f;
    assert forall i :: i in free + [f] <==> i in free || i == f;
  }

  // Dropping a frame of the file, written back if it is dirty, loses nothing that was marked.
  lemma DropSaved(frames: seq<Frame>, table: map<PageId, nat>, disk: map<PageId, PageData>, f: nat, fd: int)
    requires Mapped(frames, table) && f < |frames| && frames[f].id != NO_ID && frames[f].id.fd == fd
    ensures SameSaved(frames, table, disk, frames[f := Frame(NO_ID, ZERO, false, 0)], table - {frames[f].id},
      if frames[f].dirty then disk[frames[f].id := frames[f].data] else disk, fd)
  {
    assert forall q :: q in table && q != frames[f].id ==> table[q] != f;
  }

  // Nothing is lost if and only if the disk has what the frames not marked dirty hold.
  lemma SavedAll(frames: seq<Frame>, table: map<PageId, nat>, disk: map<PageId, PageData>, fd: int)
    requires Mapped(frames, table)
    ensures (forall q :: Saved(frames, table, disk, fd, q) == Logical(frames, table, disk, q))
      <==> CleanOnDisk(frames, disk, fd)
  {
    if forall q :: Saved(frames, table, disk, fd, q) == Logical(frames, table, disk, q) {
      forall i | 0 <= i < |frames| && OfFile(frames[i], fd) && !frames[i].dirty
        ensures frames[i].data == OnDisk(disk, frames[i].id)
      {
        var q := frames[i].id;
        assert Saved(frames, table, disk, fd, q) == Logical(frames, table, disk, q);
      }
    }
  }

  lemma MarkedOnDisk(frames: seq<Frame>, disk: map<PageId, PageData>, touched: set<int>, fd: int)
    requires Synced(frames, disk, touched) && AllMarked(frames, touched, fd)
    ensures CleanOnDisk(frames, disk, fd)
  {
  }

  lemma VictimStep(frames: seq<Frame>, free: seq<int>, list: seq<int>, f: int)
    requires Listed(frames, free, list, NO_PAGE)
    requires if free != [] then f == free[0]
      else list != [] && f == list[|list| - 1] && forall i :: 0 <= i < |list| - 1 ==> list[i] != f
    ensures 0 <= f < |frames| && frames[f].pins == 0
    ensures Listed(frames, if free != [] then free[1..] else free, if free != [] then list else list[..|list| - 1], f)
  {
    var free' := if free != [] then free[1..] else free;
    var list' := if free != [] then list else list[..|list| - 1];
    assert forall i :: i in free <==> i in free' || (free != [] && i == f);
    if free == [] {
      assert forall i :: i in list <==> i in list' || i == f;
    }
    assert f in free || f in list;
  }

  lemma WithoutListed(frames: seq<Frame>, free: seq<int>, list: seq<int>, f: int)
    requires Listed(frames, free, list, f)
    ensures Listed(frames, free, Without(list, f), f)
  {
  }

  // With no free and no evictable frame, every frame is in use.
  lemma AllPinned(frames: seq<Frame>, free: seq<int>, list: seq<int>)
    requires Listed(frames, free, list, NO_PAGE) && free == [] && list == []
    ensures forall i :: 0 <= i < |frames| ==> frames[i].pins > 0
  {
    forall i | 0 <= i < |frames| ensures frames[i].pins > 0 {
      assert i !in free && i !in list;
    }
  }

  // A page goes to the disk, and the log is flushed before if the page is ahead of it.
  lemma WriteBackPool(frames: seq<Frame>, table: map<PageId, nat>, free: seq<int>, list: seq<int>, but: int,
          disk: map<PageId, PageData>, touched: set<int>, globalLsn: int, persist: int, persist': int, i: nat)
    requires Pool(frames, table, free, list, but, disk, touched, globalLsn, persist) && i < |frames|
      && frames[i].id != NO_ID
    requires persist' >= persist && (frames[i].data.lsn <= persist' || persist' == globalLsn - 1)
    ensures Pool(frames[i := frames[i].(dirty := false)], table, free, list, but, disk[frames[i].id := frames[i].data],
      touched - {i}, globalLsn, persist')
    ensures SameContent(frames, table, disk, frames[i := frames[i].(dirty := false)], table,
      disk[frames[i].id := frames[i].data])
    ensures frames[i].data.lsn <= 0 || frames[i].data.lsn <= persist'
  {
    WriteBackStep(frames, table, free, list, but, disk, touched, persist', i);
  }

  class BufferPoolManager {
    const replacer: LRUReplacer
    const log: LogManager
    var frames: seq<Frame>
    var table: map<PageId, nat>
    var free: seq<int>
    var disk: map<PageId, PageData>
    // frames whose page the user has changed while holding it
    ghost var touched: set<int>

    ghost predicate Valid()
      reads this, replacer, log
    {
      replacer.Valid() && log.Valid() && Pool(frames, table, free, replacer.list, NO_PAGE, disk, touched, log.globalLsn,
        log.persistLsn)
    }

    constructor (poolSize: nat, log: LogManager, disk: map<PageId, PageData>)
      requires log.Valid() && LogAhead(disk, log.persistLsn)
      ensures Valid() && this.log == log && this.disk == disk && fresh(replacer) && |frames| == poolSize
      ensures SameContent([], map[], disk, frames, table, disk)
    {
      hide Pool, SameContent, LogAhead, LogOk, InOrder;
      replacer := new LRUReplacer();
      this.log, this.disk := log, disk;
      frames := seq(poolSize, _ => Frame(NO_ID, ZERO, false, 0));
      table := map[];
      free := seq(poolSize, i requires 0 <= i < poolSize => i);
      touched := {};
      new;
      EmptyPool(poolSize, disk, log.globalLsn, log.persistLsn);
    }

    // The page of a frame, pinned, or failure if every frame is in use.
    method FetchPage(id: PageId) returns (ok: bool, f: int)
      requires Valid() && id.pageNo != NO_PAGE
      modifies this, replacer, log
      ensures Valid() && SameContent(old(frames), old(table), old(disk), frames, table, disk)
      ensures touched == old(touched) && |frames| == |old(frames)|
      ensures ok ==> id in table && table[id] == f && 0 <= f < |frames|
      ensures ok ==> frames[f] == if id in old(table) then old(frames)[f].(pins := old(frames)[f].pins + 1)
        else Frame(id, OnDisk(old(disk), id), false, 1)
      ensures forall i :: 0 <= i < |frames| && !(ok && i == f) ==> frames[i] == old(frames)[i]
      ensures OnDisk(disk, id) == OnDisk(old(disk), id) && log.globalLsn == old(log.globalLsn)
      ensures ok && id in old(table) ==> table == old(table) && disk == old(disk)
      ensures !ok ==> forall i :: 0 <= i < |old(frames)| ==> old(frames)[i].pins > 0
      ensures !ok ==> frames == old(frames) && table == old(table)
    {
      hide Pool, SameContent, LogOk, InOrder;
      if id in table {
        f := table[id];
        Cached(frames, table, free, replacer.list, NO_PAGE, disk, touched, log.globalLsn, log.persistLsn, id);
        PinPool(frames, table, free, replacer.list, disk, touched, log.globalLsn, log.persistLsn, f);
        replacer.Pin(f);
        frames := frames[f := frames[f].(pins := frames[f].pins + 1)];
        return true, f;
      }
      ok, f := FindVictimPage();
      if !ok {
        SameSelf(frames, table, disk);
        return;
      }
      ghost var frames0, table0, disk0 := frames, table, disk;
      UpdatePage(f, id);
      ghost var frames1 := Cleaned(frames0, f);
      NewOnDisk(frames0, table0, disk0, frames1, disk, id);
      LogNumbers(log);
      ReplacePool(frames1, table0, free, replacer.list, disk, touched, log.globalLsn, log.persistLsn, f, id);
      SameTwice(frames0, table0, disk0, frames1, table0, disk, frames1[f := Frame(id, OnDisk(disk, id), false, 1)],
        Replaced(table0, frames1[f].id, id, f), disk);
      var page := frames[f];
      frames := frames[f := page.(data := OnDisk(disk, id))];
      replacer.Pin(f);
      frames := frames[f := frames[f].(pins := 1)];
      assert frames == frames1[f := Frame(id, OnDisk(disk, id), false, 1)];
    }

    // What a user may do to a pinned page between fetching and unpinning it.
    method ChangePage(f: nat, data: PageData)
      requires Valid() && f < |frames| && frames[f].id != NO_ID && frames[f].pins > 0
        && (data.lsn <= 0 || data.lsn < log.globalLsn)
      modifies this
      ensures Valid() && f in touched && table == old(table) && disk == old(disk)
      ensures f < |old(frames)| && frames == old(frames)[f := old(frames)[f].(data := data)]
      ensures forall id :: Logical(frames, table, disk, id) == if id == frames[f].id then data
        else old(Logical(frames, table, disk, id))
    {
      hide Pool, Logical, LogOk, InOrder;
      ChangePool(frames, table, free, replacer.list, disk, touched, log.globalLsn, log.persistLsn, f, data);
      touched := touched + {f};
      frames := frames[f := frames[f].(data := data)];
    }

    // The user gives the page back; who has changed it must say so before the last pin goes.
    method UnpinPage(id: PageId, dirty: bool) returns (ok: bool)
      requires Valid()
      requires id in table && table[id] < |frames| && table[id] in touched ==>
        dirty || frames[table[id]].dirty || frames[table[id]].pins > 1
      modifies this, replacer
      ensures Valid() && SameContent(old(frames), old(table), old(disk), frames, table, disk) && disk == old(disk)
        && table == old(table)
      ensures ok <==> id in old(table) && old(table)[id] < |old(frames)| && old(frames)[old(table)[id]].pins > 0
      ensures !ok ==> frames == old(frames) && touched == old(touched)
      ensures ok ==> old(table)[id] < |old(frames)| && var f := old(table)[id];
                     && frames == old(frames)[f := old(frames)[f].(pins := old(frames)[f].pins - 1,
                       dirty := old(frames)[f].dirty || dirty)]
                     && touched == if old(frames)[f].pins == 1 then old(touched) - {f} else old(touched)
    {
      hide Pool, SameContent, LogOk, InOrder;
      SameSelf(frames, table, disk);
      if id !in table {
        return false;
      }
      var f := table[id];
      Cached(frames, table, free, replacer.list, NO_PAGE, disk, touched, log.globalLsn, log.persistLsn, id);
      if frames[f].pins <= 0 {
        return false;
      }
      UnpinPool(frames, table, free, replacer.list, disk, touched, log.globalLsn, log.persistLsn, f, dirty);
      ghost var frames1 := frames[f := frames[f].(pins := frames[f].pins - 1, dirty := frames[f].dirty || dirty)];
      frames := frames[f := frames[f].(pins := frames[f].pins - 1)];
      if frames[f].pins == 0 {
        replacer.Unpin(f);
        touched := touched - {f};
      }
      if dirty {
        frames := frames[f := frames[f].(dirty := true)];
      }
      assert frames == frames1;
      ok := true;
    }

    method FlushPage(id: PageId) returns (ok: bool)
      requires Valid()
      modifies this, log
      ensures Valid() && SameContent(old(frames), old(table), old(disk), frames, table, disk)
      ensures ok <==> id in old(table)
      ensures ok ==> id in disk && disk[id] == Logical(frames, table, disk, id)
      ensures table == old(table)
      ensures ok ==> old(table)[id] < |old(frames)| && var f := old(table)[id];
                     && frames == old(frames)[f := old(frames)[f].(dirty := false)]
                     && disk == old(disk)[id := old(frames)[f].data] && touched == old(touched) - {f}
      ensures !ok ==> frames == old(frames) && disk == old(disk) && touched == old(touched)
    {
      hide Pool, SameContent, LogOk, InOrder;
      SameSelf(frames, table, disk);
      if id !in table {
        return false;
      }
      Cached(frames, table, free, replacer.list, NO_PAGE, disk, touched, log.globalLsn, log.persistLsn, id);
      WriteBack(table[id], NO_PAGE);
      ok := true;
    }

    // A new page of zeros in a frame; its number comes from the file.  If something else is on the disk under that
    // number, the frame counts as changed by its user.
    method NewPage(id: PageId) returns (ok: bool, f: int)
      requires Valid() && id.pageNo != NO_PAGE && id !in table
      modifies this, replacer, log
      ensures Valid()
      ensures ok ==> id in table && table[id] == f && 0 <= f < |frames| && frames[f] == Frame(id, ZERO, false, 1)
      ensures ok ==> Logical(frames, table, disk, id) == ZERO
      ensures forall q :: !ok || q != id ==> Logical(frames, table, disk, q) == old(Logical(frames, table, disk, q))
      ensures touched == old(touched) + if ok && OnDisk(old(disk), id) != ZERO then {f} else {}
      ensures !ok ==> frames == old(frames) && table == old(table)
      ensures !ok ==> forall i :: 0 <= i < |frames| ==> frames[i].pins > 0
    {
      hide Pool, LogOk, InOrder, Logical;
      ok, f := FindVictimPage();
      if !ok {
        return;
      }
      ghost var frames0, table0, disk0 := frames, table, disk;
      UpdatePage(f, id);
      ghost var frames1 := Cleaned(frames0, f);
      NewOnDisk(frames0, table0, disk0, frames1, disk, id);
      LogNumbers(log);
      NewPool(frames1, table0, free, replacer.list, disk, touched, log.globalLsn, log.persistLsn, f, id);
      replacer.Pin(f);
      frames := frames[f := frames[f].(pins := 1)];
      if OnDisk(disk, id) != ZERO {
        touched := touched + {f};
      }
      assert frames == frames1[f := Frame(id, ZERO, false, 1)];
    }

    // Drops a page from the pool, writing it back first; its frame becomes free.
    method DeletePage(id: PageId) returns (ok: bool)
      requires Valid()
      modifies this, log
      ensures Valid() && SameContent(old(frames), old(table), old(disk), frames, table, disk)
      ensures ok <==> id !in old(table) || (old(table)[id] < |old(frames)| && old(frames)[old(table)[id]].pins <= 0)
      ensures table == if ok then old(table) - {id} else old(table)
      ensures if ok && id in old(table) then old(table)[id] < |old(frames)| && var f := old(table)[id];
                     && frames == old(frames)[f := Frame(NO_ID, ZERO, false, 0)] && touched == old(touched) - {f}
              else frames == old(frames) && touched == old(touched) && disk == old(disk)
    {
      hide Pool, SameContent, LogOk, InOrder;
      SameSelf(frames, table, disk);
      if id !in table {
        assert table - {id} == table;
        return true;
      }
      var f := table[id];
      Cached(frames, table, free, replacer.list, NO_PAGE, disk, touched, log.globalLsn, log.persistLsn, id);
      if frames[f].pins > 0 {
        return false;
      }
      ok := true;
      DropFrame(f);
    }

    // Empties a frame, whoever uses it; what is marked dirty is written back.
    method DropFrame(f: nat)
      requires Valid() && f < |frames| && frames[f].id != NO_ID
      modifies this, log
      ensures Valid()
      ensures f < |old(frames)| && SameSaved(old(frames), old(table), old(disk), frames, table, disk,
        old(frames)[f].id.fd)
      ensures f < |old(frames)| && old(frames)[f].pins == 0 ==>
        SameContent(old(frames), old(table), old(disk), frames, table, disk)
      ensures f < |old(frames)| && table == old(table) - {old(frames)[f].id}
        && frames == old(frames)[f := Frame(NO_ID, ZERO, false, 0)]
      ensures free == old(free) + [f] && touched == old(touched) - {f}
    {
      hide Pool, SameContent, SameSaved, LogOk, InOrder;
      ghost var frames0, table0, disk0 := frames, table, disk;
      PoolParts(frames, table, free, replacer.list, NO_PAGE, disk, touched, log.globalLsn, log.persistLsn);
      DropSaved(frames, table, disk, f, frames[f].id.fd);
      hide Mapped, Listed, Synced;
      SameSelf(frames, table, disk);
      if frames[f].dirty {
        WriteBack(f, NO_PAGE);
      }
      assert frames == Cleaned(frames0, f);
      DropPool(frames, table, free, replacer.list, disk, touched, log.globalLsn, log.persistLsn, f);
      if frames0[f].pins == 0 {
        SameTwice(frames0, table0, disk0, frames, table, disk, frames[f := Frame(NO_ID, ZERO, false, 0)],
          table - {frames[f].id}, disk);
      }
      table := table - {frames[f].id};
      frames := frames[f := Frame(NO_ID, ZERO, false, 0)];
      free := free + [f];
      touched := touched - {f};
      assert frames == frames0[f := Frame(NO_ID, ZERO, false, 0)];
    }

    // Every dirty page of a file goes to the disk.
    method FlushAllPages(fd: int)
      requires Valid()
      modifies this, log
      ensures Valid() && SameContent(old(frames), old(table), old(disk), frames, table, disk)
      ensures table == old(table) && |frames| == |old(frames)|
      ensures forall i :: 0 <= i < |frames| ==>
        frames[i] == if OfFile(old(frames)[i], fd) then old(frames)[i].(dirty := false) else old(frames)[i]
      ensures forall i :: 0 <= i < |frames| ==>
        (i in touched <==> i in old(touched) && !(OfFile(old(frames)[i], fd) && old(frames)[i].dirty))
    {
      hide Pool, SameContent, LogOk, InOrder;
      ghost var frames0, table0, disk0, touched0 := frames, table, disk, touched;
      SameSelf(frames, table, disk);
      for i := 0 to |frames|
        invariant Valid() && SameContent(frames0, table0, disk0, frames, table, disk) && table == table0
          && |frames| == |frames0|
        invariant forall k :: 0 <= k < |frames| ==>
          frames[k] == if k < i && OfFile(frames0[k], fd) then frames0[k].(dirty := false) else frames0[k]
        invariant forall k :: 0 <= k < |frames| ==>
          (k in touched <==> k in touched0 && !(k < i && OfFile(frames0[k], fd) && frames0[k].dirty))
      {
        if frames[i].id.fd == fd && frames[i].id.pageNo != NO_PAGE {
          if frames[i].dirty {
            ghost var frames1, disk1 := frames, disk;
            WriteBack(i, NO_PAGE);
            SameTwice(frames0, table0, disk0, frames1, table, disk1, frames, table, disk);
          }
        }
      }
    }

    // Every page of a file leaves the pool, whoever uses it.  Changes not marked dirty are lost.
    method DeleteAllPages(fd: int)
      requires Valid()
      modifies this, log
      ensures Valid()
      ensures |frames| == |old(frames)| && forall i :: 0 <= i < |frames| ==>
        frames[i] == if OfFile(old(frames)[i], fd) then Frame(NO_ID, ZERO, false, 0) else old(frames)[i]
      ensures forall id :: Logical(frames, table, disk, id) == Saved(old(frames), old(table), old(disk), fd, id)
      ensures SameContent(old(frames), old(table), old(disk), frames, table, disk)
        <==> CleanOnDisk(old(frames), old(disk), fd)
      ensures old(AllMarked(frames, touched, fd)) ==> CleanOnDisk(old(frames), old(disk), fd)
    {
      hide Pool, SameContent, SameSaved, Saved, Logical, AllMarked, CleanOnDisk, LogOk, InOrder;
      ghost var frames0, table0, disk0, touched0 := frames, table, disk, touched;
      PoolSaved(frames, table, free, replacer.list, disk, touched, log.globalLsn, log.persistLsn, fd);
      for i := 0 to |frames|
        invariant Valid() && SameSaved(frames0, table0, disk0, frames, table, disk, fd) && |frames| == |frames0|
        invariant forall k :: 0 <= k < |frames| ==>
          frames[k] == if k < i && OfFile(frames0[k], fd) then Frame(NO_ID, ZERO, false, 0) else frames0[k]
      {
        if frames[i].id.fd == fd && frames[i].id.pageNo != NO_PAGE {
          ghost var frames1, table1, disk1 := frames, table, disk;
          DropFrame(i);
          SavedTwice(frames0, table0, disk0, frames1, table1, disk1, frames, table, disk, fd);
        }
      }
      PoolParts(frames, table, free, replacer.list, NO_PAGE, disk, touched, log.globalLsn, log.persistLsn);
      NoneLeft(frames0, table0, disk0, frames, table, disk, fd);
    }

    // A frame to reuse: a free one, or the one that has been evictable for the longest time.
    method FindVictimPage() returns (ok: bool, f: int)
      requires Valid()
      modifies this, replacer
      ensures replacer.Valid() && log.Valid()
      ensures frames == old(frames) && table == old(table) && disk == old(disk) && touched == old(touched)
      ensures ok ==> 0 <= f < |frames| && frames[f].pins == 0
      ensures ok ==> Pool(frames, table, free, replacer.list, f, disk, touched, log.globalLsn, log.persistLsn)
      ensures !ok ==> Valid() && forall i :: 0 <= i < |frames| ==> frames[i].pins > 0
    {
      hide Pool, LogOk, InOrder;
      ghost var free0, list0 := free, replacer.list;
      if |free| > 0 {
        f := free[0];
        VictimPool(frames, table, free0, list0, disk, touched, log.globalLsn, log.persistLsn, f);
        free := free[1..];
        return true, f;
      }
      ok, f := replacer.Victim();
      if ok {
        LastOnce(replacer.list, f, list0);
        VictimPool(frames, table, free0, list0, disk, touched, log.globalLsn, log.persistLsn, f);
      } else {
        PoolParts(frames, table, free, replacer.list, NO_PAGE, disk, touched, log.globalLsn, log.persistLsn);
        AllPinned(frames, free, replacer.list);
      }
    }

    // Writes the old page of a frame back if need be, and gives the frame to another page.
    method UpdatePage(f: nat, id: PageId)
      requires log.Valid() && Pool(frames, table, free, replacer.list, f, disk, touched, log.globalLsn, log.persistLsn)
      requires f < |frames| && frames[f].pins == 0 && id !in table && id.pageNo != NO_PAGE
      modifies this, log
      ensures log.Valid() && free == old(free) && touched == old(touched) && f < |old(frames)|
      ensures log.globalLsn == old(log.globalLsn)
      ensures Pool(Cleaned(old(frames), f), old(table), free, replacer.list, f, disk, touched, log.globalLsn,
        log.persistLsn)
      ensures SameContent(old(frames), old(table), old(disk), Cleaned(old(frames), f), old(table), disk)
      ensures frames == old(frames)[f := Frame(id, ZERO, false, 0)]
        && table == Replaced(old(table), old(frames)[f].id, id, f)
    {
      hide Pool, SameContent, LogOk;
      ghost var frames0 := frames;
      if frames[f].dirty {
        DirtyHasPage(frames, table, free, replacer.list, f, disk, touched, log.globalLsn, log.persistLsn, f);
        assert touched - {f} == touched;
        WriteBack(f, f);
      } else {
        assert Cleaned(frames, f) == frames;
        SameSelf(frames, table, disk);
      }
      assert frames == Cleaned(frames0, f);
      var page := frames[f];
      table := table - {page.id};
      table := table[id := f];
      frames := frames[f := Frame(id, ZERO, page.dirty, page.pins)];
    }

    // A page goes to the disk, after the log records it depends on.
    method WriteBack(i: nat, ghost but: int)
      requires log.Valid() && Pool(frames, table, free, replacer.list, but, disk, touched, log.globalLsn,
        log.persistLsn)
      requires i < |frames| && frames[i].id != NO_ID
      modifies this, log
      ensures log.Valid() && Pool(frames, table, free, replacer.list, but, disk, touched, log.globalLsn, log.persistLsn)
      ensures log.globalLsn == old(log.globalLsn)
      ensures i < |old(frames)| && frames == old(frames)[i := old(frames)[i].(dirty := false)]
        && disk == old(disk)[old(frames)[i].id := old(frames)[i].data]
      ensures table == old(table) && free == old(free) && touched == old(touched) - {i}
      ensures SameContent(old(frames), old(table), old(disk), frames, table, disk)
      ensures frames[i].data.lsn <= 0 || frames[i].data.lsn <= log.persistLsn
    {
      hide *;
      ghost var persist := log.persistLsn;
      LogNumbers(log);
      if frames[i].data.lsn > log.persistLsn {
        log.FlushLogToDisk();
      }
      WriteBackPool(frames, table, free, replacer.list, but, disk, touched, log.globalLsn, persist, log.persistLsn, i);
      var page := frames[i];
      disk := disk[page.id := page.data];
      frames := frames[i := page.(dirty := false)];
      touched := touched - {i};
    }
  }

  ghost function Cleaned(frames: seq<Frame>, f: nat): seq<Frame>
    requires f < |frames|
  {
    frames[f := frames[f].(dirty := false)]
  }

  lemma LastOnce(list: seq<int>, f: int, list0: seq<int>)
    requires list0 == list + [f] && f !in list
    ensures list0 != [] && f == list0[|list0| - 1] && list == list0[..|list0| - 1]
      && forall i :: 0 <= i < |list0| - 1 ==> list0[i] != f
  {
  }

  lemma ChangePool(frames: seq<Frame>, table: map<PageId, nat>, free: seq<int>, list: seq<int>,
          disk: map<PageId, PageData>, touched: set<int>, globalLsn: int, persistLsn: int, f: nat, data: PageData)
    requires Pool(frames, table, free, list, NO_PAGE, disk, touched, globalLsn, persistLsn) && f < |frames|
      && frames[f].id != NO_ID && frames[f].pins > 0
    requires data.lsn <= 0 || data.lsn < globalLsn
    ensures var frames' := frames[f := frames[f].(data := data)];
            && Pool(frames', table, free, list, NO_PAGE, disk, touched + {f}, globalLsn, persistLsn)
            && forall id :: Logical(frames', table, disk, id) == if id == frames[f].id then data
              else Logical(frames, table, disk, id)
  {
  }

  // What the disk holds under a page that is not in the pool is not changed by writing back another one.
  lemma NewOnDisk(frames: seq<Frame>, table: map<PageId, nat>, disk: map<PageId, PageData>, frames': seq<Frame>,
          disk': map<PageId, PageData>, id: PageId)
    requires SameContent(frames, table, disk, frames', table, disk') && id !in table
    ensures OnDisk(disk', id) == OnDisk(disk, id)
  {
    assert Logical(frames', table, disk', id) == Logical(frames, table, disk, id);
  }

  lemma NewPool(frames: seq<Frame>, table: map<PageId, nat>, free: seq<int>, list: seq<int>,
          disk: map<PageId, PageData>, touched: set<int>, globalLsn: int, persistLsn: int, f: nat, id: PageId)
    requires Pool(frames, table, free, list, f, disk, touched, globalLsn, persistLsn) && f < |frames|
      && !frames[f].dirty && frames[f].pins == 0
    requires id !in table && id.pageNo != NO_PAGE && persistLsn < globalLsn
    ensures var frames', table' := frames[f := Frame(id, ZERO, false, 1)], Replaced(table, frames[f].id, id, f);
      var touched' := if OnDisk(disk, id) == ZERO then touched else touched + {f};
      && Pool(frames', table', free, Without(list, f), NO_PAGE, disk, touched', globalLsn, persistLsn)
      && forall q :: Logical(frames', table', disk, q) == if q == id then ZERO else Logical(frames, table, disk, q)
  {
    ReplacePool(frames, table, free, list, disk, touched, globalLsn, persistLsn, f, id);
    var read, table' := frames[f := Frame(id, OnDisk(disk, id), false, 1)], Replaced(table, frames[f].id, id, f);
    ChangePool(read, table', free, Without(list, f), disk, touched, globalLsn, persistLsn, f, ZERO);
    assert read[f := read[f].(data := ZERO)] == frames[f := Frame(id, ZERO, false, 1)];
    assert OnDisk(disk, id) == ZERO ==> read == frames[f := Frame(id, ZERO, false, 1)];
    assert forall q :: Logical(read, table', disk, q) == Logical(frames, table, disk, q);
    hide Pool;
  }

  lemma PoolParts(frames: seq<Frame>, table: map<PageId, nat>, free: seq<int>, list: seq<int>, but: int,
          disk: map<PageId, PageData>, touched: set<int>, globalLsn: int, persistLsn: int)
    requires Pool(frames, table, free, list, but, disk, touched, globalLsn, persistLsn)
    ensures Mapped(frames, table) && Listed(frames, free, list, but) && Synced(frames, disk, touched)
  {
    hide Mapped, Listed, Synced, Numbered, LogAhead;
  }

  lemma DirtyHasPage(frames: seq<Frame>, table: map<PageId, nat>, free: seq<int>, list: seq<int>, but: int,
          disk: map<PageId, PageData>, touched: set<int>, globalLsn: int, persistLsn: int, f: nat)
    requires Pool(frames, table, free, list, but, disk, touched, globalLsn, persistLsn) && f < |frames|
      && frames[f].dirty
    ensures frames[f].id != NO_ID && (frames[f].pins == 0 ==> f !in touched)
  {
    hide Mapped, Numbered, LogAhead;
  }

  // What the table says about a page in the pool.
  lemma Cached(frames: seq<Frame>, table: map<PageId, nat>, free: seq<int>, list: seq<int>, but: int,
          disk: map<PageId, PageData>, touched: set<int>, globalLsn: int, persistLsn: int, id: PageId)
    requires Pool(frames, table, free, list, but, disk, touched, globalLsn, persistLsn) && id in table
    ensures table[id] < |frames| && frames[table[id]].id == id && id != NO_ID && frames[table[id]].pins >= 0
  {
    hide Synced, Numbered, LogAhead;
  }

  lemma PinPool(frames: seq<Frame>, table: map<PageId, nat>, free: seq<int>, list: seq<int>,
          disk: map<PageId, PageData>, touched: set<int>, globalLsn: int, persistLsn: int, f: nat)
    requires Pool(frames, table, free, list, NO_PAGE, disk, touched, globalLsn, persistLsn) && f < |frames|
      && frames[f].id != NO_ID
    ensures var frames' := frames[f := frames[f].(pins := frames[f].pins + 1)];
            && Pool(frames', table, free, Without(list, f), NO_PAGE, disk, touched, globalLsn, persistLsn)
            && SameContent(frames, table, disk, frames', table, disk)
  {
    PinStep(frames, table, free, list, disk, touched, f);
    hide Mapped, Listed, Synced, LogAhead, SameContent;
  }

  lemma UnpinPool(frames: seq<Frame>, table: map<PageId, nat>, free: seq<int>, list: seq<int>,
          disk: map<PageId, PageData>, touched: set<int>, globalLsn: int, persistLsn: int, f: nat, dirty: bool)
    requires Pool(frames, table, free, list, NO_PAGE, disk, touched, globalLsn, persistLsn) && f < |frames|
      && frames[f].id != NO_ID && frames[f].pins > 0
    requires f in touched ==> dirty || frames[f].dirty || frames[f].pins > 1
    ensures var frames' := frames[f := frames[f].(pins := frames[f].pins - 1, dirty := frames[f].dirty || dirty)];
            && Pool(frames', table, free, if frames[f].pins == 1
              && f !in list then [f] + list else list, NO_PAGE, disk,
              if frames[f].pins == 1 then touched - {f} else touched, globalLsn, persistLsn)
            && SameContent(frames, table, disk, frames', table, disk)
  {
    UnpinStep(frames, table, free, list, disk, touched, f, dirty);
    hide Mapped, Listed, Synced, LogAhead, SameContent;
  }

  // A clean frame without users takes over another page from the disk.
  lemma ReplacePool(frames: seq<Frame>, table: map<PageId, nat>, free: seq<int>, list: seq<int>,
          disk: map<PageId, PageData>, touched: set<int>, globalLsn: int, persistLsn: int, f: nat, id: PageId)
    requires Pool(frames, table, free, list, f, disk, touched, globalLsn, persistLsn) && f < |frames|
      && !frames[f].dirty && frames[f].pins == 0
    requires id !in table && id.pageNo != NO_PAGE && persistLsn < globalLsn
    ensures var frames', table' := frames[f := Frame(id, OnDisk(disk, id), false, 1)], Replaced(table, frames[f].id, id,
      f);
            && Pool(frames', table', free, Without(list, f), NO_PAGE, disk, touched, globalLsn, persistLsn)
            && SameContent(frames, table, disk, frames', table', disk)
  {
    WithoutListed(frames, free, list, f);
    ReplaceStep(frames, table, free, Without(list, f), disk, touched, f, id, OnDisk(disk, id));
    hide Mapped, Listed, Synced, SameContent;
  }

  lemma VictimPool(frames: seq<Frame>, table: map<PageId, nat>, free: seq<int>, list: seq<int>,
          disk: map<PageId, PageData>, touched: set<int>, globalLsn: int, persistLsn: int, f: int)
    requires Pool(frames, table, free, list, NO_PAGE, disk, touched, globalLsn, persistLsn)
    requires if free != [] then f == free[0]
      else list != [] && f == list[|list| - 1] && forall i :: 0 <= i < |list| - 1 ==> list[i] != f
    ensures 0 <= f < |frames| && frames[f].pins == 0
    ensures Pool(frames, table, if free != [] then free[1..] else free, if free != [] then list
      else list[..|list| - 1], f, disk, touched, globalLsn, persistLsn)
  {
    VictimStep(frames, free, list, f);
    hide Mapped, Listed, Synced, LogAhead;
  }

  lemma DropPool(frames: seq<Frame>, table: map<PageId, nat>, free: seq<int>, list: seq<int>,
          disk: map<PageId, PageData>, touched: set<int>, globalLsn: int, persistLsn: int, f: nat)
    requires Pool(frames, table, free, list, NO_PAGE, disk, touched, globalLsn, persistLsn) && f < |frames|
      && frames[f].id != NO_ID && !frames[f].dirty
    ensures var frames', table' := frames[f := Frame(NO_ID, ZERO, false, 0)], table - {frames[f].id};
            && Pool(frames', table', free + [f], list, NO_PAGE, disk, touched - {f}, globalLsn, persistLsn)
            && (frames[f].pins == 0 ==> SameContent(frames, table, disk, frames', table', disk))
  {
    DropStep(frames, table, free, list, disk, touched, f);
    hide Mapped, Listed, Synced, LogAhead, SameContent;
  }

  lemma PoolSaved(frames: seq<Frame>, table: map<PageId, nat>, free: seq<int>, list: seq<int>,
          disk: map<PageId, PageData>, touched: set<int>, globalLsn: int, persistLsn: int, fd: int)
    requires Pool(frames, table, free, list, NO_PAGE, disk, touched, globalLsn, persistLsn)
    ensures SameSaved(frames, table, disk, frames, table, disk, fd)
    ensures (forall q :: Saved(frames, table, disk, fd, q) == Logical(frames, table, disk, q))
      <==> CleanOnDisk(frames, disk, fd)
    ensures AllMarked(frames, touched, fd) ==> CleanOnDisk(frames, disk, fd)
  {
    SavedAll(frames, table, disk, fd);
    if AllMarked(frames, touched, fd) {
      MarkedOnDisk(frames, disk, touched, fd);
    }
    hide Pool, AllMarked, CleanOnDisk;
  }

  lemma SavedTwice(frames: seq<Frame>, table: map<PageId, nat>, disk: map<PageId, PageData>, frames1: seq<Frame>,
          table1: map<PageId, nat>, disk1: map<PageId, PageData>,
                   frames2: seq<Frame>, table2: map<PageId, nat>, disk2: map<PageId, PageData>, fd: int)
    requires SameSaved(frames, table, disk, frames1, table1, disk1, fd)
      && SameSaved(frames1, table1, disk1, frames2, table2, disk2, fd)
    ensures SameSaved(frames, table, disk, frames2, table2, disk2, fd)
  {
  }

  // With no page of the file left, every page reads what was saved.
  lemma NoneLeft(frames: seq<Frame>, table: map<PageId, nat>, disk: map<PageId, PageData>,
                 frames': seq<Frame>, table': map<PageId, nat>, disk': map<PageId, PageData>, fd: int)
    requires SameSaved(frames, table, disk, frames', table', disk', fd) && Mapped(frames', table')
    requires forall i :: 0 <= i < |frames'| && frames'[i].id.pageNo != NO_PAGE ==> frames'[i].id.fd != fd
    ensures forall q :: Logical(frames', table', disk', q) == Saved(frames, table, disk, fd, q)
    ensures (forall q :: Saved(frames, table, disk, fd, q) == Logical(frames, table, disk, q))
      <==> SameContent(frames, table, disk, frames', table', disk')
  {
    forall q ensures Logical(frames', table', disk', q) == Saved(frames, table, disk, fd, q) {
      assert Saved(frames', table', disk', fd, q) == Saved(frames, table, disk, fd, q);
    }
  }

  lemma SameTwice(frames: seq<Frame>, table: map<PageId, nat>, disk: map<PageId, PageData>, frames1: seq<Frame>,
          table1: map<PageId, nat>, disk1: map<PageId, PageData>,
                  frames2: seq<Frame>, table2: map<PageId, nat>, disk2: map<PageId, PageData>)
    requires SameContent(frames, table, disk, frames1, table1, disk1)
      && SameContent(frames1, table1, disk1, frames2, table2, disk2)
    ensures SameContent(frames, table, disk, frames2, table2, disk2)
  {
  }

  lemma SameSelf(frames: seq<Frame>, table: map<PageId, nat>, disk: map<PageId, PageData>)
    ensures SameContent(frames, table, disk, frames, table, disk)
  {
  }

  lemma LogNumbers(log: LogManager)
    requires log.Valid()
    ensures log.persistLsn < log.globalLsn
  {
  }

  lemma EmptyPool(poolSize: nat, disk: map<PageId, PageData>, globalLsn: int, persistLsn: int)
    requires LogAhead(disk, persistLsn)
    ensures var frames := seq(poolSize, _ => Frame(NO_ID, ZERO, false, 0));
            var free := seq(poolSize, i requires 0 <= i < poolSize => i);
            Pool(frames, map[], free, [], NO_PAGE, disk, {}, globalLsn, persistLsn)
              && SameContent([], map[], disk, frames, map[], disk)
  {
    var free: seq<int> := seq(poolSize, i requires 0 <= i < poolSize => i);
    forall i | 0 <= i < poolSize ensures i in free {
      assert free[i] == i;
    }
  }

  /**
   Closing a file under a user: the page is fetched and changed, and the file is closed before the user gives the
   page back.  The page read as changed in between; now it reads again what it read before.
   */
  method CloseUnderUser(pool: BufferPoolManager, id: PageId, data: PageData) returns (ok: bool, ghost seen: PageData)
    requires pool.Valid() && id.pageNo != NO_PAGE && id !in pool.table
    requires data.lsn <= 0 || data.lsn < pool.log.globalLsn
    modifies pool, pool.replacer, pool.log
    ensures pool.Valid() && (ok ==> seen == data)
    ensures ok || forall i :: 0 <= i < |old(pool.frames)| ==> old(pool.frames)[i].pins > 0
    ensures Logical(pool.frames, pool.table, pool.disk, id) == old(Logical(pool.frames, pool.table, pool.disk, id))
  {
    hide Pool, Logical, Saved, CleanOnDisk, AllMarked, SameContent, LogOk, InOrder;
    ReadFromDisk(pool.frames, pool.table, pool.disk, id);
    var f;
    ok, f := pool.FetchPage(id);
    if ok {
      pool.ChangePage(f, data);
      SavedClean(pool.frames, pool.table, pool.disk, id);
      seen := Logical(pool.frames, pool.table, pool.disk, id);
      pool.DeleteAllPages(id.fd);
    } else {
      seen := ZERO;
      ReadFromDisk(pool.frames, pool.table, pool.disk, id);
    }
  }

  /**
   A user changes a page, marks it and flushes it; the next user only reads it.  The change is on disk, and it is
   what the reader sees.
   */
  method ChangeThenRead(pool: BufferPoolManager, id: PageId, data: PageData) returns (ok: bool, ghost seen: PageData)
    requires pool.Valid() && id.pageNo != NO_PAGE && id !in pool.table
    requires data.lsn <= 0 || data.lsn < pool.log.globalLsn
    modifies pool, pool.replacer, pool.log
    ensures pool.Valid()
    ensures ok ==> seen == data && OnDisk(pool.disk, id) == data
    ensures ok ==> Logical(pool.frames, pool.table, pool.disk, id) == data
  {
    hide Pool, Logical, SameContent, LogOk, InOrder;
    seen := ZERO;
    var f, f', unpinned, flushed;
    ok, f := pool.FetchPage(id);
    if !ok {
      return;
    }
    pool.ChangePage(f, data);
    unpinned := pool.UnpinPage(id, true);
    flushed := pool.FlushPage(id);
    ok, f' := pool.FetchPage(id);
    seen := Logical(pool.frames, pool.table, pool.disk, id);
    InFrame(pool.frames, pool.table, pool.disk, id);
    unpinned := pool.UnpinPage(id, false);
    InFrame(pool.frames, pool.table, pool.disk, id);
  }

  lemma InFrame(frames: seq<Frame>, table: map<PageId, nat>, disk: map<PageId, PageData>, id: PageId)
    requires id in table && table[id] < |frames|
    ensures Logical(frames, table, disk, id) == frames[table[id]].data
  {
  }

  lemma ReadFromDisk(frames: seq<Frame>, table: map<PageId, nat>, disk: map<PageId, PageData>, id: PageId)
    requires id !in table
    ensures Logical(frames, table, disk, id) == OnDisk(disk, id)
  {
  }

  lemma SavedClean(frames: seq<Frame>, table: map<PageId, nat>, disk: map<PageId, PageData>, id: PageId)
    requires id in table && table[id] < |frames| && !frames[table[id]].dirty
    ensures Saved(frames, table, disk, id.fd, id) == OnDisk(disk, id)
    ensures Logical(frames, table, disk, id) == frames[table[id]].data
  {
  }
}
