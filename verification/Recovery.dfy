/** Crash recovery: analysis of the log, redo gated by page sequence numbers, reverse undo. */
module Recovery {
  import opened RecordIds
  import opened Conditions
  import opened RecoveryLog
  import opened Sets

  // A record page with the sequence number of its last logged change.
  datatype Image = Image(lsn: int, slots: map<int, Record>)

  // The page count of the header, and the pages that can be read.  A file may hold pages behind the count, and
  // may be too short for it.
  datatype TableFile = TableFile(numPages: int, pages: map<int, Image>)

  // The table files that can be opened, by table.
  type Db = map<int, TableFile>

  const EMPTY_PAGE := Image(0, map[])

  ghost predicate Shaped(file: TableFile) {
    file.numPages >= FIRST_RECORD_PAGE && forall p :: p in file.pages ==> p >= FIRST_RECORD_PAGE
  }

  // Every page that the header counts can be read.
  ghost predicate Complete(file: TableFile) {
    forall p :: FIRST_RECORD_PAGE <= p < file.numPages ==> p in file.pages
  }

  ghost predicate DbOk(db: Db) {
    forall tab :: tab in db ==> Shaped(db[tab]) && Complete(db[tab])
  }

  // The header counts a page that cannot be read.
  ghost predicate Missing(db: Db, tab: int, p: int) {
    tab in db && FIRST_RECORD_PAGE <= p < db[tab].numPages && p !in db[tab].pages
  }

  // Pages follow each other without a gap, as in any file: the length is one page more than the record pages.
  ghost predicate Dense(file: TableFile) {
    Shaped(file) && forall p, q :: q in file.pages && FIRST_RECORD_PAGE <= p < q ==> p in file.pages
  }

  function FileLength(file: TableFile): nat {
    FIRST_RECORD_PAGE + |file.pages|
  }

  // A page has been written to a file; if the file was shorter, zeros fill the gap.
  ghost predicate PageWritten(file: TableFile, p: int, image: Image, file': TableFile) {
    && p >= FIRST_RECORD_PAGE && file'.numPages == file.numPages
    && (forall q :: q in file'.pages <==> q in file.pages || FIRST_RECORD_PAGE <= q <= p)
    && (p in file'.pages ==> file'.pages[p] == image)
    && (forall q :: q in file'.pages && q != p ==>
          file'.pages[q] == if q in file.pages then file.pages[q] else EMPTY_PAGE)
  }

  lemma DenseWritten(file: TableFile, p: int, image: Image, file': TableFile)
    requires Dense(file) && PageWritten(file, p, image, file')
    ensures Dense(file') && p in file'.pages
  {
  }

  // A page that is counted and can be read.
  predicate Held(db: Db, tab: int, p: int) {
    tab in db && p < db[tab].numPages && p in db[tab].pages
  }

  function At(db: Db, x: Place): Val {
    if Held(db, x.tab, x.rid.pageNo) && x.rid.slotNo in db[x.tab].pages[x.rid.pageNo].slots
    then Present(db[x.tab].pages[x.rid.pageNo].slots[x.rid.slotNo]) else Absent
  }

  // Any other page counts as a fresh one.
  function PageLsn(db: Db, x: Place): int {
    if Held(db, x.tab, x.rid.pageNo) then db[x.tab].pages[x.rid.pageNo].lsn else 0
  }

  predicate SamePage(x: Place, y: Place) {
    x.tab == y.tab && x.rid.pageNo == y.rid.pageNo
  }

  // ---------------------------------------------------------------- analysis

  // Transactions that ended, for good or bad, and those that the log leaves open.
  datatype Verdict = Verdict(active: set<int>, committed: set<int>, aborted: set<int>)

  ghost predicate EndedAfter(log: Log, i: int, n: nat, t: int)
    requires -1 <= i && n <= |log|
  {
    exists j :: i < j < n && log[j].Ends(t)
  }

  // Open: begun with no end behind that, or seen changing data without any end.
  ghost predicate Open(log: Log, n: nat, t: int)
    requires n <= |log|
  {
    || (exists i :: 0 <= i < n && log[i] == Begin(t) && !EndedAfter(log, i, n, t))
    || (exists i :: 0 <= i < n && log[i].Data() && log[i].txn == t && !EndedAfter(log, -1, n, t))
  }

  ghost predicate Analyzed(log: Log, n: nat, v: Verdict)
    requires n <= |log|
  {
    && (forall t :: t in v.committed <==> exists i :: 0 <= i < n && log[i] == Commit(t))
    && (forall t :: t in v.aborted <==> exists i :: 0 <= i < n && log[i] == Abort(t))
    && (forall t :: t in v.active <==> Open(log, n, t))
  }

  lemma EndedIff(log: Log, n: nat, t: int, v: Verdict)
    requires n <= |log| && Analyzed(log, n, v)
    ensures EndedAfter(log, -1, n, t) <==> t in v.committed || t in v.aborted
  {
    if EndedAfter(log, -1, n, t) {
      var j :| -1 < j < n && log[j].Ends(t);
      assert log[j] == Commit(t) || log[j] == Abort(t);
    }
    if t in v.committed {
      var j :| 0 <= j < n && log[j] == Commit(t);
      assert log[j].Ends(t);
    }
    if t in v.aborted {
      var j :| 0 <= j < n && log[j] == Abort(t);
      assert log[j].Ends(t);
    }
  }

  // What one more record does to the set of open transactions.
  lemma OpenNext(log: Log, n: nat, t: int)
    requires n < |log|
    ensures log[n].Ends(t) ==> !Open(log, n + 1, t)
    ensures log[n] == Begin(t) ==> Open(log, n + 1, t)
    ensures log[n].txn != t || log[n].Begin? || log[n].Data() ==>
      (Open(log, n + 1, t) <==>
        Open(log, n, t) || log[n] == Begin(t) || (log[n].Data() && log[n].txn == t && !EndedAfter(log, -1, n, t)))
  {
    forall i | -1 <= i < n ensures EndedAfter(log, i, n + 1, t) <==> EndedAfter(log, i, n, t) || log[n].Ends(t) {
      if EndedAfter(log, i, n + 1, t) && !log[n].Ends(t) {
        var j :| i < j < n + 1 && log[j].Ends(t);
        assert j < n;
      }
    }
    if log[n] == Begin(t) {
      assert !EndedAfter(log, n, n + 1, t);
    }
  }

  lemma AnalyzeStep(log: Log, n: nat, v: Verdict)
    requires n < |log| && Analyzed(log, n, v)
    ensures var t := log[n].txn;
            Analyzed(log, n + 1, match log[n]
              case Begin(_) => v.(active := v.active + {t})
              case Commit(_) => v.(active := v.active - {t}, committed := v.committed + {t})
              case Abort(_) => v.(active := v.active - {t}, aborted := v.aborted + {t})
              case _ => if t in v.committed || t in v.aborted then v else v.(active := v.active + {t}))
  {
    var r := log[n];
    var v' := match r
      case Begin(t) => v.(active := v.active + {t})
      case Commit(t) => v.(active := v.active - {t}, committed := v.committed + {t})
      case Abort(t) => v.(active := v.active - {t}, aborted := v.aborted + {t})
      case _ => if r.txn in v.committed || r.txn in v.aborted then v else v.(active := v.active + {r.txn});
    forall t ensures t in v'.active <==> Open(log, n + 1, t) {
      OpenNext(log, n, t);
      EndedIff(log, n, t, v);
    }
    forall t ensures t in v'.committed <==> exists i :: 0 <= i < n + 1 && log[i] == Commit(t) {
      if t in v.committed {
        var i :| 0 <= i < n && log[i] == Commit(t);
      }
    }
    forall t ensures t in v'.aborted <==> exists i :: 0 <= i < n + 1 && log[i] == Abort(t) {
      if t in v.aborted {
        var i :| 0 <= i < n && log[i] == Abort(t);
      }
    }
  }

  // ---------------------------------------------------------------- redo and undo of one record

  function Pages(file: TableFile, upto: int): TableFile
    requires file.numPages <= upto
    decreases upto - file.numPages
  {
    if file.numPages == upto then file
    else Pages(TableFile(file.numPages + 1, file.pages[file.numPages := EMPTY_PAGE]), upto)
  }

  function Extended(file: TableFile, r: LogRec): TableFile
    requires r.Data()
  {
    if r.Insert? && r.place.rid.pageNo >= file.numPages then Pages(file, r.place.rid.pageNo + 1) else file
  }

  // Redo of record number lsn; an insertion first extends the file by empty pages.  A deletion behind the count
  // marks the page and does nothing else.
  function RedoRec(db: Db, r: LogRec, lsn: int): Db {
    if !r.Data() || r.place.tab !in db then db else
      var tab, p, s := r.place.tab, r.place.rid.pageNo, r.place.rid.slotNo;
      var file := Extended(db[tab], r);
      if p !in file.pages || file.pages[p].lsn >= lsn then db[tab := file] else
        var slots := file.pages[p].slots;
        var slots' := match r
          case Insert(_, _, rec) => if s in slots then slots else slots[s := rec]
          case Delete(_, _, _) => if p < file.numPages then slots - {s} else slots
          case _ => if p < file.numPages && s in slots then slots[s := r.after] else slots;
        db[tab := file.(pages := file.pages[p := Image(lsn, slots')])]
  }

  // The source throws, and recovery ends, where the page cannot be read, and where an update finds no record.
  predicate RedoThrows(db: Db, r: LogRec, lsn: int) {
    r.Data() && r.place.tab in db &&
      var file, p := Extended(db[r.place.tab], r), r.place.rid.pageNo;
      p !in file.pages || (r.Update? && file.pages[p].lsn < lsn
        && (p >= file.numPages || r.place.rid.slotNo !in file.pages[p].slots))
  }

  function UndoRec(db: Db, r: LogRec): Db {
    if !r.Data() || !Held(db, r.place.tab, r.place.rid.pageNo) then db else
      var tab, p, s := r.place.tab, r.place.rid.pageNo, r.place.rid.slotNo;
      var page := db[tab].pages[p];
      var slots' := match r
        case Insert(_, _, _) => page.slots - {s}
        case Delete(_, _, rec) => if s in page.slots then page.slots else page.slots[s := rec]
        case _ => if s in page.slots then page.slots[s := r.before] else page.slots;
      db[tab := db[tab].(pages := db[tab].pages[p := page.(slots := slots')])]
  }

  // A page that is not counted or cannot be read cannot be asked for its records: the source throws.
  predicate UndoThrows(db: Db, r: LogRec) {
    r.Data() && r.place.tab in db && !Held(db, r.place.tab, r.place.rid.pageNo)
  }

  // ---------------------------------------------------------------- the recovery manager

  class RecoveryManager {
    const log: Log
    var db: Db
    var active: set<int>
    var committed: set<int>
    var aborted: set<int>

    constructor (log: Log, db: Db)
      ensures this.log == log && this.db == db && active == {} && committed == {} && aborted == {}
    {
      this.log, this.db := log, db;
      active, committed, aborted := {}, {}, {};
    }

    method Analyze()
      requires active == {} && committed == {} && aborted == {}
      modifies this
      ensures Analyzed(log, |log|, Verdict(active, committed, aborted)) && db == old(db)
    {
      for n := 0 to |log|
        invariant Analyzed(log, n, Verdict(active, committed, aborted)) && db == old(db)
      {
        AnalyzeStep(log, n, Verdict(active, committed, aborted));
        hide Analyzed;
        var t := log[n].txn;
        match log[n]
        case Begin(_) =>
          active := active + {t};
        case Commit(_) =>
          active := active - {t};
          committed := committed + {t};
        case Abort(_) =>
          active := active - {t};
          aborted := aborted + {t};
        case _ =>
          if t !in committed && t !in aborted {
            active := active + {t};
          }
      }
    }

    // One data record redone on its page.
    method RedoOne(r: LogRec, lsn: int) returns (thrown: bool)
      requires r.Data() && r.place.tab in db
      modifies this
      ensures active == old(active) && committed == old(committed) && aborted == old(aborted)
      ensures thrown <==> RedoThrows(old(db), r, lsn)
      ensures !thrown ==> db == RedoRec(old(db), r, lsn)
    {
      var tab, p, s := r.place.tab, r.place.rid.pageNo, r.place.rid.slotNo;
      thrown := false;
      if r.Insert? {
        Extend(tab, p);
      }
      ghost var file := db[tab];
      assert file == Extended(old(db)[tab], r);
      assert db == old(db)[tab := file];
      if p !in db[tab].pages {
        return true;
      }
      if db[tab].pages[p].lsn < lsn {
        var slots := db[tab].pages[p].slots;
        if r.Insert? {
          if s !in slots {
            slots := slots[s := r.rec];
          }
        } else if r.Delete? {
          if p < db[tab].numPages {
            slots := slots - {s};
          }
        } else {
          if p >= db[tab].numPages || s !in slots {
            return true;
          }
          slots := slots[s := r.after];
        }
        db := db[tab := db[tab].(pages := db[tab].pages[p := Image(lsn, slots)])];
      }
    }

    // Empty pages up to and including page p.
    method Extend(tab: int, p: int)
      requires tab in db
      modifies this
      ensures active == old(active) && committed == old(committed) && aborted == old(aborted)
      ensures tab in old(db) && db == old(db)[tab := if p >= old(db)[tab].numPages then Pages(old(db)[tab], p + 1)
        else old(db)[tab]]
    {
      ghost var file0 := db[tab];
      while p >= db[tab].numPages
        invariant active == old(active) && committed == old(committed) && aborted == old(aborted)
        invariant tab in db && db == old(db)[tab := db[tab]]
        invariant if p >= file0.numPages then db[tab].numPages <= p + 1
          && Pages(file0, p + 1) == Pages(db[tab], p + 1) else db[tab] == file0
        decreases p + 1 - db[tab].numPages
      {
        db := db[tab := TableFile(db[tab].numPages + 1, db[tab].pages[db[tab].numPages := EMPTY_PAGE])];
      }
    }

    // All data records in log order.
    method Redo() returns (thrown: bool)
      modifies this
      ensures active == old(active) && committed == old(committed) && aborted == old(aborted)
      ensures !thrown ==> db == RedoLog(old(db), log, |log|)
      ensures thrown <==> exists i :: 0 <= i < |log| && RedoThrows(RedoLog(old(db), log, i), log[i], i)
    {
      hide RedoRec, RedoThrows;
      for i := 0 to |log|
        invariant active == old(active) && committed == old(committed) && aborted == old(aborted)
        invariant db == RedoLog(old(db), log, i)
        invariant forall k :: 0 <= k < i ==> !RedoThrows(RedoLog(old(db), log, k), log[k], k)
      {
        RedoOthers(db, log[i], i);
        if log[i].Data() && log[i].place.tab in db {
          thrown := RedoOne(log[i], i);
          if thrown {
            return;
          }
        }
      }
      thrown := false;
    }

    // The data records of open and aborted transactions in reverse order.
    method Undo() returns (thrown: bool)
      modifies this
      ensures active == old(active) && committed == old(committed) && aborted == old(aborted)
      ensures !thrown ==> db == UndoLog(old(db), log, |log|, active + aborted)
      ensures thrown ==> exists i :: 0 <= i < |log| && UndoThrows(old(db), log[i])
    {
      ghost var losers := active + aborted;
      ghost var db0 := db;
      var i := |log|;
      while i > 0
        invariant 0 <= i <= |log|
        invariant active == old(active) && committed == old(committed) && aborted == old(aborted)
        invariant UndoLog(db0, log, |log|, losers) == UndoLog(db, log, i, losers)
        invariant SameFiles(db0, db)
      {
        i := i - 1;
        var r := log[i];
        UndoRecOk(db0, db, r);
        if (r.txn in active || r.txn in aborted) && r.Data() && r.place.tab in db {
          if !Held(db, r.place.tab, r.place.rid.pageNo) {
            assert UndoThrows(db0, r);
            return true;
          }
          UndoOne(r);
        }
      }
      thrown := false;
    }

    // Counting the records anew reads every page that the headers count.
    method ReadPages() returns (thrown: bool)
      ensures thrown <==> exists tab, p :: Missing(db, tab, p)
    {
      var rest := db.Keys;
      while rest != {}
        invariant rest <= db.Keys
        invariant forall tab, p :: tab !in rest ==> !Missing(db, tab, p)
        decreases |rest|
      {
        ghost var some := Member(rest);
        var tab :| tab in rest;
        var p := FIRST_RECORD_PAGE;
        while p < db[tab].numPages
          invariant forall q :: q < p ==> !Missing(db, tab, q)
        {
          if p !in db[tab].pages {
            assert Missing(db, tab, p);
            return true;
          }
          p := p + 1;
        }
        rest := rest - {tab};
      }
      thrown := false;
    }

    method UndoOne(r: LogRec)
      requires r.Data() && Held(db, r.place.tab, r.place.rid.pageNo)
      modifies this
      ensures active == old(active) && committed == old(committed) && aborted == old(aborted)
      ensures db == UndoRec(old(db), r)
    {
      var tab, p, s := r.place.tab, r.place.rid.pageNo, r.place.rid.slotNo;
      var page := db[tab].pages[p];
      var slots := page.slots;
      if r.Insert? {
        slots := slots - {s};
      } else if r.Delete? {
        if s !in slots {
          slots := slots[s := r.rec];
        }
      } else if s in slots {
        slots := slots[s := r.before];
      }
      db := db[tab := db[tab].(pages := db[tab].pages[p := page.(slots := slots)])];
    }
  }

  ghost function RedoLog(db: Db, log: Log, n: nat): Db
    requires n <= |log|
  {
    if n == 0 then db else RedoRec(RedoLog(db, log, n - 1), log[n - 1], n - 1)
  }

  ghost function UndoLog(db: Db, log: Log, n: nat, losers: set<int>): Db
    requires n <= |log|
    decreases n
  {
    if n == 0 then db else UndoLog(if log[n - 1].txn in losers then UndoRec(db, log[n - 1]) else db, log, n - 1, losers)
  }

  // The file gets empty pages up to the new count, whatever it held there; the others stay.
  lemma {:induction false} PagesAre(file: TableFile, upto: int)
    requires file.numPages <= upto
    ensures Pages(file, upto).numPages == upto
    ensures forall p :: p in Pages(file, upto).pages <==> p in file.pages || file.numPages <= p < upto
    ensures forall p :: p in Pages(file, upto).pages ==>
      Pages(file, upto).pages[p] == if file.numPages <= p < upto then EMPTY_PAGE else file.pages[p]
    decreases upto - file.numPages
  {
    if file.numPages < upto {
      PagesAre(TableFile(file.numPages + 1, file.pages[file.numPages := EMPTY_PAGE]), upto);
    }
  }

  lemma ExtendedIs(file: TableFile, r: LogRec)
    requires r.Data()
    ensures var file', n := Extended(file, r), file.numPages;
      && file'.numPages == (if r.Insert? && r.place.rid.pageNo >= n then r.place.rid.pageNo + 1 else n)
      && (forall p :: p in file'.pages <==> p in file.pages || n <= p < file'.numPages)
      && (forall p :: p in file'.pages ==>
            file'.pages[p] == if n <= p < file'.numPages then EMPTY_PAGE else file.pages[p])
  {
    if r.Insert? && r.place.rid.pageNo >= file.numPages {
      PagesAre(file, r.place.rid.pageNo + 1);
    }
  }

  lemma RedoOthers(db: Db, r: LogRec, lsn: int)
    ensures !r.Data() || r.place.tab !in db ==> RedoRec(db, r, lsn) == db && !RedoThrows(db, r, lsn)
  {
  }

  lemma RedoRecOk(db: Db, r: LogRec, lsn: int)
    requires DbOk(db)
    ensures DbOk(RedoRec(db, r, lsn))
  {
    if r.Data() && r.place.tab in db {
      ExtendedIs(db[r.place.tab], r);
    }
    hide Extended;
  }

  // The two databases have the same files with the same pages.
  ghost predicate SameFiles(a: Db, b: Db) {
    a.Keys == b.Keys && forall tab :: tab in a ==>
      a[tab].numPages == b[tab].numPages && a[tab].pages.Keys == b[tab].pages.Keys
  }

  lemma UndoRecOk(db0: Db, db: Db, r: LogRec)
    requires SameFiles(db0, db)
    ensures SameFiles(db0, UndoRec(db, r))
    ensures !r.Data() || r.place.tab !in db ==> UndoRec(db, r) == db
  {
  }

  // ---------------------------------------------------------------- the database, place by place

  predicate Reaches(db: Db, r: LogRec) {
    r.Data() && r.place.tab in db
      && (Held(db, r.place.tab, r.place.rid.pageNo) || (r.Insert? && r.place.rid.pageNo >= db[r.place.tab].numPages))
  }

  lemma RedoAt(db: Db, r: LogRec, lsn: int, x: Place)
    requires lsn > 0
    ensures At(RedoRec(db, r, lsn), x) == if r.Touches(x) && Reaches(db, r)
      && PageLsn(db, x) < lsn then r.Redone(At(db, x)) else At(db, x)
    ensures PageLsn(RedoRec(db, r, lsn), x) == if Reaches(db, r) && SamePage(r.place, x)
      && PageLsn(db, x) < lsn then lsn else PageLsn(db, x)
    ensures RedoRec(db, r, lsn).Keys == db.Keys
  {
    if r.Data() && r.place.tab in db {
      ExtendedIs(db[r.place.tab], r);
    }
    hide Extended;
  }

  lemma UndoAt(db: Db, r: LogRec, x: Place)
    requires !UndoThrows(db, r)
    ensures At(UndoRec(db, r), x) == if r.Touches(x) && x.tab in db then r.Undone(At(db, x)) else At(db, x)
  {
  }

  function Base(base: map<Place, Record>, x: Place): Val {
    if x in base then Present(base[x]) else Absent
  }

  // What the log must be like, and what the disk may look like when recovery starts.
  ghost predicate Recoverable(db: Db, log: Log, base: map<Place, Record>, winners: set<int>) {
    DbOk(db) && Restorable(db, log, base, winners)
  }

  // The same, whether or not the files hold all the pages that their headers count.
  ghost predicate Restorable(db: Db, log: Log, base: map<Place, Record>, winners: set<int>) {
    && |log| > 0 && !log[0].Data() && (forall tab :: tab in db ==> Shaped(db[tab]))
    && (forall i :: 0 <= i < |log| && log[i].Data() ==>
      log[i].place.tab in db && log[i].place.rid.pageNo >= FIRST_RECORD_PAGE)
    && (forall x: Place :: x.tab in db ==> PlaceOk(db, log, base, winners, x))
  }

  ghost predicate PlaceOk(db: Db, log: Log, base: map<Place, Record>, winners: set<int>, x: Place) {
    ValueOk(log, base, winners, x, PageLsn(db, x), At(db, x))
  }

  // Recovery can deal with value v on a page with that sequence number.
  ghost predicate ValueOk(log: Log, base: map<Place, Record>, winners: set<int>, x: Place, lsn: int, v: Val) {
    && Faithful(log, x, Base(base, x)) && LoserLast(log, x, winners) && lsn >= 0
    && Snapshot(log, x, Base(base, x), winners, lsn, v)
  }

  // What a file holds, whether its header counts the page or not; a page behind its end counts as a fresh one.
  function FileLsn(db: Db, x: Place): int {
    if x.tab in db && x.rid.pageNo in db[x.tab].pages then db[x.tab].pages[x.rid.pageNo].lsn else 0
  }

  function FileAt(db: Db, x: Place): Val {
    if x.tab in db && x.rid.pageNo in db[x.tab].pages && x.rid.slotNo in db[x.tab].pages[x.rid.pageNo].slots
    then Present(db[x.tab].pages[x.rid.pageNo].slots[x.rid.slotNo]) else Absent
  }

  // All pages are as recovery can deal with them, those behind the count too: a later header may count them.
  // They may also be taken as fresh.
  ghost predicate KeptOk(db: Db, log: Log, base: map<Place, Record>, winners: set<int>, x: Place)
    requires x.tab in db
  {
    && ValueOk(log, base, winners, x, FileLsn(db, x), FileAt(db, x))
    && (x.rid.pageNo >= db[x.tab].numPages ==> ValueOk(log, base, winners, x, 0, Absent))
  }

  ghost predicate FilesOk(db: Db, log: Log, base: map<Place, Record>, winners: set<int>) {
    && |log| > 0 && !log[0].Data() && (forall tab :: tab in db ==> Shaped(db[tab]))
    && (forall i :: 0 <= i < |log| && log[i].Data() ==>
      log[i].place.tab in db && log[i].place.rid.pageNo >= FIRST_RECORD_PAGE)
    && (forall x: Place :: x.tab in db ==> KeptOk(db, log, base, winners, x))
  }

  lemma FilesRestorable(db: Db, log: Log, base: map<Place, Record>, winners: set<int>)
    requires FilesOk(db, log, base, winners)
    ensures Restorable(db, log, base, winners)
  {
    forall x: Place | x.tab in db ensures PlaceOk(db, log, base, winners, x) {
      assert KeptOk(db, log, base, winners, x);
      hide ValueOk;
    }
    hide PlaceOk;
  }

  // How far redo has come on the page of x, and with x itself.
  ghost predicate RedoneTo(db0: Db, db: Db, log: Log, x: Place, i: nat)
    requires i <= |log|
  {
    var l := PageLsn(db0, x);
    && l >= 0 && (PageLsn(db, x) == l || l < PageLsn(db, x) < i)
    && At(db, x) == if i <= l + 1 then At(db0, x) else RedoneFrom(log, x, l + 1, i, At(db0, x))
  }

  lemma {:induction false} RedoneExtend(log: Log, x: Place, from: nat, n: nat, v: Val)
    requires from <= n < |log|
    ensures RedoneFrom(log, x, from, n + 1, v) == if log[n].Touches(x)
      then log[n].Redone(RedoneFrom(log, x, from, n, v)) else RedoneFrom(log, x, from, n, v)
    decreases n - from
  {
    if from < n {
      RedoneExtend(log, x, from + 1, n, if log[from].Touches(x) then log[from].Redone(v) else v);
    }
  }

  // The next record meets the value it was logged with, or is already on the page.
  lemma RecordMeets(db0: Db, db: Db, log: Log, base: map<Place, Record>, winners: set<int>, i: nat)
    requires i < |log| && log[i].Data() && log[i].place.tab in db0 && PlaceOk(db0, log, base, winners, log[i].place)
    requires RedoneTo(db0, db, log, log[i].place, i)
    ensures PageLsn(db0, log[i].place) < i ==> At(db, log[i].place) == log[i].Before() && PageLsn(db, log[i].place) < i
    ensures PageLsn(db0, log[i].place) >= i ==> PageLsn(db, log[i].place) >= i
  {
    var x, l := log[i].place, PageLsn(db0, log[i].place);
    if l < i {
      assert log[i].Touches(x);
      assert At(db0, x) == ValueAt(log, x, Base(base, x), l + 1);
      RedoExact(log, x, Base(base, x), l + 1, i);
    }
  }

  lemma RedoStep(db0: Db, db: Db, log: Log, base: map<Place, Record>, winners: set<int>, i: nat, x: Place)
    requires Recoverable(db0, log, base, winners) && i < |log| && DbOk(db) && db.Keys == db0.Keys
    requires forall y: Place :: y.tab in db0 ==> RedoneTo(db0, db, log, y, i)
    requires x.tab in db0
    ensures RedoneTo(db0, RedoRec(db, log[i], i), log, x, i + 1) && !RedoThrows(db, log[i], i)
  {
    var r := log[i];
    assert PlaceOk(db0, log, base, winners, x) && RedoneTo(db0, db, log, x, i);
    var l := PageLsn(db0, x);
    if l + 1 <= i {
      RedoneExtend(log, x, l + 1, i, At(db0, x));
    }
    if r.Data() {
      assert PlaceOk(db0, log, base, winners, r.place) && RedoneTo(db0, db, log, r.place, i);
      RecordMeets(db0, db, log, base, winners, i);
      assert i > 0;
      RedoAt(db, r, i, x);
      ReachesMet(db, r);
      RedoGoes(db, r, i);
    }
    hide Recoverable, PlaceOk, DbOk, RedoRec, At, Reaches, Snapshot, Faithful, LoserLast, RedoThrows;
    assert RedoneFrom(log, x, i, i, At(db0, x)) == At(db0, x);
    if r.Data() && SamePage(r.place, x) {
      assert PageLsn(db0, r.place) == l && PageLsn(db, r.place) == PageLsn(db, x);
    }
  }

  lemma RedoGoes(db: Db, r: LogRec, lsn: int)
    requires Reaches(db, r) && (r.Update? && PageLsn(db, r.place) < lsn ==> At(db, r.place).Present?)
    ensures !RedoThrows(db, r, lsn)
  {
    ExtendedIs(db[r.place.tab], r);
    hide Extended;
  }

  lemma ReachesMet(db: Db, r: LogRec)
    requires r.Data() && r.place.tab in db && DbOk(db) && r.place.rid.pageNo >= FIRST_RECORD_PAGE
    ensures At(db, r.place) == r.Before() ==> Reaches(db, r)
    ensures PageLsn(db, r.place) > 0 ==> Held(db, r.place.tab, r.place.rid.pageNo)
  {
  }

  lemma {:induction false} RedoPlaces(db0: Db, log: Log, base: map<Place, Record>, winners: set<int>, n: nat)
    requires Recoverable(db0, log, base, winners) && n <= |log|
    ensures DbOk(RedoLog(db0, log, n)) && RedoLog(db0, log, n).Keys == db0.Keys
    ensures forall x: Place :: x.tab in db0 ==> RedoneTo(db0, RedoLog(db0, log, n), log, x, n)
  {
    if n == 0 {
      forall x: Place | x.tab in db0 ensures RedoneTo(db0, db0, log, x, 0) {
        assert PlaceOk(db0, log, base, winners, x);
      }
    } else {
      RedoPlaces(db0, log, base, winners, n - 1);
      var db := RedoLog(db0, log, n - 1);
      RedoRecOk(db, log[n - 1], n - 1);
      RedoKeeps(db, log[n - 1], n - 1);
      hide RedoRec, PlaceOk, At, DbOk, RedoneFrom, RedoneTo, Recoverable, RedoThrows;
      forall x: Place | x.tab in db0 ensures RedoneTo(db0, RedoRec(db, log[n - 1], n - 1), log, x, n) {
        RedoStep(db0, db, log, base, winners, n - 1, x);
      }
    }
  }

  // No record makes redo throw, and afterwards its page exists.
  lemma RedoRuns(db0: Db, log: Log, base: map<Place, Record>, winners: set<int>, i: nat)
    requires Recoverable(db0, log, base, winners) && i < |log|
    ensures !RedoThrows(RedoLog(db0, log, i), log[i], i) && !UndoThrows(RedoLog(db0, log, i + 1), log[i])
  {
    RedoPlaces(db0, log, base, winners, i);
    var db := RedoLog(db0, log, i);
    if log[i].Data() {
      RedoStep(db0, db, log, base, winners, i, log[i].place);
      PageThere(db0, db, log, base, winners, i);
    }
  }

  lemma {:induction false} RedoKeepsOn(db0: Db, log: Log, base: map<Place, Record>, winners: set<int>, m: nat, n: nat,
          r: LogRec)
    requires Recoverable(db0, log, base, winners) && m <= n <= |log|
    ensures UndoThrows(RedoLog(db0, log, n), r) ==> UndoThrows(RedoLog(db0, log, m), r)
    decreases n
  {
    if m < n {
      RedoKeepsOn(db0, log, base, winners, m, n - 1, r);
      RedoPlaces(db0, log, base, winners, n - 1);
      RedoKeeps(RedoLog(db0, log, n - 1), log[n - 1], n - 1);
      UndoThrowsLess(RedoLog(db0, log, n - 1), RedoLog(db0, log, n), r);
    }
  }

  lemma RedoAll(db0: Db, log: Log, base: map<Place, Record>, winners: set<int>)
    requires Recoverable(db0, log, base, winners)
    ensures RedoLog(db0, log, |log|).Keys == db0.Keys
    ensures forall x: Place :: x.tab in db0 ==> RedoneTo(db0, RedoLog(db0, log, |log|), log, x, |log|)
    ensures forall i :: 0 <= i < |log| ==> !RedoThrows(RedoLog(db0, log, i), log[i], i)
    ensures forall i :: 0 <= i < |log| ==> !UndoThrows(RedoLog(db0, log, |log|), log[i])
  {
    hide *;
    RedoPlaces(db0, log, base, winners, |log|);
    forall i | 0 <= i < |log| ensures !RedoThrows(RedoLog(db0, log, i), log[i], i) {
      RedoRuns(db0, log, base, winners, i);
    }
    forall i | 0 <= i < |log| ensures !UndoThrows(RedoLog(db0, log, |log|), log[i]) {
      RedoRuns(db0, log, base, winners, i);
      RedoKeepsOn(db0, log, base, winners, i + 1, |log|, log[i]);
    }
  }

  // Redo drops no table and no page.
  ghost predicate NoLess(a: Db, b: Db) {
    a.Keys == b.Keys && forall tab, p :: Held(a, tab, p) ==> Held(b, tab, p)
  }

  lemma RedoKeeps(db: Db, r: LogRec, lsn: int)
    requires DbOk(db)
    ensures NoLess(db, RedoRec(db, r, lsn))
  {
    if r.Data() && r.place.tab in db {
      ExtendedIs(db[r.place.tab], r);
    }
    hide Extended;
  }

  lemma UndoThrowsLess(a: Db, b: Db, r: LogRec)
    requires NoLess(a, b)
    ensures UndoThrows(b, r) ==> UndoThrows(a, r)
  {
  }

  // After its redo, the page of a record exists.
  lemma PageThere(db0: Db, db: Db, log: Log, base: map<Place, Record>, winners: set<int>, i: nat)
    requires Recoverable(db0, log, base, winners) && i < |log| && log[i].Data() && DbOk(db) && db.Keys == db0.Keys
    requires RedoneTo(db0, db, log, log[i].place, i)
    ensures !UndoThrows(RedoRec(db, log[i], i), log[i])
  {
    var r := log[i];
    assert PlaceOk(db0, log, base, winners, r.place);
    RecordMeets(db0, db, log, base, winners, i);
    ReachesMet(db, r);
    assert i > 0 && Reaches(db, r);
    ExtendedIs(db[r.place.tab], r);
    hide Extended;
  }

  lemma {:induction false} UndoAll(db: Db, log: Log, n: nat, losers: set<int>, x: Place)
    requires n <= |log| && x.tab in db && forall i :: 0 <= i < n ==> !UndoThrows(db, log[i])
    ensures At(UndoLog(db, log, n, losers), x) == UndoneFrom(log, x, n, losers, At(db, x))
    decreases n
  {
    if n > 0 {
      var r := log[n - 1];
      var db' := if r.txn in losers then UndoRec(db, r) else db;
      UndoAt(db, r, x);
      UndoRecOk(db, db, r);
      assert SameFiles(db, db');
      forall i | 0 <= i < n - 1 ensures !UndoThrows(db', log[i]) {
        assert !UndoThrows(db, log[i]);
      }
      hide At, UndoRec, UndoThrows, LogRec.Undone;
      UndoAll(db', log, n - 1, losers, x);
    }
  }

  // After n records a place shows what redo makes of it from the sequence number of its page on, and the
  // sequence number has reached the last of them that touches it.
  ghost predicate RedoneHere(db0: Db, db: Db, log: Log, x: Place, n: nat)
    requires n <= |log|
  {
    && DbOk(db) && x.tab in db && RedoneTo(db0, db, log, x, n)
    && (forall j :: 0 <= j < n && log[j].Touches(x) ==> Held(db, x.tab, x.rid.pageNo) && j <= PageLsn(db, x))
  }

  lemma RedoneHereNext(db0: Db, db: Db, log: Log, v0: Val, x: Place, n: nat)
    requires 0 < n < |log| && RedoneHere(db0, db, log, x, n) && x.rid.pageNo >= FIRST_RECORD_PAGE
    requires Held(db, x.tab, x.rid.pageNo) || (v0 == Absent && Faithful(log, x, v0))
    ensures RedoneHere(db0, RedoRec(db, log[n], n), log, x, n + 1)
  {
    var r, l := log[n], PageLsn(db0, x);
    RedoRecOk(db, r, n);
    RedoKeeps(db, r, n);
    RedoAt(db, r, n, x);
    if r.Touches(x) {
      FirstTouch(db, log, v0, x, n);
    }
    hide RedoRec, At, DbOk, LogRec.Redone;
    if l + 1 <= n {
      RedoneExtend(log, x, l + 1, n, At(db0, x));
    }
  }

  // The first record on a place whose page is not there is an insertion, which brings the page.
  lemma FirstTouch(db: Db, log: Log, v0: Val, x: Place, n: nat)
    requires 0 < n < |log| && log[n].Touches(x) && DbOk(db) && x.tab in db && x.rid.pageNo >= FIRST_RECORD_PAGE
    requires Held(db, x.tab, x.rid.pageNo) || (v0 == Absent && Faithful(log, x, v0))
    requires forall j :: 0 <= j < n && log[j].Touches(x) ==> Held(db, x.tab, x.rid.pageNo)
    ensures Reaches(db, log[n]) && Held(RedoRec(db, log[n], n), x.tab, x.rid.pageNo)
  {
    if !Held(db, x.tab, x.rid.pageNo) {
      ValueSame(log, x, v0, 0, n);
      assert log[n].Before() == Absent;
    }
    ExtendedIs(db[x.tab], log[n]);
    hide Extended;
  }

  lemma {:induction false} RedoHere(db0: Db, log: Log, v0: Val, x: Place, n: nat)
    requires DbOk(db0) && 0 < n <= |log| && !log[0].Data() && x.tab in db0 && PageLsn(db0, x) >= 0
    requires x.rid.pageNo >= FIRST_RECORD_PAGE
    requires Held(db0, x.tab, x.rid.pageNo) || (v0 == Absent && Faithful(log, x, v0))
    ensures RedoneHere(db0, RedoLog(db0, log, n), log, x, n)
    ensures Held(db0, x.tab, x.rid.pageNo) ==> Held(RedoLog(db0, log, n), x.tab, x.rid.pageNo)
  {
    if n == 1 {
      RedoOthers(db0, log[0], 0);
      assert RedoLog(db0, log, 0) == db0;
    } else {
      RedoHere(db0, log, v0, x, n - 1);
      RedoneHereNext(db0, RedoLog(db0, log, n - 1), log, v0, x, n - 1);
      RedoKeeps(RedoLog(db0, log, n - 1), log[n - 1], n - 1);
    }
  }

  // The transactions that recovery lets stand.
  ghost function Winners(v: Verdict): set<int> {
    v.committed - v.active - v.aborted
  }

  // A transaction that changed data is a winner or is undone.
  lemma WinOrLose(log: Log, v: Verdict, i: nat)
    requires Analyzed(log, |log|, v) && i < |log| && log[i].Data()
    ensures log[i].txn in v.active + v.aborted <==> log[i].txn !in Winners(v)
  {
    var t := log[i].txn;
    EndedIff(log, |log|, t, v);
    if t !in v.active {
      assert EndedAfter(log, -1, |log|, t);
    }
  }

  // Redo then undo: every place ends with what the winners alone would have left there.
  lemma RecoveredPlace(db0: Db, log: Log, base: map<Place, Record>, v: Verdict, x: Place)
    requires Analyzed(log, |log|, v) && Recoverable(db0, log, base, Winners(v)) && x.tab in db0
    ensures forall i :: 0 <= i < |log| ==> !UndoThrows(RedoLog(db0, log, |log|), log[i])
    ensures At(UndoLog(RedoLog(db0, log, |log|), log, |log|, v.active + v.aborted), x) == WonAt(log, x, Base(base, x),
      |log|, Winners(v))
  {
    hide *;
    var db := RedoLog(db0, log, |log|);
    RedoAll(db0, log, base, Winners(v));
    AtRest(db0, db, log, base, Winners(v), x);
    UndoAll(db, log, |log|, v.active + v.aborted, x);
    forall i | 0 <= i < |log| && log[i].Touches(x)
      ensures log[i].txn in v.active + v.aborted <==> log[i].txn !in Winners(v)
    {
      TouchesData(log[i], x);
      WinOrLose(log, v, i);
    }
    PlaceRecovered(log, x, Base(base, x), Winners(v), v.active + v.aborted, PageLsn(db0, x), At(db0, x));
  }

  lemma TouchesData(r: LogRec, x: Place)
    requires r.Touches(x)
    ensures r.Data()
  {
  }

  // What is known of a place when redo is done.
  lemma AtRest(db0: Db, db: Db, log: Log, base: map<Place, Record>, winners: set<int>, x: Place)
    requires Recoverable(db0, log, base, winners) && x.tab in db0 && RedoneTo(db0, db, log, x, |log|)
    ensures 0 <= PageLsn(db0, x) < |log|
    ensures At(db, x) == RedoneFrom(log, x, PageLsn(db0, x) + 1, |log|, At(db0, x))
    ensures Faithful(log, x, Base(base, x)) && LoserLast(log, x, winners)
      && Snapshot(log, x, Base(base, x), winners, PageLsn(db0, x), At(db0, x))
  {
    assert PlaceOk(db0, log, base, winners, x);
    hide At, PageLsn, Faithful, LoserLast;
    assert RedoneFrom(log, x, |log|, |log|, At(db0, x)) == At(db0, x);
  }

  // What redo and undo leave.
  ghost function EndOf(disk: Db, log: Log, v: Verdict): Db {
    UndoLog(RedoLog(disk, log, |log|), log, |log|, v.active + v.aborted)
  }

  // A page that is missing stays so: nothing but reading it would bring it.
  lemma MissingRec(db: Db, r: LogRec, lsn: int, tab: int, p: int)
    requires Missing(db, tab, p)
    ensures Missing(RedoRec(db, r, lsn), tab, p) && Missing(UndoRec(db, r), tab, p)
  {
    if r.Data() && r.place.tab in db {
      ExtendedIs(db[r.place.tab], r);
    }
    hide Extended;
  }

  lemma {:induction false} MissingRedone(db: Db, log: Log, n: nat, tab: int, p: int)
    requires Missing(db, tab, p) && n <= |log|
    ensures Missing(RedoLog(db, log, n), tab, p)
  {
    hide Missing, RedoRec;
    if n > 0 {
      MissingRedone(db, log, n - 1, tab, p);
      MissingRec(RedoLog(db, log, n - 1), log[n - 1], n - 1, tab, p);
    }
  }

  lemma {:induction false} MissingUndone(db: Db, log: Log, n: nat, losers: set<int>, tab: int, p: int)
    requires Missing(db, tab, p) && n <= |log|
    ensures Missing(UndoLog(db, log, n, losers), tab, p)
    decreases n
  {
    hide Missing, UndoRec;
    if n > 0 {
      MissingRec(db, log[n - 1], 0, tab, p);
      MissingUndone(if log[n - 1].txn in losers then UndoRec(db, log[n - 1]) else db, log, n - 1, losers, tab, p);
    }
  }

  lemma {:induction false} UndoFiles(db: Db, log: Log, n: nat, losers: set<int>)
    requires n <= |log|
    ensures SameFiles(db, UndoLog(db, log, n, losers))
    decreases n
  {
    hide UndoRec;
    if n > 0 {
      var db' := if log[n - 1].txn in losers then UndoRec(db, log[n - 1]) else db;
      UndoRecOk(db, db, log[n - 1]);
      UndoFiles(db', log, n - 1, losers);
    }
  }

  lemma ShortIsMissing(db: Db)
    requires forall tab :: tab in db ==> Shaped(db[tab])
    ensures DbOk(db) <==> !exists tab, p :: Missing(db, tab, p)
  {
    if !DbOk(db) {
      var tab :| tab in db && !Complete(db[tab]);
      var p :| FIRST_RECORD_PAGE <= p < db[tab].numPages && p !in db[tab].pages;
      assert Missing(db, tab, p);
    }
  }

  // Start-up can read all the pages it has to if and only if the files hold all that their headers count.
  lemma ReadsAll(db: Db, log: Log, base: map<Place, Record>, winners: set<int>, losers: set<int>)
    requires Restorable(db, log, base, winners)
    ensures var end := UndoLog(RedoLog(db, log, |log|), log, |log|, losers);
      DbOk(db) <==> !exists tab, p :: Missing(end, tab, p)
  {
    var redone := RedoLog(db, log, |log|);
    if DbOk(db) {
      RedoPlaces(db, log, base, winners, |log|);
      UndoFiles(redone, log, |log|, losers);
      hide RedoLog, UndoLog, Restorable;
      assert !exists tab, p :: Missing(UndoLog(redone, log, |log|, losers), tab, p);
    } else {
      ShortIsMissing(db);
      var tab, p :| Missing(db, tab, p);
      hide RedoLog, UndoLog, Restorable;
      MissingRedone(db, log, |log|, tab, p);
      MissingUndone(redone, log, |log|, losers, tab, p);
    }
  }

  /**
   Start-up after a crash.  It goes through if and only if every file holds the pages that its header counts,
   and then leaves in every place what the winners alone would have left.
   */
  method Recover(log: Log, disk: Db, ghost base: map<Place, Record>) returns (thrown: bool, db: Db, ghost v: Verdict)
    requires forall v :: Analyzed(log, |log|, v) ==> Restorable(disk, log, base, Winners(v))
    ensures Analyzed(log, |log|, v) && (thrown <==> !DbOk(disk)) && (!thrown ==> db == EndOf(disk, log, v))
    ensures !thrown ==> forall x: Place :: x.tab in disk ==>
      At(db, x) == WonAt(log, x, Base(base, x), |log|, Winners(v))
  {
    var manager := new RecoveryManager(log, disk);
    manager.Analyze();
    v := Verdict(manager.active, manager.committed, manager.aborted);
    ReadsAll(disk, log, base, Winners(v), v.active + v.aborted);
    if DbOk(disk) {
      Recovered(disk, log, base, v);
    }
    hide RedoLog, UndoLog, At, WonAt, Restorable, Analyzed, UndoThrows, RedoThrows, DbOk, Missing;
    thrown := manager.Redo();
    if !thrown {
      thrown := manager.Undo();
    }
    if !thrown {
      thrown := manager.ReadPages();
    }
    db := manager.db;
  }

  lemma Recovered(disk: Db, log: Log, base: map<Place, Record>, v: Verdict)
    requires Analyzed(log, |log|, v) && Recoverable(disk, log, base, Winners(v))
    ensures var redone := RedoLog(disk, log, |log|);
      && (forall i :: 0 <= i < |log| ==> !RedoThrows(RedoLog(disk, log, i), log[i], i))
      && (forall i :: 0 <= i < |log| ==> !UndoThrows(redone, log[i]))
      && (forall x: Place :: x.tab in disk ==>
            At(UndoLog(redone, log, |log|, v.active + v.aborted), x) == WonAt(log, x, Base(base, x), |log|, Winners(v)))
  {
    hide *;
    RedoAll(disk, log, base, Winners(v));
    forall x: Place | x.tab in disk
      ensures At(UndoLog(RedoLog(disk, log, |log|), log, |log|, v.active + v.aborted), x)
        == WonAt(log, x, Base(base, x), |log|, Winners(v))
    {
      RecoveredPlace(disk, log, base, v, x);
    }
  }
}
