/**
 Crashes in the course of recovery.  Pages may reach the disk at any stage of redo and undo, and at the end
 each header is written before the pages it counts; the next recovery starts from whatever mixture the files show.
 */
module RecoveryCuts {
  import opened RecordIds
  import opened Conditions
  import opened RecoveryLog
  import opened Recovery
  import opened CrashRuns
  import opened Sets

  // Undo of the records from n on, last first.
  ghost function UndoneTo(db: Db, log: Log, n: nat, losers: set<int>): Db
    requires n <= |log|
    decreases |log| - n
  {
    if n == |log| then db
    else
      var next := UndoneTo(db, log, n + 1, losers);
      if log[n].txn in losers then UndoRec(next, log[n]) else next
  }

  // Undo carried through to the first record is the undo of recovery.
  lemma {:induction false} UndoneWhole(db: Db, log: Log, n: nat, losers: set<int>)
    requires n <= |log|
    ensures UndoLog(UndoneTo(db, log, n, losers), log, n, losers) == UndoLog(db, log, |log|, losers)
    decreases |log| - n
  {
    if n < |log| {
      UndoneWhole(db, log, n + 1, losers);
    }
  }

  // The pages as recovery has them in memory at some point.
  ghost predicate Stage(db0: Db, log: Log, losers: set<int>, db: Db) {
    || (exists n :: 0 < n <= |log| && db == RedoLog(db0, log, n))
    || (exists n :: 0 <= n <= |log| && db == UndoneTo(RedoLog(db0, log, |log|), log, n, losers))
  }

  ghost predicate SameImage(a: Db, b: Db, tab: int, p: int) {
    tab in a && tab in b && p in a[tab].pages && p in b[tab].pages && a[tab].pages[p] == b[tab].pages[p]
  }

  ghost predicate FromStage(db0: Db, log: Log, losers: set<int>, disk: Db, tab: int, p: int) {
    exists db :: Stage(db0, log, losers, db) && Held(db, tab, p) && SameImage(disk, db, tab, p)
  }

  // A page of the file is as it was, a hole that a page further on has made, or as at some stage.
  ghost predicate PageFrom(db0: Db, log: Log, losers: set<int>, disk: Db, tab: int, p: int)
    requires tab in disk && p in disk[tab].pages && tab in db0
  {
    || SameImage(disk, db0, tab, p)
    || (p !in db0[tab].pages && disk[tab].pages[p] == EMPTY_PAGE)
    || FromStage(db0, log, losers, disk, tab, p)
  }

  // The page count after redo.
  ghost function EndCount(db0: Db, log: Log, tab: int): int {
    var db := RedoLog(db0, log, |log|);
    if tab in db then db[tab].numPages else 0
  }

  // A header is as it was, or the one written at the end, whichever pages have been written by then.
  ghost predicate CutFile(file0: TableFile, end: int, file: TableFile) {
    && Dense(file) && (file.numPages == file0.numPages || file.numPages == end)
    && forall p :: p in file0.pages ==> p in file.pages
  }

  // The disk after a crash in a recovery that started from db0.  One that cannot read its pages writes nothing.
  ghost predicate Cut(db0: Db, log: Log, losers: set<int>, disk: Db) {
    if DbOk(db0) then
      && disk.Keys == db0.Keys && (forall tab :: tab in db0 ==> CutFile(db0[tab], EndCount(db0, log, tab), disk[tab]))
      && forall tab, p :: tab in disk && p in disk[tab].pages ==> PageFrom(db0, log, losers, disk, tab, p)
    else disk == db0
  }

  // How a cut comes about.  Nothing may have been written yet; then a page in memory may go to its file at any stage,
  // and a header may get its new count.
  lemma CutStart(db0: Db, log: Log, losers: set<int>)
    requires forall tab :: tab in db0 ==> Dense(db0[tab])
    ensures Cut(db0, log, losers, db0)
  {
  }

  lemma CutPage(db0: Db, log: Log, losers: set<int>, disk: Db, db: Db, tab: int, p: int, file': TableFile)
    requires DbOk(db0) && Cut(db0, log, losers, disk) && Stage(db0, log, losers, db) && tab in disk
      && Held(db, tab, p) && PageWritten(disk[tab], p, db[tab].pages[p], file')
    ensures Cut(db0, log, losers, disk[tab := file'])
  {
    assert CutFile(db0[tab], EndCount(db0, log, tab), disk[tab]);
    DenseWritten(disk[tab], p, db[tab].pages[p], file');
    var disk' := disk[tab := file'];
    assert CutFile(db0[tab], EndCount(db0, log, tab), disk'[tab]);
    hide Stage, EndCount, DbOk, CutFile, Dense;
    forall t, q | t in disk' && q in disk'[t].pages ensures PageFrom(db0, log, losers, disk', t, q) {
      if t == tab && q == p {
        assert SameImage(disk', db, tab, p);
      } else if t == tab && q !in disk[t].pages {
        assert q !in db0[tab].pages && disk'[tab].pages[q] == EMPTY_PAGE;
      } else {
        assert PageFrom(db0, log, losers, disk, t, q);
        SameFrom(db0, log, losers, disk, disk', t, q);
      }
    }
  }

  lemma SameFrom(db0: Db, log: Log, losers: set<int>, disk: Db, disk': Db, tab: int, p: int)
    requires tab in disk && tab in disk' && tab in db0 && p in disk[tab].pages && p in disk'[tab].pages
    requires disk'[tab].pages[p] == disk[tab].pages[p] && PageFrom(db0, log, losers, disk, tab, p)
    ensures PageFrom(db0, log, losers, disk', tab, p)
  {
    if FromStage(db0, log, losers, disk, tab, p) {
      var db :| Stage(db0, log, losers, db) && Held(db, tab, p) && SameImage(disk, db, tab, p);
      assert SameImage(disk', db, tab, p);
    }
  }

  lemma CutHeader(db0: Db, log: Log, losers: set<int>, disk: Db, tab: int)
    requires DbOk(db0) && Cut(db0, log, losers, disk) && tab in disk
    ensures Cut(db0, log, losers, disk[tab := disk[tab].(numPages := EndCount(db0, log, tab))])
  {
    var disk' := disk[tab := disk[tab].(numPages := EndCount(db0, log, tab))];
    CountGrows(db0, log, |log|, tab);
    assert CutFile(db0[tab], EndCount(db0, log, tab), disk[tab]);
    assert CutFile(db0[tab], EndCount(db0, log, tab), disk'[tab]);
    hide Stage, EndCount, DbOk, CutFile;
    forall t, q | t in disk' && q in disk'[t].pages ensures PageFrom(db0, log, losers, disk', t, q) {
      assert PageFrom(db0, log, losers, disk, t, q);
      SameFrom(db0, log, losers, disk, disk', t, q);
    }
  }

  // Some header counts more pages than its file is long.
  ghost predicate CountsTooMany(disk: Db) {
    exists tab :: tab in disk && disk[tab].numPages > FileLength(disk[tab])
  }

  // The length of the file tells whether it holds the pages its header counts.
  lemma LengthTells(file: TableFile)
    requires Dense(file)
    ensures Complete(file) <==> file.numPages <= FileLength(file)
  {
    Interval(file.pages.Keys, FIRST_RECORD_PAGE);
    assert |file.pages.Keys| == |file.pages|;
    assert FileLength(file) !in file.pages.Keys;
    assert forall p :: p in file.pages <==> p in file.pages.Keys;
  }

  lemma TooManyOrOk(disk: Db)
    requires forall tab :: tab in disk ==> Dense(disk[tab])
    ensures DbOk(disk) <==> !CountsTooMany(disk)
  {
    forall tab | tab in disk ensures Complete(disk[tab]) <==> disk[tab].numPages <= FileLength(disk[tab]) {
      LengthTells(disk[tab]);
    }
  }

  // ---------------------------------------------------------------- one place at one stage

  // What redo has made of a place is again a snapshot.
  lemma RedoStage(db0: Db, db: Db, log: Log, base: map<Place, Record>, winners: set<int>, x: Place, n: nat)
    requires 0 < n <= |log| && RedoneHere(db0, db, log, x, n) && PlaceOk(db0, log, base, winners, x)
    ensures PlaceOk(db, log, base, winners, x)
  {
    var v0, l := Base(base, x), PageLsn(db0, x);
    var l', v := PageLsn(db, x), At(db0, x);
    hide PageLsn, At, Base, DbOk;
    if v == ValueAt(log, x, v0, l + 1) {
      if n > l + 1 {
        RedoExact(log, x, v0, l + 1, n);
        ValueSame(log, x, v0, l' + 1, n);
      }
    } else {
      if n > l + 1 {
        RedoNothing(log, x, l + 1, n, v);
      }
    }
  }

  // After redo, no record on the place is behind the page.
  lemma RedoComplete(db0: Db, db: Db, log: Log, base: map<Place, Record>, winners: set<int>, x: Place) returns (f: nat)
    requires |log| > 0 && RedoneHere(db0, db, log, x, |log|) && PlaceOk(db0, log, base, winners, x)
    ensures FirstLoss(log, x, winners, f) && PassedThrough(log, x, Base(base, x), f, |log|, At(db, x))
    ensures forall i :: PageLsn(db, x) < i < |log| ==> !log[i].Touches(x)
    ensures 0 <= PageLsn(db, x) < |log|
  {
    var v0, l := Base(base, x), PageLsn(db0, x);
    var v := At(db0, x);
    hide PageLsn, At, Base, DbOk;
    if v == ValueAt(log, x, v0, l + 1) {
      RedoExact(log, x, v0, l + 1, |log|);
      f := FindFirstLoss(log, x, winners);
    } else {
      RedoNothing(log, x, l + 1, |log|, v);
      f :| FirstLoss(log, x, winners, f) && PassedThrough(log, x, v0, f, |log|, v);
    }
  }

  // Every step of undo leads to a value the loser took the place through.
  lemma UndoPasses(log: Log, x: Place, v0: Val, winners: set<int>, f: nat, i: nat, v: Val)
    requires Faithful(log, x, v0) && FirstLoss(log, x, winners, f) && PassedThrough(log, x, v0, f, |log|, v)
    requires i < |log| && log[i].Touches(x) && log[i].txn !in winners
    ensures PassedThrough(log, x, v0, f, |log|, log[i].Undone(v))
  {
    assert f <= i && log[i].Before() == ValueAt(log, x, v0, i);
    assert log[i].Undone(v) == v || log[i].Undone(v) == log[i].Before();
  }

  lemma UndoKeepsLsn(db: Db, r: LogRec, x: Place)
    ensures PageLsn(UndoRec(db, r), x) == PageLsn(db, x)
  {
  }

  ghost predicate Undoing(db: Db, u: Db, log: Log, x: Place, v0: Val, f: nat) {
    && SameFiles(db, u) && PageLsn(u, x) == PageLsn(db, x)
    && (forall i :: 0 <= i < |log| ==> !UndoThrows(u, log[i]))
    && PassedThrough(log, x, v0, f, |log|, At(u, x))
  }

  lemma {:induction false} UndoStageAt(db: Db, log: Log, n: nat, losers: set<int>, winners: set<int>, x: Place,
          v0: Val, f: nat)
    requires n <= |log| && x.tab in db && Faithful(log, x, v0) && FirstLoss(log, x, winners, f)
    requires forall i :: 0 <= i < |log| && log[i].Touches(x) ==> (log[i].txn in losers <==> log[i].txn !in winners)
    requires Undoing(db, db, log, x, v0, f)
    ensures Undoing(db, UndoneTo(db, log, n, losers), log, x, v0, f)
    decreases |log| - n
  {
    if n < |log| {
      UndoStageAt(db, log, n + 1, losers, winners, x, v0, f);
      var u, r := UndoneTo(db, log, n + 1, losers), log[n];
      if r.txn in losers {
        UndoOne(db, u, log, x, v0, f, winners, n);
      }
    }
  }

  lemma UndoOne(db: Db, u: Db, log: Log, x: Place, v0: Val, f: nat, winners: set<int>, n: nat)
    requires n < |log| && x.tab in db && Faithful(log, x, v0) && FirstLoss(log, x, winners, f)
    requires log[n].Touches(x) ==> log[n].txn !in winners
    requires Undoing(db, u, log, x, v0, f)
    ensures Undoing(db, UndoRec(u, log[n]), log, x, v0, f)
  {
    var u' := UndoRec(u, log[n]);
    UndoRecOk(db, u, log[n]);
    UndoKeepsLsn(u, log[n], x);
    UndoAt(u, log[n], x);
    forall i | 0 <= i < |log| ensures !UndoThrows(u', log[i]) {
      SameThrows(u, u', db, log[i]);
    }
    hide UndoRec, At, PageLsn, Faithful, FirstLoss, PassedThrough;
    if log[n].Touches(x) {
      UndoPasses(log, x, v0, winners, f, n, At(u, x));
    }
  }

  lemma SameThrows(a: Db, b: Db, db: Db, r: LogRec)
    requires SameFiles(db, a) && SameFiles(db, b)
    ensures UndoThrows(a, r) <==> UndoThrows(b, r)
  {
  }

  // ---------------------------------------------------------------- the whole disk

  // A page that is not there at the start has no record in the base.
  lemma BaseOrHeld(db0: Db, log: Log, base: map<Place, Record>, winners: set<int>, x: Place)
    requires DbOk(db0) && FilesOk(db0, log, base, winners) && x.tab in db0 && x.rid.pageNo >= FIRST_RECORD_PAGE
    ensures Held(db0, x.tab, x.rid.pageNo) || Base(base, x) == Absent
  {
    if !Held(db0, x.tab, x.rid.pageNo) {
      var v0 := Base(base, x);
      assert KeptOk(db0, log, base, winners, x);
      assert Snapshot(log, x, v0, winners, 0, Absent);
      assert ValueAt(log, x, v0, 1) == v0;
      if v0 != Absent {
        var f: nat :| FirstLoss(log, x, winners, f) && PassedThrough(log, x, v0, f, |log|, Absent);
        var k: nat :| k <= |log| && Absent == ValueAt(log, x, v0, k);
        ValueSame(log, x, v0, 0, k);
      }
    }
  }

  lemma RedoHereAt(db0: Db, log: Log, base: map<Place, Record>, winners: set<int>, x: Place, n: nat)
    requires DbOk(db0) && FilesOk(db0, log, base, winners) && 0 < n <= |log|
      && x.tab in db0 && x.rid.pageNo >= FIRST_RECORD_PAGE
    ensures RedoneHere(db0, RedoLog(db0, log, n), log, x, n) && PlaceOk(db0, log, base, winners, x)
  {
    FilesRestorable(db0, log, base, winners);
    BaseOrHeld(db0, log, base, winners, x);
    assert PlaceOk(db0, log, base, winners, x);
    hide FilesOk, RedoneHere, RedoLog;
    RedoHere(db0, log, Base(base, x), x, n);
  }

  // Each stage shows snapshots on its pages.
  lemma StageOk(db0: Db, log: Log, base: map<Place, Record>, v: Verdict, db: Db, x: Place)
    requires Analyzed(log, |log|, v) && DbOk(db0) && FilesOk(db0, log, base, Winners(v))
      && Stage(db0, log, v.active + v.aborted, db)
    requires x.tab in db0 && x.rid.pageNo >= FIRST_RECORD_PAGE
    ensures PlaceOk(db, log, base, Winners(v), x)
  {
    if n: nat :| 0 < n <= |log| && db == RedoLog(db0, log, n) {
      RedoHereAt(db0, log, base, Winners(v), x, n);
      hide FilesOk, RedoneHere, PlaceOk, RedoLog, DbOk;
      RedoStage(db0, db, log, base, Winners(v), x, n);
    } else {
      var n: nat :| n <= |log| && db == UndoneTo(RedoLog(db0, log, |log|), log, n, v.active + v.aborted);
      hide FilesOk, PlaceOk, RedoLog, DbOk, UndoneTo, Stage;
      UndoStageOk(db0, log, base, v, n, x);
    }
  }

  lemma UndoStageOk(db0: Db, log: Log, base: map<Place, Record>, v: Verdict, n: nat, x: Place)
    requires Analyzed(log, |log|, v) && DbOk(db0) && FilesOk(db0, log, base, Winners(v)) && n <= |log|
    requires x.tab in db0 && x.rid.pageNo >= FIRST_RECORD_PAGE
    ensures PlaceOk(UndoneTo(RedoLog(db0, log, |log|), log, n, v.active + v.aborted), log, base, Winners(v), x)
  {
    var full, losers := RedoLog(db0, log, |log|), v.active + v.aborted;
    var db, v0 := UndoneTo(full, log, n, losers), Base(base, x);
    FilesRestorable(db0, log, base, Winners(v));
    RedoHereAt(db0, log, base, Winners(v), x, |log|);
    RedoAll(db0, log, base, Winners(v));
    hide FilesOk, Restorable, RedoLog, UndoneTo, RedoneTo, RedoThrows, Analyzed;
    var f := RedoComplete(db0, full, log, base, Winners(v), x);
    LosersOf(log, v, x);
    assert Faithful(log, x, v0) && x.tab in full && SameFiles(full, full);
    hide RedoneHere, At, PageLsn, UndoThrows, SameFiles, Winners, DbOk;
    UndoStageAt(full, log, n, losers, Winners(v), x, v0, f);
    hide FirstLoss, PassedThrough, Faithful, LoserLast;
    assert Snapshot(log, x, v0, Winners(v), PageLsn(db, x), At(db, x));
  }

  lemma LosersOf(log: Log, v: Verdict, x: Place)
    requires Analyzed(log, |log|, v)
    ensures forall i :: 0 <= i < |log| && log[i].Touches(x) ==>
      (log[i].txn in v.active + v.aborted <==> log[i].txn !in Winners(v))
  {
    forall i | 0 <= i < |log| && log[i].Touches(x)
      ensures log[i].txn in v.active + v.aborted <==> log[i].txn !in Winners(v)
    {
      TouchesData(log[i], x);
      WinOrLose(log, v, i);
    }
  }

  lemma ImageSame(a: Db, b: Db, x: Place)
    requires SameImage(a, b, x.tab, x.rid.pageNo)
    ensures FileAt(a, x) == FileAt(b, x) && FileLsn(a, x) == FileLsn(b, x)
    ensures Held(b, x.tab, x.rid.pageNo) ==> FileAt(a, x) == At(b, x) && FileLsn(a, x) == PageLsn(b, x)
  {
  }

  lemma CutPlace(db0: Db, log: Log, base: map<Place, Record>, v: Verdict, disk: Db, x: Place)
    requires Analyzed(log, |log|, v) && DbOk(db0) && FilesOk(db0, log, base, Winners(v))
    requires x.tab in db0 && x.tab in disk && CutFile(db0[x.tab], EndCount(db0, log, x.tab), disk[x.tab])
    requires x.rid.pageNo in disk[x.tab].pages ==>
      PageFrom(db0, log, v.active + v.aborted, disk, x.tab, x.rid.pageNo)
    ensures ValueOk(log, base, Winners(v), x, FileLsn(disk, x), FileAt(disk, x))
  {
    var tab, p, losers := x.tab, x.rid.pageNo, v.active + v.aborted;
    assert KeptOk(db0, log, base, Winners(v), x);
    hide FilesOk, ValueOk, Winners, Analyzed, DbOk, EndCount, Stage;
    if p !in disk[tab].pages || (p !in db0[tab].pages && disk[tab].pages[p] == EMPTY_PAGE) {
      assert FileAt(disk, x) == FileAt(db0, x) && FileLsn(disk, x) == FileLsn(db0, x);
    } else if SameImage(disk, db0, tab, p) {
      ImageSame(disk, db0, x);
    } else {
      assert p >= FIRST_RECORD_PAGE;
      var db :| Stage(db0, log, losers, db) && Held(db, tab, p) && SameImage(disk, db, tab, p);
      StageOk(db0, log, base, v, db, x);
      hide SameImage, Held, FileAt, FileLsn, At, PageLsn;
      ImageSame(disk, db, x);
    }
  }

  lemma {:induction false} CountGrows(db0: Db, log: Log, n: nat, tab: int)
    requires n <= |log| && tab in db0
    ensures tab in RedoLog(db0, log, n) && db0[tab].numPages <= RedoLog(db0, log, n)[tab].numPages
  {
    if n > 0 {
      CountGrows(db0, log, n - 1, tab);
      var db, r := RedoLog(db0, log, n - 1), log[n - 1];
      if r.Data() && r.place.tab in db {
        ExtendedIs(db[r.place.tab], r);
      }
      hide Extended;
    }
  }

  /**
   Files that recovery can deal with are still such files after a crash in the course of recovery, whichever
   pages have been written at whichever stage of redo and undo, and whichever headers at the end.
   */
  lemma CutRecoverable(db0: Db, log: Log, base: map<Place, Record>, v: Verdict, disk: Db)
    requires Analyzed(log, |log|, v) && FilesOk(db0, log, base, Winners(v))
      && Cut(db0, log, v.active + v.aborted, disk)
    ensures FilesOk(disk, log, base, Winners(v))
  {
    if DbOk(db0) {
      forall x: Place | x.tab in disk ensures KeptOk(disk, log, base, Winners(v), x) {
        CutKept(db0, log, base, v, disk, x);
      }
      assert forall tab :: tab in disk ==> CutFile(db0[tab], EndCount(db0, log, tab), disk[tab]);
      hide KeptOk, Winners, EndCount, PageFrom;
    }
  }

  lemma CutKept(db0: Db, log: Log, base: map<Place, Record>, v: Verdict, disk: Db, x: Place)
    requires Analyzed(log, |log|, v) && DbOk(db0) && FilesOk(db0, log, base, Winners(v))
      && Cut(db0, log, v.active + v.aborted, disk) && x.tab in disk
    ensures KeptOk(disk, log, base, Winners(v), x)
  {
    assert CutFile(db0[x.tab], EndCount(db0, log, x.tab), disk[x.tab]);
    CutPlace(db0, log, base, v, disk, x);
    CountGrows(db0, log, |log|, x.tab);
    assert KeptOk(db0, log, base, Winners(v), x);
    hide FilesOk, ValueOk, Winners, Analyzed, DbOk, PageFrom;
  }

  // Any number of crashes in a row, each in the recovery after the one before.
  ghost predicate CutsInRow(disks: seq<Db>, log: Log, losers: set<int>) {
    forall i :: 0 <= i < |disks| - 1 ==> Cut(disks[i], log, losers, disks[i + 1])
  }

  lemma {:induction false} CutsRecoverable(disks: seq<Db>, log: Log, base: map<Place, Record>, v: Verdict, i: nat)
    requires i < |disks| && CutsInRow(disks, log, v.active + v.aborted)
    requires Analyzed(log, |log|, v) && FilesOk(disks[0], log, base, Winners(v))
    requires forall tab :: tab in disks[0] ==> Dense(disks[0][tab])
    ensures FilesOk(disks[i], log, base, Winners(v)) && forall tab :: tab in disks[i] ==> Dense(disks[i][tab])
  {
    hide FilesOk, Analyzed, Winners;
    if i > 0 {
      CutsRecoverable(disks, log, base, v, i - 1);
      CutRecoverable(disks[i - 1], log, base, v, disks[i]);
      assert Cut(disks[i - 1], log, v.active + v.aborted, disks[i]);
    }
  }

  /**
   A run cut at any point, also in an orderly shutdown, then any number of recoveries each cut at any point: the
   next recovery goes through if and only if no header counts more pages than its file is long, and then leaves
   what the transactions with a commit record on disk would have left.
   */
  method CrashesAndRecover(ghost w: World, ghost s0: Sys, ghost events: seq<Event>, ghost disks: seq<Db>, disk: Db,
          log: Log)
    returns (thrown: bool, db: Db, ghost winners: set<int>)
    requires Start(w, s0) && Runs(w, s0, events) && Torn(After(s0, events), |log|)
      && log == After(s0, events).log[..|log|]
    requires |disks| > 0 && FilesOf(w, After(s0, events), disks[0]) && disk == disks[|disks| - 1]
    requires forall v :: Analyzed(log, |log|, v) ==> CutsInRow(disks, log, v.active + v.aborted)
    ensures thrown <==> CountsTooMany(disk)
    ensures !thrown ==> forall x: Place :: x.tab in disk ==>
      At(db, x) == WonAt(log, x, Base(w.base, x), |log|, winners)
    ensures forall t :: t in winners <==> HasCommit(log, t)
    ensures forall t :: t in After(s0, events).txns && After(s0, events).txns[t] == Committed ==> t in winners
  {
    ghost var s := After(s0, events);
    StartInv(w, s0);
    RunInv(w, s0, events);
    InvFacts(w, s0, s);
    assert forall tab :: tab in disks[0] ==> Dense(disks[0][tab]);
    hide Inv, Runs, Start, WorldOk, LogOk, Cut, FilesOk, FilesOf, Restorable, After, Winners, WonAt, At, HasCommit,
      Dense, DbOk, CountsTooMany;
    forall v | Analyzed(log, |log|, v)
      ensures Restorable(disk, log, w.base, Winners(v)) && forall tab :: tab in disk ==> Dense(disk[tab])
    {
      CrashRecoverable(w, s, |log|, v, disks[0]);
      CutsRecoverable(disks, log, w.base, v, |disks| - 1);
      FilesRestorable(disk, log, w.base, Winners(v));
    }
    ghost var v;
    thrown, db, v := Recover(log, disk, w.base);
    TooManyOrOk(disk);
    winners := Winners(v);
    forall t ensures t in winners <==> HasCommit(log, t) {
      WinnersCommitted(w, s, |log|, v, t);
    }
    forall t | t in s.txns && s.txns[t] == Committed ensures t in winners {
      CommitSurvives(w, s, |log|, t);
    }
  }
}
