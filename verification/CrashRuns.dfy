/**
 Runs of the engine up to a crash: transactions under table locks, a buffer pool that may write back
 any page whose log is on disk, commits and aborts that flush the log.  Whatever the run and wherever
 it is cut, recovery finds a disk it can bring back to the committed transactions.
 */
module CrashRuns {
  import opened RecordIds
  import opened Conditions
  import opened RecoveryLog
  import opened Recovery

  // An aborting transaction has rolled its log records back down to a position.
  datatype TxnState = Running | Committed | Rolling(pos: nat)

  // flushed: records of the log on disk; owner: table locks held; spoilt: places an abort has rolled back.
  datatype Sys = Sys(
    log: Log, flushed: nat,
    mem: map<PageId, Image>, disk: map<PageId, Image>,
    txns: map<int, TxnState>, owner: map<int, int>, spoilt: set<Place>)

  // What does not change before the crash: the tables with the page counts in their headers on disk,
  // and the records they start with.
  datatype World = World(headers: map<int, int>, base: map<Place, Record>)

  datatype Event =
    | EvBegin(t: int)
    | EvWrite(r: LogRec)
    | EvCommit(t: int)
    | EvAbort(t: int)
    | EvRollback(t: int)
    | EvRelease(t: int)
    | EvFlush
    | EvWriteBack(id: PageId)

  function PageIn(pages: map<PageId, Image>, id: PageId): Image {
    if id in pages then pages[id] else EMPTY_PAGE
  }

  function IdOf(x: Place): PageId {
    PageId(x.tab, x.rid.pageNo)
  }

  function ValueIn(pages: map<PageId, Image>, x: Place): Val {
    var slots := PageIn(pages, IdOf(x)).slots;
    if x.rid.slotNo in slots then Present(slots[x.rid.slotNo]) else Absent
  }

  function WithValue(image: Image, s: int, v: Val): Image {
    image.(slots := if v.Present? then image.slots[s := v.rec] else image.slots - {s})
  }

  function Freed(owner: map<int, int>, t: int): map<int, int> {
    map tab | tab in owner && owner[tab] != t :: owner[tab]
  }

  ghost function PlacesOf(log: Log, t: int): set<Place> {
    set i | 0 <= i < |log| && log[i].Data() && log[i].txn == t :: log[i].place
  }

  // ---------------------------------------------------------------- events

  ghost predicate Enabled(w: World, s: Sys, e: Event) {
    match e
    case EvBegin(t) => t !in s.txns
    case EvWrite(r) =>
      && r.Data() && r.txn in s.txns && s.txns[r.txn] == Running
      && r.place.tab in w.headers && r.place.rid.pageNo >= FIRST_RECORD_PAGE
      && (r.place.tab in s.owner ==> s.owner[r.place.tab] == r.txn)
      && r.place !in s.spoilt
      && r.Before() == ValueIn(s.mem, r.place)
    case EvCommit(t) => t in s.txns && s.txns[t] == Running
    case EvAbort(t) => t in s.txns && s.txns[t] == Running
    case EvRollback(t) => t in s.txns && s.txns[t].Rolling? && 0 < s.txns[t].pos <= |s.log|
    case EvRelease(t) => t in s.txns && s.txns[t] == Rolling(0)
    case EvFlush => true
    case EvWriteBack(id) => PageIn(s.mem, id).lsn == 0 || PageIn(s.mem, id).lsn < s.flushed
  }

  ghost function Apply(s: Sys, e: Event): Sys
  {
    match e
    case EvBegin(t) => s.(log := s.log + [Begin(t)], txns := s.txns[t := Running])
    case EvWrite(r) =>
      if !r.Data() then s else
      s.(log := s.log + [r], owner := s.owner[r.place.tab := r.txn],
         mem := s.mem[IdOf(r.place) := WithValue(PageIn(s.mem, IdOf(r.place)), r.place.rid.slotNo,
           r.After()).(lsn := |s.log|)])
    case EvCommit(t) => s.(log := s.log + [Commit(t)], flushed := |s.log| + 1, txns := s.txns[t := Committed],
      owner := Freed(s.owner, t))
    case EvAbort(t) => s.(log := s.log + [Abort(t)], flushed := |s.log| + 1, txns := s.txns[t := Rolling(|s.log|)])
    case EvRollback(t) =>
      if t !in s.txns || !s.txns[t].Rolling? || s.txns[t].pos == 0 || s.txns[t].pos > |s.log| then s else
        var r := s.log[s.txns[t].pos - 1];
        var s' := s.(txns := s.txns[t := Rolling(s.txns[t].pos - 1)]);
        if r.Data() && r.txn == t
        then s'.(mem := s.mem[IdOf(r.place) := WithValue(PageIn(s.mem, IdOf(r.place)), r.place.rid.slotNo, r.Before())])
        else s'
    case EvRelease(t) => s.(owner := Freed(s.owner, t), spoilt := s.spoilt + PlacesOf(s.log, t))
    case EvFlush => s.(flushed := |s.log|)
    case EvWriteBack(id) => s.(disk := s.disk[id := PageIn(s.mem, id)])
  }

  // ---------------------------------------------------------------- invariants

  // The abort of the writer has undone record i in memory.
  ghost predicate Rolled(s: Sys, i: int)
    requires 0 <= i < |s.log|
  {
    s.log[i].txn in s.txns && s.txns[s.log[i].txn].Rolling? && s.txns[s.log[i].txn].pos <= i
  }

  ghost predicate LogShape(w: World, s: Sys) {
    && s.flushed <= |s.log| && (|s.log| > 0 ==> !s.log[0].Data()) && (forall t :: t in s.txns ==> |s.log| > 0)
    && (forall i :: 0 <= i < |s.log| ==> s.log[i].txn in s.txns)
    && (forall i :: 0 <= i < |s.log| && s.log[i].Data() ==>
      s.log[i].place.tab in w.headers && s.log[i].place.rid.pageNo >= FIRST_RECORD_PAGE)
  }

  // A transaction's last record says how it ended, and reached the disk at once.
  ghost predicate EndsOk(s: Sys) {
    && (forall i, j :: 0 <= i < j < |s.log| && s.log[i].Ends(s.log[i].txn) ==> s.log[j].txn != s.log[i].txn)
    && (forall i :: 0 <= i < |s.log| && s.log[i].Commit? ==>
      s.log[i].txn in s.txns && s.txns[s.log[i].txn] == Committed)
    && (forall i :: 0 <= i < |s.log| && s.log[i].Abort? ==> s.log[i].txn in s.txns && s.txns[s.log[i].txn].Rolling?)
  }

  ghost predicate VerdictsOk(s: Sys) {
    && (forall t :: t in s.txns && s.txns[t] == Committed ==> OnDisk(s, Commit(t)))
    && (forall t :: t in s.txns && s.txns[t].Rolling? ==> OnDisk(s, Abort(t)) && s.txns[t].pos <= |s.log|)
  }

  ghost predicate LogOk(w: World, s: Sys) {
    LogShape(w, s) && EndsOk(s) && VerdictsOk(s)
  }

  ghost predicate OnDisk(s: Sys, r: LogRec) {
    exists i :: 0 <= i < s.flushed && i < |s.log| && s.log[i] == r
  }

  // An unfinished writer holds the lock of the table; the places of a finished abort are out of use.
  ghost predicate LocksOk(s: Sys) {
    forall i :: 0 <= i < |s.log| && s.log[i].Data() && s.log[i].txn in s.txns && s.txns[s.log[i].txn] != Committed ==>
      || (s.log[i].place.tab in s.owner && s.owner[s.log[i].place.tab] == s.log[i].txn)
      || s.log[i].place in s.spoilt
  }

  ghost predicate RunnersHold(s: Sys) {
    forall i :: 0 <= i < |s.log| && s.log[i].Data() && s.log[i].txn in s.txns && s.txns[s.log[i].txn] == Running ==>
      s.log[i].place.tab in s.owner && s.owner[s.log[i].place.tab] == s.log[i].txn
  }

  // Writers of a place follow each other's commits.
  ghost predicate Serial(log: Log, x: Place) {
    forall i, j :: 0 <= i < j < |log| && log[i].Touches(x) && log[j].Touches(x) && log[i].txn != log[j].txn ==>
      CommittedBy(log, j, log[i].txn)
  }

  ghost predicate CommittedBy(log: Log, j: nat, t: int) {
    exists c :: 0 <= c < j && c < |log| && log[c] == Commit(t)
  }

  // Memory shows x as of position k: what was written from there on has been rolled back, and nothing before.
  ghost predicate ShownAt(s: Sys, x: Place, v0: Val, v: Val, k: nat) {
    && k <= |s.log| && v == ValueAt(s.log, x, v0, k)
    && (forall i :: 0 <= i < |s.log| && s.log[i].Touches(x) ==> (Rolled(s, i) <==> k <= i))
  }

  ghost predicate MemOk(s: Sys, x: Place, v0: Val) {
    && (exists k :: ShownAt(s, x, v0, ValueIn(s.mem, x), k))
    && 0 <= PageIn(s.mem, IdOf(x)).lsn && (PageIn(s.mem, IdOf(x)).lsn == 0 || PageIn(s.mem, IdOf(x)).lsn < |s.log|)
    && (forall i :: 0 <= i < |s.log| && s.log[i].Touches(x) ==> i <= PageIn(s.mem, IdOf(x)).lsn)
  }

  // The position right behind a sequence number.
  function Behind(log: Log, lsn: int): nat
    requires lsn >= 0
  {
    if lsn + 1 <= |log| then lsn + 1 else |log|
  }

  // The disk shows x as of its sequence number; or it was written back during or after a rollback.
  ghost predicate DiskAt(s: Sys, x: Place, v0: Val, lsn: int, v: Val, k: nat) {
    && lsn >= 0 && k <= |s.log| && v == ValueAt(s.log, x, v0, k)
    && (k == Behind(s.log, lsn)
        || (forall i :: 0 <= i < |s.log| && s.log[i].Touches(x) ==> i <= lsn && (k <= i ==> Rolled(s, i))))
  }

  ghost predicate DiskOk(s: Sys, x: Place, v0: Val) {
    && (PageIn(s.disk, IdOf(x)).lsn == 0 || 0 <= PageIn(s.disk, IdOf(x)).lsn < s.flushed)
    && exists k :: DiskAt(s, x, v0, PageIn(s.disk, IdOf(x)).lsn, ValueIn(s.disk, x), k)
  }

  ghost predicate PlaceInv(w: World, s: Sys, x: Place) {
    Faithful(s.log, x, Base(w.base, x)) && Serial(s.log, x) && MemOk(s, x, Base(w.base, x))
      && DiskOk(s, x, Base(w.base, x))
  }

  ghost predicate Inv(w: World, s: Sys) {
    && LogOk(w, s) && LocksOk(s) && RunnersHold(s)
    && forall x: Place :: x.tab in w.headers && x.rid.pageNo >= FIRST_RECORD_PAGE ==> PlaceInv(w, s, x)
  }

  // ---------------------------------------------------------------- the value of a place in a longer log

  lemma {:induction false} ValuePrefix(log: Log, log': Log, x: Place, v0: Val, n: nat)
    requires log <= log' && n <= |log|
    ensures ValueAt(log', x, v0, n) == ValueAt(log, x, v0, n)
  {
    if n > 0 {
      assert log'[n - 1] == log[n - 1];
      ValuePrefix(log, log', x, v0, n - 1);
    }
  }

  // ---------------------------------------------------------------- what every event keeps

  lemma LogShapeKept(w: World, s: Sys, e: Event)
    requires LogShape(w, s) && Enabled(w, s, e)
    ensures LogShape(w, Apply(s, e))
  {
  }

  lemma EndsKept(w: World, s: Sys, e: Event)
    requires LogShape(w, s) && EndsOk(s) && Enabled(w, s, e)
    ensures EndsOk(Apply(s, e))
  {
  }

  lemma VerdictsKept(w: World, s: Sys, e: Event)
    requires LogShape(w, s) && VerdictsOk(s) && Enabled(w, s, e)
    ensures VerdictsOk(Apply(s, e))
  {
    CommitsKept(w, s, e);
    AbortsKept(w, s, e);
    hide Apply, Enabled, OnDisk, LogShape;
  }

  lemma CommitsKept(w: World, s: Sys, e: Event)
    requires LogShape(w, s) && VerdictsOk(s) && Enabled(w, s, e)
    ensures var s' := Apply(s, e); forall t :: t in s'.txns && s'.txns[t] == Committed ==> OnDisk(s', Commit(t))
  {
    var s' := Apply(s, e);
    forall t | t in s'.txns && s'.txns[t] == Committed ensures OnDisk(s', Commit(t)) {
      if t in s.txns && s.txns[t] == Committed {
        OnDiskKept(s, e, Commit(t));
      } else {
        assert s'.log[|s.log|] == Commit(t);
      }
    }
  }

  lemma AbortsKept(w: World, s: Sys, e: Event)
    requires LogShape(w, s) && VerdictsOk(s) && Enabled(w, s, e)
    ensures var s' := Apply(s, e); forall t :: t in s'.txns && s'.txns[t].Rolling? ==>
      OnDisk(s', Abort(t)) && s'.txns[t].pos <= |s'.log|
  {
    var s' := Apply(s, e);
    forall t | t in s'.txns && s'.txns[t].Rolling? ensures OnDisk(s', Abort(t)) {
      if t in s.txns && s.txns[t].Rolling? {
        OnDiskKept(s, e, Abort(t));
      } else {
        assert s'.log[|s.log|] == Abort(t);
      }
    }
  }

  lemma LogOkKept(w: World, s: Sys, e: Event)
    requires LogOk(w, s) && Enabled(w, s, e)
    ensures LogOk(w, Apply(s, e))
  {
    hide *;
    LogOkParts(w, s);
    LogShapeKept(w, s, e);
    EndsKept(w, s, e);
    VerdictsKept(w, s, e);
    IntroLogOk(w, Apply(s, e));
  }

  lemma LogOkParts(w: World, s: Sys)
    requires LogOk(w, s)
    ensures LogShape(w, s) && EndsOk(s) && VerdictsOk(s)
  {
    hide LogShape, EndsOk, VerdictsOk;
  }

  lemma IntroLogOk(w: World, s: Sys)
    requires LogShape(w, s) && EndsOk(s) && VerdictsOk(s)
    ensures LogOk(w, s)
  {
    hide LogShape, EndsOk, VerdictsOk;
  }

  lemma OnDiskKept(s: Sys, e: Event, r: LogRec)
    requires OnDisk(s, r) && s.flushed <= |s.log|
    ensures OnDisk(Apply(s, e), r)
  {
    var i :| 0 <= i < s.flushed && i < |s.log| && s.log[i] == r;
    assert Apply(s, e).log[i] == r;
  }

  lemma LocksKept(w: World, s: Sys, e: Event)
    requires LogOk(w, s) && LocksOk(s) && RunnersHold(s) && Enabled(w, s, e)
    ensures LocksOk(Apply(s, e)) && RunnersHold(Apply(s, e))
  {
    hide LogOk, EndsOk, VerdictsOk;
    LogOkParts(w, s);
    var s' := Apply(s, e);
    forall i | 0 <= i < |s'.log| && s'.log[i].Data() && s'.log[i].txn in s'.txns && s'.txns[s'.log[i].txn] != Committed
      ensures (s'.log[i].place.tab in s'.owner && s'.owner[s'.log[i].place.tab] == s'.log[i].txn)
              || (s'.log[i].place in s'.spoilt && s'.txns[s'.log[i].txn] != Running)
    {
      if i < |s.log| {
        assert s'.log[i] == s.log[i] && s.log[i].txn in s.txns && s.txns[s.log[i].txn] != Committed;
      }
    }
  }

  // A record of x that a transaction is about to follow up is either its own or committed.
  lemma EarlierWriter(w: World, s: Sys, r: LogRec, i: nat)
    requires LogOk(w, s) && LocksOk(s) && RunnersHold(s) && Enabled(w, s, EvWrite(r)) && i < |s.log|
      && s.log[i].Touches(r.place)
    ensures !Rolled(s, i)
    ensures s.log[i].txn != r.txn ==> CommittedBy(s.log, |s.log|, s.log[i].txn)
  {
    var t := s.log[i].txn;
    if t != r.txn {
      assert s.txns[t] == Committed;
      assert OnDisk(s, Commit(t));
      var c :| 0 <= c < s.flushed && c < |s.log| && s.log[c] == Commit(t);
      assert CommittedBy(s.log, |s.log|, t);
    }
  }

  // So memory shows the latest value.
  lemma WriterSees(w: World, s: Sys, r: LogRec)
    requires LogOk(w, s) && LocksOk(s) && RunnersHold(s) && Enabled(w, s, EvWrite(r))
      && MemOk(s, r.place, Base(w.base, r.place))
    ensures ValueAt(s.log, r.place, Base(w.base, r.place), |s.log|) == r.Before()
  {
    var x, v0 := r.place, Base(w.base, r.place);
    var k: nat :| ShownAt(s, x, v0, ValueIn(s.mem, x), k);
    forall i | k <= i < |s.log| ensures !s.log[i].Touches(x) {
      if s.log[i].Touches(x) {
        EarlierWriter(w, s, r, i);
      }
    }
    ValueSame(s.log, x, v0, k, |s.log|);
  }

  lemma FaithfulKept(log: Log, r: LogRec, x: Place, v0: Val)
    requires Faithful(log, x, v0) && (r.Touches(x) ==> r.Before() == ValueAt(log, x, v0, |log|))
    ensures Faithful(log + [r], x, v0)
  {
    forall i | 0 <= i < |log| + 1 && (log + [r])[i].Touches(x) ensures (log + [r])[i].Before() == ValueAt(log + [r], x,
      v0, i) {
      ValuePrefix(log, log + [r], x, v0, i);
    }
  }

  lemma SerialKept(log: Log, r: LogRec, x: Place)
    requires Serial(log, x)
    requires r.Touches(x) ==> forall i :: 0 <= i < |log| && log[i].Touches(x) && log[i].txn != r.txn ==>
      CommittedBy(log, |log|, log[i].txn)
    ensures Serial(log + [r], x)
  {
    var log' := log + [r];
    forall i, j | 0 <= i < j < |log'| && log'[i].Touches(x) && log'[j].Touches(x)
      && log'[i].txn != log'[j].txn ensures CommittedBy(log', j, log'[i].txn) {
      assert CommittedBy(log, j, log[i].txn);
      var c :| 0 <= c < j && c < |log| && log[c] == Commit(log[i].txn);
      assert log'[c] == Commit(log'[i].txn);
    }
  }

  // Another record, and nothing else that matters to x.
  ghost predicate Appended(s: Sys, s': Sys, r: LogRec, x: Place) {
    && s'.log == s.log + [r] && s'.flushed >= s.flushed
    && (forall i :: 0 <= i < |s.log| ==> (Rolled(s', i) <==> Rolled(s, i)))
    && PageIn(s'.disk, IdOf(x)) == PageIn(s.disk, IdOf(x))
  }

  lemma MemAppended(s: Sys, s': Sys, r: LogRec, x: Place, v0: Val)
    requires MemOk(s, x, v0) && Appended(s, s', r, x) && !r.Touches(x)
    requires ValueIn(s'.mem, x) == ValueIn(s.mem, x)
    requires PageIn(s'.mem, IdOf(x)).lsn == PageIn(s.mem, IdOf(x)).lsn || PageIn(s'.mem, IdOf(x)).lsn == |s.log|
    ensures MemOk(s', x, v0)
  {
    var k: nat :| ShownAt(s, x, v0, ValueIn(s.mem, x), k);
    ValuePrefix(s.log, s'.log, x, v0, k);
    assert ShownAt(s', x, v0, ValueIn(s'.mem, x), k);
  }

  lemma DiskAppended(s: Sys, s': Sys, r: LogRec, x: Place, v0: Val)
    requires DiskOk(s, x, v0) && Appended(s, s', r, x) && s.flushed <= |s.log|
    requires |s.log| == 0 ==> !r.Touches(x)
    requires r.Touches(x) ==> forall i :: 0 <= i < |s.log| && s.log[i].Touches(x) ==> !Rolled(s, i)
    ensures DiskOk(s', x, v0)
  {
    var l, v := PageIn(s.disk, IdOf(x)).lsn, ValueIn(s.disk, x);
    var k: nat :| DiskAt(s, x, v0, l, v, k);
    var b, b' := Behind(s.log, l), Behind(s'.log, l);
    ValuePrefix(s.log, s'.log, x, v0, k);
    ValuePrefix(s.log, s'.log, x, v0, b);
    if k != b && r.Touches(x) {
      ValueSame(s.log, x, v0, k, |s.log|);
      ValueSame(s.log, x, v0, b, |s.log|);
    }
    assert b == b' || (b == |s.log| == 0 && b' == 1);
    assert DiskAt(s', x, v0, PageIn(s'.disk, IdOf(x)).lsn, ValueIn(s'.disk, x), if k == b || r.Touches(x) then b'
      else k);
  }

  // The written place itself.
  lemma MemWritten(w: World, s: Sys, r: LogRec)
    requires LogOk(w, s) && LocksOk(s) && RunnersHold(s) && Enabled(w, s, EvWrite(r))
      && MemOk(s, r.place, Base(w.base, r.place))
    ensures MemOk(Apply(s, EvWrite(r)), r.place, Base(w.base, r.place))
  {
    var s', x, v0 := Apply(s, EvWrite(r)), r.place, Base(w.base, r.place);
    forall i | 0 <= i < |s'.log| && s'.log[i].Touches(x) ensures !Rolled(s', i) {
      if i < |s.log| {
        EarlierWriter(w, s, r, i);
      }
    }
    assert ShownAt(s', x, v0, ValueIn(s'.mem, x), |s'.log|);
  }

  lemma WriteKept(w: World, s: Sys, r: LogRec, x: Place)
    requires LogOk(w, s) && LocksOk(s) && RunnersHold(s) && Enabled(w, s, EvWrite(r)) && PlaceInv(w, s, x)
    ensures PlaceInv(w, Apply(s, EvWrite(r)), x)
  {
    var s', v0 := Apply(s, EvWrite(r)), Base(w.base, x);
    assert Appended(s, s', r, x);
    if r.Touches(x) {
      WriterSees(w, s, r);
      forall i | 0 <= i < |s.log| && s.log[i].Touches(x) ensures !Rolled(s, i)
        && (s.log[i].txn != r.txn ==> CommittedBy(s.log, |s.log|, s.log[i].txn)) {
        EarlierWriter(w, s, r, i);
      }
      MemWritten(w, s, r);
    } else {
      MemAppended(s, s', r, x, v0);
    }
    assert s.flushed <= |s.log| && |s.log| > 0;
    hide LogOk, LocksOk, RunnersHold, Apply, MemOk, DiskOk, Enabled;
    FaithfulKept(s.log, r, x, v0);
    SerialKept(s.log, r, x);
    DiskAppended(s, s', r, x, v0);
  }

  // Begin, commit and abort add a record that touches nothing.
  lemma MarkKept(w: World, s: Sys, e: Event, x: Place)
    requires LogOk(w, s) && Enabled(w, s, e) && (e.EvBegin? || e.EvCommit? || e.EvAbort?) && PlaceInv(w, s, x)
    ensures PlaceInv(w, Apply(s, e), x)
  {
    var s', v0 := Apply(s, e), Base(w.base, x);
    var r := s'.log[|s.log|];
    assert s'.log == s.log + [r] && Appended(s, s', r, x) && !r.Touches(x);
    assert s.flushed <= |s.log| && ValueIn(s'.mem, x) == ValueIn(s.mem, x)
      && PageIn(s'.mem, IdOf(x)) == PageIn(s.mem, IdOf(x));
    hide LogOk, Apply, MemOk, DiskOk, Enabled;
    MemAppended(s, s', r, x, v0);
    FaithfulKept(s.log, r, x, v0);
    SerialKept(s.log, r, x);
    DiskAppended(s, s', r, x, v0);
  }

  // The log stays; what was rolled back stays so.
  ghost predicate RolledMore(s: Sys, s': Sys) {
    s'.log == s.log && forall i :: 0 <= i < |s.log| && Rolled(s, i) ==> Rolled(s', i)
  }

  lemma DiskRolled(s: Sys, s': Sys, x: Place, v0: Val)
    requires DiskOk(s, x, v0) && RolledMore(s, s') && s'.flushed >= s.flushed
      && PageIn(s'.disk, IdOf(x)) == PageIn(s.disk, IdOf(x))
    ensures DiskOk(s', x, v0)
  {
    var l, v := PageIn(s.disk, IdOf(x)).lsn, ValueIn(s.disk, x);
    var k: nat :| DiskAt(s, x, v0, l, v, k);
    assert DiskAt(s', x, v0, PageIn(s'.disk, IdOf(x)).lsn, ValueIn(s'.disk, x), k);
  }

  // The writers of x before the aborting one are committed, those after it are itself.
  lemma Neighbouring(w: World, s: Sys, x: Place, p: nat, i: nat)
    requires LogOk(w, s) && Serial(s.log, x) && p < |s.log| && i < |s.log| && s.log[p].Touches(x) && s.log[i].Touches(x)
    requires s.txns[s.log[p].txn].Rolling?
    ensures i > p ==> s.log[i].txn == s.log[p].txn
    ensures i < p && s.log[i].txn != s.log[p].txn ==> s.txns[s.log[i].txn] == Committed
  {
    if i > p {
      SerialUse(s.log, x, p, i);
      if CommittedBy(s.log, i, s.log[p].txn) {
        CommitStands(w, s, i, s.log[p].txn);
      }
    }
    if i < p && s.log[i].txn != s.log[p].txn {
      SerialUse(s.log, x, i, p);
      CommitStands(w, s, p, s.log[i].txn);
    }
  }

  lemma SerialUse(log: Log, x: Place, i: nat, j: nat)
    requires Serial(log, x) && i < j < |log| && log[i].Touches(x) && log[j].Touches(x)
    ensures log[i].txn == log[j].txn || CommittedBy(log, j, log[i].txn)
  {
  }

  lemma CommitStands(w: World, s: Sys, j: nat, t: int)
    requires LogOk(w, s) && CommittedBy(s.log, j, t)
    ensures t in s.txns && s.txns[t] == Committed
  {
    var c: nat :| 0 <= c < j && c < |s.log| && s.log[c] == Commit(t);
    assert s.log[c].Commit?;
  }

  // The rollback reaches a record of x.
  lemma RolledHere(w: World, s: Sys, t: int, x: Place)
    requires LogOk(w, s) && Enabled(w, s, EvRollback(t)) && Serial(s.log, x) && Faithful(s.log, x, Base(w.base, x))
    requires var r := s.log[s.txns[t].pos - 1]; r.Touches(x) && r.txn == t
    ensures var s' := Apply(s, EvRollback(t));
            ShownAt(s', x, Base(w.base, x), ValueIn(s'.mem, x), s.txns[t].pos - 1)
  {
    var s', p := Apply(s, EvRollback(t)), s.txns[t].pos - 1;
    forall i | 0 <= i < |s.log| && s.log[i].Touches(x) ensures Rolled(s', i) <==> p <= i {
      Neighbouring(w, s, x, p, i);
    }
    hide LogOk, Serial;
    assert s.log[p].Before() == ValueAt(s.log, x, Base(w.base, x), p);
  }

  // The rollback passes x by.
  lemma RolledElsewhere(w: World, s: Sys, t: int, x: Place, k: nat)
    requires LogOk(w, s) && Enabled(w, s, EvRollback(t)) && ShownAt(s, x, Base(w.base, x), ValueIn(s.mem, x), k)
    requires var r := s.log[s.txns[t].pos - 1]; !(r.Touches(x) && r.txn == t)
    ensures var s' := Apply(s, EvRollback(t));
            ShownAt(s', x, Base(w.base, x), ValueIn(s'.mem, x), k)
  {
    var s' := Apply(s, EvRollback(t));
    assert t in s.txns && s.txns[t].Rolling? && 0 < s.txns[t].pos <= |s.log|;
    hide LogOk, ValueAt, Enabled, ValueIn;
    RollbackValue(s, t, x);
    RollbackRolled(s, t, x);
    hide Apply, Rolled;
  }

  lemma RollbackRolled(s: Sys, t: int, x: Place)
    requires t in s.txns && s.txns[t].Rolling? && 0 < s.txns[t].pos <= |s.log|
    requires var r := s.log[s.txns[t].pos - 1]; !(r.Touches(x) && r.txn == t)
    ensures Apply(s, EvRollback(t)).log == s.log
    ensures forall i :: 0 <= i < |s.log| && s.log[i].Touches(x) ==> (Rolled(Apply(s, EvRollback(t)), i) <==> Rolled(s,
      i))
  {
  }

  lemma RollbackValue(s: Sys, t: int, x: Place)
    requires t in s.txns && s.txns[t].Rolling? && 0 < s.txns[t].pos <= |s.log|
    requires var r := s.log[s.txns[t].pos - 1]; !(r.Touches(x) && r.txn == t)
    ensures ValueIn(Apply(s, EvRollback(t)).mem, x) == ValueIn(s.mem, x)
  {
  }

  lemma MemRolledBack(w: World, s: Sys, t: int, x: Place)
    requires LogOk(w, s) && Enabled(w, s, EvRollback(t)) && PlaceInv(w, s, x)
    ensures MemOk(Apply(s, EvRollback(t)), x, Base(w.base, x))
  {
    var s', v0 := Apply(s, EvRollback(t)), Base(w.base, x);
    assert s'.log == s.log && PageIn(s'.mem, IdOf(x)).lsn == PageIn(s.mem, IdOf(x)).lsn;
    var k: nat :| ShownAt(s, x, v0, ValueIn(s.mem, x), k);
    hide LogOk, Apply, ShownAt, Serial, Faithful, DiskOk, ValueIn;
    var r := s.log[s.txns[t].pos - 1];
    if r.Touches(x) && r.txn == t {
      RolledHere(w, s, t, x);
    } else {
      RolledElsewhere(w, s, t, x, k);
    }
  }

  lemma RollbackKept(w: World, s: Sys, t: int, x: Place)
    requires LogOk(w, s) && Enabled(w, s, EvRollback(t)) && PlaceInv(w, s, x)
    ensures PlaceInv(w, Apply(s, EvRollback(t)), x)
  {
    var s', v0 := Apply(s, EvRollback(t)), Base(w.base, x);
    hide LogOk, Apply, MemOk, DiskOk, Faithful, Serial;
    MemRolledBack(w, s, t, x);
    RollbackRolls(w, s, t);
    DiskRolled(s, s', x, v0);
  }

  lemma RollbackRolls(w: World, s: Sys, t: int)
    requires Enabled(w, s, EvRollback(t))
    ensures var s' := Apply(s, EvRollback(t));
      RolledMore(s, s') && s'.flushed == s.flushed && s'.disk == s.disk && s'.log == s.log
  {
  }

  lemma MemSame(s: Sys, s': Sys, x: Place, v0: Val)
    requires MemOk(s, x, v0) && s'.log == s.log && s'.mem == s.mem && s'.txns == s.txns
    ensures MemOk(s', x, v0)
  {
    var k: nat :| ShownAt(s, x, v0, ValueIn(s.mem, x), k);
    assert ShownAt(s', x, v0, ValueIn(s'.mem, x), k);
  }

  lemma WriteBackKept(w: World, s: Sys, id: PageId, x: Place)
    requires LogOk(w, s) && Enabled(w, s, EvWriteBack(id)) && PlaceInv(w, s, x)
    ensures PlaceInv(w, Apply(s, EvWriteBack(id)), x)
  {
    var s', v0 := Apply(s, EvWriteBack(id)), Base(w.base, x);
    MemSame(s, s', x, v0);
    if IdOf(x) == id {
      var k: nat :| ShownAt(s, x, v0, ValueIn(s.mem, x), k);
      assert DiskAt(s', x, v0, PageIn(s'.disk, IdOf(x)).lsn, ValueIn(s'.disk, x), k);
    } else {
      DiskRolled(s, s', x, v0);
    }
  }

  lemma QuietKept(w: World, s: Sys, e: Event, x: Place)
    requires LogOk(w, s) && Enabled(w, s, e) && (e.EvRelease? || e.EvFlush?) && PlaceInv(w, s, x)
    ensures PlaceInv(w, Apply(s, e), x)
  {
    var s', v0 := Apply(s, e), Base(w.base, x);
    MemSame(s, s', x, v0);
    DiskRolled(s, s', x, v0);
  }

  // Every event keeps the invariant.
  lemma InvKept(w: World, s: Sys, e: Event)
    requires Inv(w, s) && Enabled(w, s, e)
    ensures Inv(w, Apply(s, e))
  {
    LogOkKept(w, s, e);
    LocksKept(w, s, e);
    hide LogOk, LocksOk, RunnersHold, PlaceInv, Enabled, Apply;
    forall x: Place | x.tab in w.headers && x.rid.pageNo >= FIRST_RECORD_PAGE ensures PlaceInv(w, Apply(s, e), x) {
      match e
      case EvBegin(_) => MarkKept(w, s, e, x);
      case EvWrite(r) => WriteKept(w, s, r, x);
      case EvCommit(_) => MarkKept(w, s, e, x);
      case EvAbort(_) => MarkKept(w, s, e, x);
      case EvRollback(t) => RollbackKept(w, s, t, x);
      case EvRelease(_) => QuietKept(w, s, e, x);
      case EvFlush => QuietKept(w, s, e, x);
      case EvWriteBack(id) => WriteBackKept(w, s, id, x);
    }
  }

  // ---------------------------------------------------------------- runs

  ghost predicate WorldOk(w: World) {
    && (forall tab :: tab in w.headers ==> w.headers[tab] >= FIRST_RECORD_PAGE)
    && (forall x :: x in w.base ==> x.tab in w.headers && FIRST_RECORD_PAGE <= x.rid.pageNo < w.headers[x.tab])
  }

  // The engine has just started: nothing logged, memory and disk show the base, all sequence numbers are 0.
  ghost predicate Start(w: World, s: Sys) {
    && WorldOk(w) && s.log == [] && s.flushed == 0 && s.mem == s.disk && s.txns == map[] && s.owner == map[]
      && s.spoilt == {}
    && (forall id :: id in s.disk ==> s.disk[id].lsn == 0)
    && (forall x :: ValueIn(s.disk, x) == Base(w.base, x))
  }

  lemma StartInv(w: World, s: Sys)
    requires Start(w, s)
    ensures Inv(w, s)
  {
    forall x: Place | x.tab in w.headers && x.rid.pageNo >= FIRST_RECORD_PAGE ensures PlaceInv(w, s, x) {
      var v0 := Base(w.base, x);
      assert PageIn(s.disk, IdOf(x)).lsn == 0;
      assert ShownAt(s, x, v0, ValueIn(s.mem, x), 0);
      assert DiskAt(s, x, v0, PageIn(s.disk, IdOf(x)).lsn, ValueIn(s.disk, x), 0);
    }
  }

  ghost predicate Runs(w: World, s: Sys, events: seq<Event>)
    decreases |events|
  {
    events == [] || (Enabled(w, s, events[0]) && Runs(w, Apply(s, events[0]), events[1..]))
  }

  ghost function After(s: Sys, events: seq<Event>): Sys
    decreases |events|
  {
    if events == [] then s else After(Apply(s, events[0]), events[1..])
  }

  lemma {:induction false} RunInv(w: World, s: Sys, events: seq<Event>)
    requires Inv(w, s) && Runs(w, s, events)
    ensures Inv(w, After(s, events))
    decreases |events|
  {
    hide Inv, Enabled, Apply;
    if events != [] {
      InvKept(w, s, events[0]);
      RunInv(w, Apply(s, events[0]), events[1..]);
    }
  }

  // ---------------------------------------------------------------- the crash

  // The files after a crash.  A header has the page count of the start, or one that a shutdown has written ahead
  // of the pages.  A file holds the pages of the start, all pages written back, and zeros in between.
  ghost predicate FilesOf(w: World, s: Sys, disk: Db) {
    && disk.Keys == w.headers.Keys
    && (forall tab :: tab in disk ==> FileOf(w.headers[tab], disk[tab]))
    && (forall tab, p :: tab in disk && p in disk[tab].pages ==> disk[tab].pages[p] == PageIn(s.disk, PageId(tab, p)))
    && (forall id :: id in s.disk && id.fd in disk && id.pageNo >= FIRST_RECORD_PAGE ==> id.pageNo in disk[id.fd].pages)
  }

  ghost predicate FileOf(count: int, file: TableFile) {
    Dense(file) && count <= file.numPages && forall p :: FIRST_RECORD_PAGE <= p < count ==> p in file.pages
  }

  // How the files come about: a page written back goes into its file, a shutdown may write a header, and nothing else
  // changes the files.
  lemma FilesWritten(w: World, s: Sys, disk: Db, id: PageId, file': TableFile)
    requires FilesOf(w, s, disk) && id.fd in disk && PageWritten(disk[id.fd], id.pageNo, PageIn(s.mem, id), file')
    ensures FilesOf(w, Apply(s, EvWriteBack(id)), disk[id.fd := file'])
  {
    assert FileOf(w.headers[id.fd], disk[id.fd]);
    DenseWritten(disk[id.fd], id.pageNo, PageIn(s.mem, id), file');
    var disk', s' := disk[id.fd := file'], Apply(s, EvWriteBack(id));
    forall tab, p | tab in disk' && p in disk'[tab].pages
      ensures disk'[tab].pages[p] == PageIn(s'.disk, PageId(tab, p))
    {
      if tab == id.fd && p !in disk[tab].pages && p != id.pageNo {
        assert PageId(tab, p) !in s.disk;
      }
    }
  }

  lemma FilesKept(w: World, s: Sys, disk: Db, e: Event)
    requires FilesOf(w, s, disk) && !e.EvWriteBack?
    ensures FilesOf(w, Apply(s, e), disk)
  {
    assert Apply(s, e).disk == s.disk;
    hide Apply, FileOf;
  }

  lemma FilesHeader(w: World, s: Sys, disk: Db, tab: int, count: int)
    requires WorldOk(w) && FilesOf(w, s, disk) && tab in disk && w.headers[tab] <= count
    ensures FilesOf(w, s, disk[tab := disk[tab].(numPages := count)])
  {
    var disk' := disk[tab := disk[tab].(numPages := count)];
    assert FileOf(w.headers[tab], disk[tab]);
    assert FileOf(w.headers[tab], disk'[tab]);
    hide FileOf;
    assert forall t :: t in disk' ==> disk'[t].pages == disk[t].pages;
  }

  lemma FilesAt(w: World, s: Sys, disk: Db, x: Place)
    requires FilesOf(w, s, disk) && x.tab in disk && x.rid.pageNo >= FIRST_RECORD_PAGE
    ensures FileAt(disk, x) == ValueIn(s.disk, x) && FileLsn(disk, x) == PageIn(s.disk, IdOf(x)).lsn
    ensures x.rid.pageNo < w.headers[x.tab] ==> Held(disk, x.tab, x.rid.pageNo)
    ensures Held(disk, x.tab, x.rid.pageNo) ==>
      At(disk, x) == ValueIn(s.disk, x) && PageLsn(disk, x) == PageIn(s.disk, IdOf(x)).lsn
  {
    assert IdOf(x).fd in disk;
  }

  // The log on disk after the crash: everything flushed, and any part of what was being written.
  ghost predicate Torn(s: Sys, n: nat) {
    s.flushed <= n <= |s.log| && n > 0
  }

  ghost predicate HasCommit(log: Log, t: int) {
    exists c :: 0 <= c < |log| && log[c] == Commit(t)
  }

  // The transactions that stand are those with a commit record on disk.
  lemma WinnersCommitted(w: World, s: Sys, n: nat, v: Verdict, t: int)
    requires LogOk(w, s) && Torn(s, n) && Analyzed(s.log[..n], n, v)
    ensures t in Winners(v) <==> HasCommit(s.log[..n], t)
  {
    var log := s.log[..n];
    if HasCommit(log, t) {
      var c: nat :| 0 <= c < n && log[c] == Commit(t);
      assert t in v.committed;
      assert s.log[c].Ends(t);
      forall i | 0 <= i < n ensures log[i] != Abort(t) && (log[i].txn == t ==> i <= c) {
        assert log[i] == s.log[i];
      }
      assert log[c].Ends(t);
      forall i | -1 <= i < c ensures EndedAfter(log, i, n, t) {
      }
      assert !Open(log, n, t);
    }
  }

  // A transaction whose commit has returned is among them.
  lemma CommitSurvives(w: World, s: Sys, n: nat, t: int)
    requires LogOk(w, s) && Torn(s, n) && t in s.txns && s.txns[t] == Committed
    ensures HasCommit(s.log[..n], t)
  {
    assert OnDisk(s, Commit(t));
    var c: nat :| 0 <= c < s.flushed && c < |s.log| && s.log[c] == Commit(t);
    assert s.log[..n][c] == Commit(t);
  }

  lemma LoserLastThen(w: World, s: Sys, n: nat, v: Verdict, x: Place)
    requires LogOk(w, s) && Torn(s, n) && Analyzed(s.log[..n], n, v) && Serial(s.log, x)
    ensures LoserLast(s.log[..n], x, Winners(v))
  {
    var log := s.log[..n];
    forall i, j | 0 <= i < j < |log| && log[i].Touches(x) && log[j].Touches(x)
      && log[i].txn !in Winners(v) ensures log[j].txn == log[i].txn {
      SerialUse(s.log, x, i, j);
      if CommittedBy(s.log, j, log[i].txn) {
        var c: nat :| 0 <= c < j && c < |s.log| && s.log[c] == Commit(log[i].txn);
        assert log[c] == Commit(log[i].txn);
        WinnersCommitted(w, s, n, v, log[i].txn);
      }
    }
  }

  lemma FaithfulThen(log: Log, n: nat, x: Place, v0: Val)
    requires Faithful(log, x, v0) && n <= |log|
    ensures Faithful(log[..n], x, v0)
  {
    forall i | 0 <= i < n && log[..n][i].Touches(x) ensures log[..n][i].Before() == ValueAt(log[..n], x, v0, i) {
      ValuePrefix(log[..n], log, x, v0, i);
    }
  }

  // A rolled back record is a loser's.
  lemma RolledLoses(w: World, s: Sys, n: nat, v: Verdict, i: nat)
    requires LogOk(w, s) && Torn(s, n) && Analyzed(s.log[..n], n, v) && i < |s.log| && Rolled(s, i)
    ensures s.log[i].txn !in Winners(v)
  {
    var t := s.log[i].txn;
    assert OnDisk(s, Abort(t));
    var c: nat :| 0 <= c < s.flushed && c < |s.log| && s.log[c] == Abort(t);
    assert s.log[..n][c] == Abort(t);
  }

  // A page written back in the course of a rollback shows a value the loser took the place through.
  lemma WrittenBackRolling(w: World, s: Sys, n: nat, v: Verdict, x: Place, v0: Val, lsn: nat, val: Val, k: nat)
    requires LogOk(w, s) && Torn(s, n) && Analyzed(s.log[..n], n, v) && lsn < n
    requires k <= |s.log| && val == ValueAt(s.log, x, v0, k)
    requires forall i :: 0 <= i < |s.log| && s.log[i].Touches(x) ==> i <= lsn && (k <= i ==> Rolled(s, i))
    ensures Snapshot(s.log[..n], x, v0, Winners(v), lsn, val)
  {
    var log := s.log[..n];
    var f := FindFirstLoss(log, x, Winners(v));
    var m := NextTouch(s.log, x, k);
    ValueSame(s.log, x, v0, k, m);
    var at := if m < |s.log| then m else n;
    assert f <= at by {
      if m < |s.log| {
        RolledLoses(w, s, n, v, m);
        assert log[m] == s.log[m];
      }
    }
    assert val == ValueAt(s.log, x, v0, at) by {
      if m == |s.log| {
        ValueSame(s.log, x, v0, n, |s.log|);
      }
    }
    ValuePrefix(log, s.log, x, v0, at);
    assert PassedThrough(log, x, v0, f, n, val);
  }

  // The first record from k on that touches x, or the end of the log.
  lemma NextTouch(log: Log, x: Place, k: nat) returns (m: nat)
    requires k <= |log|
    ensures k <= m <= |log| && (m < |log| ==> log[m].Touches(x)) && forall i :: k <= i < m ==> !log[i].Touches(x)
  {
    m := k;
    while m < |log| && !log[m].Touches(x)
      invariant k <= m <= |log| && forall i :: k <= i < m ==> !log[i].Touches(x)
    {
      m := m + 1;
    }
  }

  lemma SnapshotThen(w: World, s: Sys, n: nat, v: Verdict, x: Place)
    requires LogOk(w, s) && Torn(s, n) && Analyzed(s.log[..n], n, v) && DiskOk(s, x, Base(w.base, x))
    ensures 0 <= PageIn(s.disk, IdOf(x)).lsn < n
    ensures Snapshot(s.log[..n], x, Base(w.base, x), Winners(v), PageIn(s.disk, IdOf(x)).lsn, ValueIn(s.disk, x))
  {
    var v0, lsn, val := Base(w.base, x), PageIn(s.disk, IdOf(x)).lsn, ValueIn(s.disk, x);
    var k: nat :| DiskAt(s, x, v0, lsn, val, k);
    hide LogOk, DiskOk;
    if k == Behind(s.log, lsn) {
      ValuePrefix(s.log[..n], s.log, x, v0, lsn + 1);
    } else {
      WrittenBackRolling(w, s, n, v, x, v0, lsn, val, k);
    }
  }

  // A page number that no record page has is never written.
  lemma NotLogged(w: World, s: Sys, n: nat, disk: Db, x: Place)
    requires WorldOk(w) && LogOk(w, s) && n <= |s.log| && FilesOf(w, s, disk) && x.tab in disk
      && x.rid.pageNo < FIRST_RECORD_PAGE
    ensures Base(w.base, x) == Absent && FileAt(disk, x) == Absent && FileLsn(disk, x) == 0
    ensures forall i :: 0 <= i < n ==> !s.log[..n][i].Touches(x)
  {
  }

  lemma HistoryThen(w: World, s: Sys, n: nat, v: Verdict, x: Place)
    requires Inv(w, s) && Torn(s, n) && Analyzed(s.log[..n], n, v)
    requires x.tab in w.headers && x.rid.pageNo >= FIRST_RECORD_PAGE
    ensures ValueOk(s.log[..n], w.base, Winners(v), x, PageIn(s.disk, IdOf(x)).lsn, ValueIn(s.disk, x))
  {
    assert PlaceInv(w, s, x);
    hide Inv, LogOk, MemOk, Analyzed, Winners, LocksOk;
    FaithfulThen(s.log, n, x, Base(w.base, x));
    LoserLastThen(w, s, n, v, x);
    SnapshotThen(w, s, n, v, x);
  }

  // A place without a record at the start may be taken as fresh, whatever has been written there since.
  lemma FreshThen(log: Log, base: map<Place, Record>, winners: set<int>, x: Place)
    requires |log| > 0 && !log[0].Data() && Base(base, x) == Absent
    requires Faithful(log, x, Absent) && LoserLast(log, x, winners)
    ensures ValueOk(log, base, winners, x, 0, Absent)
  {
    assert ValueAt(log, x, Absent, 1) == Absent;
  }

  lemma PlaceThen(w: World, s: Sys, n: nat, v: Verdict, disk: Db, x: Place)
    requires WorldOk(w) && Inv(w, s) && Torn(s, n) && Analyzed(s.log[..n], n, v)
    requires FilesOf(w, s, disk) && x.tab in disk
    ensures KeptOk(disk, s.log[..n], w.base, Winners(v), x)
  {
    var log := s.log[..n];
    assert log[0] == s.log[0] && !log[0].Data();
    assert Base(w.base, x).Present? ==> x.rid.pageNo < disk[x.tab].numPages;
    if x.rid.pageNo >= FIRST_RECORD_PAGE {
      HistoryThen(w, s, n, v, x);
      FilesAt(w, s, disk, x);
    } else {
      NotLogged(w, s, n, disk, x);
    }
    hide Inv, LogOk, Analyzed, Torn, FilesOf, WorldOk, Snapshot, Winners, FileAt, FileLsn, PageIn, ValueIn;
    if Base(w.base, x) == Absent {
      FreshThen(log, w.base, Winners(v), x);
    }
  }

  // Wherever a run is cut, the files are such that recovery can deal with what it can read of them.
  lemma CrashRecoverable(w: World, s: Sys, n: nat, v: Verdict, disk: Db)
    requires WorldOk(w) && Inv(w, s) && Torn(s, n) && Analyzed(s.log[..n], n, v) && FilesOf(w, s, disk)
    ensures FilesOk(disk, s.log[..n], w.base, Winners(v))
  {
    var log := s.log[..n];
    forall i | 0 <= i < |log| && log[i].Data()
      ensures log[i].place.tab in disk && log[i].place.rid.pageNo >= FIRST_RECORD_PAGE
    {
      assert log[i] == s.log[i];
    }
    assert !log[0].Data() by {
      assert log[0] == s.log[0];
    }
    hide Inv, Torn, Analyzed, KeptOk, Winners;
    forall x: Place | x.tab in disk ensures KeptOk(disk, log, w.base, Winners(v), x) {
      PlaceThen(w, s, n, v, disk, x);
    }
  }

  // A crash before anything was flushed finds the base untouched.
  lemma NothingFlushed(w: World, s: Sys, disk: Db, x: Place)
    requires WorldOk(w) && Inv(w, s) && s.flushed == 0 && FilesOf(w, s, disk) && x.tab in disk
    ensures At(disk, x) == Base(w.base, x)
  {
    var v0 := Base(w.base, x);
    if FIRST_RECORD_PAGE <= x.rid.pageNo {
      FilesAt(w, s, disk, x);
      assert PlaceInv(w, s, x);
      var k: nat :| DiskAt(s, x, v0, PageIn(s.disk, IdOf(x)).lsn, ValueIn(s.disk, x), k);
      ValueSame(s.log, x, v0, 0, k);
    }
  }

  /**
   The last word: run, crash, recover.  Start-up goes through if and only if every file holds the pages that its
   header counts.  Then every place of every table holds what the transactions with a commit record on disk, and
   they alone, would have left there; no returned commit is lost.
   */
  method CrashAndRecover(ghost w: World, ghost s0: Sys, ghost events: seq<Event>, disk: Db, log: Log)
    returns (thrown: bool, db: Db, ghost winners: set<int>)
    requires Start(w, s0) && Runs(w, s0, events)
    requires Torn(After(s0, events), |log|) && log == After(s0, events).log[..|log|]
      && FilesOf(w, After(s0, events), disk)
    ensures thrown <==> !DbOk(disk)
    ensures !thrown ==> forall x: Place :: x.tab in disk ==>
      At(db, x) == WonAt(log, x, Base(w.base, x), |log|, winners)
    ensures forall t :: t in winners <==> HasCommit(log, t)
    ensures forall t :: t in After(s0, events).txns && After(s0, events).txns[t] == Committed ==> t in winners
  {
    ghost var s := After(s0, events);
    StartInv(w, s0);
    RunInv(w, s0, events);
    InvFacts(w, s0, s);
    hide Inv, Runs, Start, WorldOk, LogOk, FilesOk, Restorable, After, FilesOf, Winners, WonAt, At, HasCommit, DbOk;
    forall v | Analyzed(log, |log|, v) ensures Restorable(disk, log, w.base, Winners(v)) {
      CrashRecoverable(w, s, |log|, v, disk);
      FilesRestorable(disk, log, w.base, Winners(v));
    }
    ghost var v;
    thrown, db, v := Recover(log, disk, w.base);
    winners := Winners(v);
    forall t ensures t in winners <==> HasCommit(log, t) {
      WinnersCommitted(w, s, |log|, v, t);
    }
    forall t | t in s.txns && s.txns[t] == Committed ensures t in winners {
      CommitSurvives(w, s, |log|, t);
    }
  }

  lemma InvFacts(w: World, s0: Sys, s: Sys)
    requires Start(w, s0) && Inv(w, s)
    ensures WorldOk(w) && LogOk(w, s)
  {
  }
}
