/**
 Runs that write a place again after an abort has rolled it back.  The runs of CrashRuns do not; here one
 such write is made and committed, and the engine crashes: when does recovery keep the committed value?
 */
module ReuseRuns {
  import opened RecordIds
  import opened RecoveryLog
  import opened ReusedPlaces
  import opened Recovery
  import opened CrashRuns

  // Everything a write asks for, but that its place is not one that the abort of t has rolled back.
  ghost predicate Reused(w: World, s: Sys, t: int, r: LogRec) {
    && WorldOk(w) && Inv(w, s) && t in s.txns && s.txns[t] == Rolling(0)
    && r.Data() && r.txn in s.txns && s.txns[r.txn] == Running
    && r.place.tab in w.headers && FIRST_RECORD_PAGE <= r.place.rid.pageNo < w.headers[r.place.tab]
    && (r.place.tab in s.owner ==> s.owner[r.place.tab] == r.txn)
    && r.Before() == ValueIn(s.mem, r.place)
  }

  // The records of t on x start at f.
  ghost predicate StartsAt(s: Sys, t: int, x: Place, f: nat) {
    && f < |s.log| && s.log[f].Touches(x) && s.log[f].txn == t
    && forall i :: 0 <= i < f && s.log[i].Touches(x) ==> s.log[i].txn != t
  }

  ghost function Written(s: Sys, r: LogRec): Sys
    requires r.Data()
  {
    Apply(Apply(s, EvWrite(r)), EvCommit(r.txn))
  }

  ghost function WrittenBack(s: Sys, r: LogRec): Sys
    requires r.Data()
  {
    Apply(Written(s, r), EvWriteBack(IdOf(r.place)))
  }

  // ---------------------------------------------------------------- the log of such a run

  ghost function LogThen(s: Sys, r: LogRec): Log {
    s.log + [r, Commit(r.txn)]
  }

  lemma LogThenAt(s: Sys, r: LogRec)
    ensures var log := LogThen(s, r);
      && |log| == |s.log| + 2 && s.log <= log && log[|s.log|] == r && log[|s.log| + 1] == Commit(r.txn)
      && forall i :: 0 <= i < |s.log| ==> log[i] == s.log[i]
  {
  }

  lemma WrittenLog(w: World, s: Sys, t: int, r: LogRec)
    requires Reused(w, s, t, r)
    ensures Written(s, r).log == LogThen(s, r) && WrittenBack(s, r).log == LogThen(s, r)
    ensures Written(s, r).disk == s.disk
    ensures var s' := WrittenBack(s, r);
      ValueIn(s'.disk, r.place) == r.After() && PageIn(s'.disk, IdOf(r.place)).lsn == |s.log|
  {
  }

  lemma SameLogOk(w: World, s: Sys, s': Sys)
    requires s'.log == s.log && s'.flushed == s.flushed && s'.txns == s.txns && LogOk(w, s)
    ensures LogOk(w, s')
  {
    assert LogShape(w, s') && EndsOk(s');
    forall t | t in s'.txns && s'.txns[t] == Committed ensures OnDisk(s', Commit(t)) {
      assert OnDisk(s, Commit(t));
    }
    forall t | t in s'.txns && s'.txns[t].Rolling? ensures OnDisk(s', Abort(t)) {
      assert OnDisk(s, Abort(t));
    }
  }

  lemma Unguarded(w: World, s: Sys, t: int, r: LogRec)
    requires Reused(w, s, t, r)
    ensures var s0 := s.(spoilt := {}); Enabled(w, s0, EvWrite(r)) && Enabled(w, Apply(s0, EvWrite(r)), EvCommit(r.txn))
    ensures LogOk(w, s) && PlaceInv(w, s, r.place)
    ensures var s0, s' := s.(spoilt := {}), Written(s, r);
      var s2 := Apply(Apply(s0, EvWrite(r)), EvCommit(r.txn));
      s'.log == s2.log && s'.flushed == s2.flushed == |s.log| + 2 && s'.txns == s2.txns
  {
    hide LogOk, LocksOk, RunnersHold, PlaceInv;
  }

  // The guard that is not kept matters to nothing that is said of the log.
  lemma WrittenLogOk(w: World, s: Sys, t: int, r: LogRec)
    requires Reused(w, s, t, r)
    ensures LogOk(w, Written(s, r)) && Torn(Written(s, r), |s.log| + 2)
  {
    Unguarded(w, s, t, r);
    WrittenLog(w, s, t, r);
    hide Inv, Apply, Enabled, Written, LogOk, PlaceInv;
    var s0 := s.(spoilt := {});
    SameLogOk(w, s, s0);
    LogOkKept(w, s0, EvWrite(r));
    LogOkKept(w, Apply(s0, EvWrite(r)), EvCommit(r.txn));
    SameLogOk(w, Apply(Apply(s0, EvWrite(r)), EvCommit(r.txn)), Written(s, r));
  }

  lemma CommittedKnown(w: World, s: Sys, t: int)
    requires LogOk(w, s)
    ensures HasCommit(s.log, t) ==> t in s.txns && s.txns[t] == Committed
  {
    if HasCommit(s.log, t) {
      var c: nat :| 0 <= c < |s.log| && s.log[c] == Commit(t);
      assert s.log[c].Commit?;
    }
  }

  lemma CommittedByHas(log: Log, j: nat, t: int)
    ensures CommittedBy(log, j, t) ==> HasCommit(log, t)
  {
  }

  // Before the records of t on x everybody has committed, and behind them nobody else has written x.
  lemma OthersBefore(w: World, s: Sys, t: int, x: Place, f: nat)
    requires LogOk(w, s) && Serial(s.log, x) && t in s.txns && s.txns[t].Rolling? && StartsAt(s, t, x, f)
    ensures forall i :: f <= i < |s.log| && s.log[i].Touches(x) ==> s.log[i].txn == t
    ensures forall i :: 0 <= i < f && s.log[i].Touches(x) ==> HasCommit(s.log, s.log[i].txn)
  {
    CommittedKnown(w, s, t);
    hide LogOk, Serial, HasCommit, CommittedBy, LogRec.Touches;
    forall i | f < i < |s.log| && s.log[i].Touches(x) ensures s.log[i].txn == t {
      SerialUse(s.log, x, f, i);
      CommittedByHas(s.log, i, t);
    }
    forall i | 0 <= i < f && s.log[i].Touches(x) ensures HasCommit(s.log, s.log[i].txn) {
      SerialUse(s.log, x, i, f);
      CommittedByHas(s.log, f, s.log[i].txn);
    }
  }

  // The rollback is complete: memory shows what t found.
  lemma FoundAgain(w: World, s: Sys, t: int, x: Place, f: nat)
    requires LogOk(w, s) && t in s.txns && s.txns[t] == Rolling(0) && StartsAt(s, t, x, f) && PlaceInv(w, s, x)
    ensures s.log[f].Before() == ValueAt(s.log, x, Base(w.base, x), f) == ValueIn(s.mem, x)
  {
    var v0 := Base(w.base, x);
    OthersBefore(w, s, t, x, f);
    var k: nat :| ShownAt(s, x, v0, ValueIn(s.mem, x), k);
    assert Rolled(s, f) && k <= f;
    hide LogOk, ValueIn, DiskOk, Serial, HasCommit;
    forall i | k <= i < f ensures !s.log[i].Touches(x) {
      CommittedKnown(w, s, s.log[i].txn);
    }
    ValueSame(s.log, x, v0, k, f);
  }

  ghost function Losers(v: Verdict): set<int> {
    v.active + v.aborted
  }

  lemma WriteFacts(w: World, s: Sys, t: int, r: LogRec)
    requires Reused(w, s, t, r)
    ensures r.Data() && !Commit(r.txn).Data() && t in s.txns && s.txns[t] == Rolling(0)
    ensures LogOk(w, s) && Serial(s.log, r.place) && PlaceInv(w, s, r.place)
    ensures var s2 := Written(s, r); LogOk(w, s2) && Torn(s2, |s.log| + 2) && s2.log == LogThen(s, r)
  {
    Unguarded(w, s, t, r);
    WrittenLog(w, s, t, r);
    WrittenLogOk(w, s, t, r);
    hide Inv, LogOk, MemOk, DiskOk, Faithful, Apply, Written, Enabled;
  }

  // Who loses: t, and no other writer of x.
  lemma LoserOnly(w: World, s: Sys, t: int, r: LogRec, f: nat, v: Verdict, i: nat)
    requires Reused(w, s, t, r) && StartsAt(s, t, r.place, f)
    requires var log := LogThen(s, r); Analyzed(log, |log|, v) && i < |log| && log[i].Touches(r.place)
    ensures LogThen(s, r)[i].txn in Losers(v) <==> f <= i < |s.log|
  {
    hide Reused, Inv, LogOk, PlaceInv, Serial, Apply, Written, WrittenBack, Enabled, Winners, Analyzed, Losers, Torn,
      Rolled, LogThen;
    WriteFacts(w, s, t, r);
    LogThenAt(s, r);
    var x, log, s2 := r.place, LogThen(s, r), Written(s, r);
    OthersBefore(w, s, t, x, f);
    TouchesData(log[i], x);
    assert s2.log[..|log|] == log;
    LoserCommitted(w, s2, |log|, v, i);
    hide HasCommit;
    CommitsMore(s, r, log[i].txn);
    NotCommitted(w, s, t, r);
  }

  lemma CommitsMore(s: Sys, r: LogRec, t: int)
    ensures HasCommit(s.log, t) ==> HasCommit(LogThen(s, r), t)
    ensures HasCommit(LogThen(s, r), r.txn)
  {
    var log := LogThen(s, r);
    assert log[|s.log| + 1] == Commit(r.txn);
    if HasCommit(s.log, t) {
      var c: nat :| 0 <= c < |s.log| && s.log[c] == Commit(t);
      assert log[c] == Commit(t);
    }
  }

  lemma LoserCommitted(w: World, s: Sys, n: nat, v: Verdict, i: nat)
    requires LogOk(w, s) && Torn(s, n) && n == |s.log| && Analyzed(s.log[..n], n, v) && i < n && s.log[i].Data()
    ensures s.log[i].txn in Losers(v) <==> !HasCommit(s.log, s.log[i].txn)
  {
    assert s.log[..n] == s.log;
    WinOrLose(s.log, v, i);
    WinnersCommitted(w, s, n, v, s.log[i].txn);
    hide LogOk, Analyzed, Winners, HasCommit;
  }

  lemma NotCommitted(w: World, s: Sys, t: int, r: LogRec)
    requires Reused(w, s, t, r)
    ensures !HasCommit(LogThen(s, r), t)
  {
    assert LogOk(w, s) && t != r.txn;
    CommittedKnown(w, s, t);
    hide LogOk, Inv;
    var log := LogThen(s, r);
    forall c | 0 <= c < |log| ensures log[c] != Commit(t) {
      if c < |s.log| {
        assert log[c] == s.log[c];
      }
    }
  }

  lemma LostThere(w: World, s: Sys, t: int, r: LogRec, f: nat, v: Verdict)
    requires Reused(w, s, t, r) && StartsAt(s, t, r.place, f)
    requires var log := LogThen(s, r); Analyzed(log, |log|, v)
    ensures Lost(LogThen(s, r), r.place, Losers(v), Base(w.base, r.place), f, |s.log|)
    ensures LogThen(s, r)[f].Data() && s.log[f].Before() == r.Before()
    ensures r.Before() == ValueAt(s.log, r.place, Base(w.base, r.place), f)
  {
    WriteFacts(w, s, t, r);
    assert Faithful(s.log, r.place, Base(w.base, r.place)) && r.Before() == ValueIn(s.mem, r.place);
    LogThenAt(s, r);
    hide Reused, Inv, LogOk, Serial, PlaceInv, Torn, Apply, Written, Enabled, ValueIn, Analyzed, Losers, ValueAt,
      LogThen;
    var x, v0, log := r.place, Base(w.base, r.place), LogThen(s, r);
    FoundAgain(w, s, t, x, f);
    assert log[f] == s.log[f] && s.log[f].Touches(x);
    forall i | 0 <= i < |log| && log[i].Touches(x) ensures log[i].txn in Losers(v) <==> f <= i < |s.log| {
      LoserOnly(w, s, t, r, f, v, i);
    }
    hide Faithful, StartsAt, LogRec.Before, LogRec.Touches;
    LostIntro(s.log, log, x, Losers(v), v0, f);
  }

  lemma LostIntro(log0: Log, log: Log, x: Place, losers: set<int>, v0: Val, f: nat)
    requires log0 <= log && f < |log0| && log0[f].Touches(x) && Faithful(log0, x, v0)
    requires forall i :: 0 <= i < |log| && log[i].Touches(x) ==> (log[i].txn in losers <==> f <= i < |log0|)
    ensures Lost(log, x, losers, v0, f, |log0|)
  {
    assert forall i :: 0 <= i < |log0| ==> log[i] == log0[i];
    hide ValueAt;
    forall i | f <= i < |log0| && log[i].Touches(x) ensures log[i].Before() == ValueAt(log, x, v0, i) {
      ValuePrefix(log0, log, x, v0, i);
    }
  }

  // ---------------------------------------------------------------- written back before the crash

  /**
   The page of the committed write reached the disk.  Redo leaves it, and undo keeps the value if and only
   if it spares it: it is what the aborted transaction found, or empty and only updated, or filled and
   deleted once.
   */
  lemma ReuseWrittenBack(w: World, s: Sys, t: int, r: LogRec, f: nat, v: Verdict, disk: Db)
    requires Reused(w, s, t, r) && StartsAt(s, t, r.place, f) && FilesOf(w, WrittenBack(s, r), disk) && DbOk(disk)
    requires var log := LogThen(s, r); Analyzed(log, |log|, v)
    ensures var x, log := r.place, LogThen(s, r);
      var db := RedoLog(disk, log, |log|);
      && At(db, x) == r.After() == WonAt(log, x, Base(w.base, x), |log|, Winners(v))
      && ((forall i :: 0 <= i < |log| ==> !UndoThrows(db, log[i])) ==>
           (At(UndoLog(db, log, |log|, Losers(v)), x) == r.After() <==> Spared(log, x, f, |s.log|, r.After())))
  {
    WriteFacts(w, s, t, r);
    WrittenLog(w, s, t, r);
    assert WorldOk(w) && r.place.tab in w.headers && r.place.tab in disk;
    assert FIRST_RECORD_PAGE <= r.place.rid.pageNo < w.headers[r.place.tab];
    hide Reused, Inv, LogOk, Serial, PlaceInv, Torn, FilesOf, Written, WrittenBack, Analyzed, Lost, Spared, Losers,
      Winners, ValueIn;
    var x, log, s' := r.place, LogThen(s, r), WrittenBack(s, r);
    FilesAt(w, s', disk, x);
    LostThere(w, s, t, r, f, v);
    StartsLog(w, s, t, r);
    WonLast(w, s, t, r, f, v);
    RedoneThere(disk, s.log, r, Commit(r.txn), Losers(v), Base(w.base, x), f);
  }

  lemma RedoneThere(db0: Db, log0: Log, r: LogRec, c: LogRec, losers: set<int>, v0: Val, f: nat)
    requires r.Data() && !c.Data() && |log0| > 0 && !log0[0].Data() && DbOk(db0)
    requires Held(db0, r.place.tab, r.place.rid.pageNo) && r.place.rid.pageNo >= FIRST_RECORD_PAGE
    requires PageLsn(db0, r.place) == |log0| && At(db0, r.place) == r.After()
    requires Lost(log0 + [r, c], r.place, losers, v0, f, |log0|)
    ensures var x, log := r.place, log0 + [r, c];
      var db := RedoLog(db0, log, |log|);
      && At(db, x) == r.After()
      && ((forall i :: 0 <= i < |log| ==> !UndoThrows(db, log[i])) ==>
           (At(UndoLog(db, log, |log|, losers), x) == r.After() <==> Spared(log, x, f, |log0|, r.After())))
  {
    var x, log := r.place, log0 + [r, c];
    var db := RedoLog(db0, log, |log|);
    assert log[0] == log0[0] && log[|log0| + 1] == c;
    RedoHere(db0, log, v0, x, |log|);
    RedoNothing(log, x, |log0| + 1, |log|, r.After());
    hide RedoLog, UndoLog, Lost, Spared, At, PageLsn;
    if forall i :: 0 <= i < |log| ==> !UndoThrows(db, log[i]) {
      UndoAll(db, log, |log|, losers, x);
      LateUndoValue(log, x, losers, v0, f, |log0|, r.After());
      SparedFirst(log, x, f, |log0|, r.After());
    }
  }

  lemma SparedFirst(log: Log, x: Place, f: nat, e: nat, v: Val)
    requires f < |log| && log[f].Data()
    ensures v == log[f].Before() ==> Spared(log, x, f, e, v)
  {
  }

  lemma StartsLog(w: World, s: Sys, t: int, r: LogRec)
    requires Reused(w, s, t, r)
    ensures |s.log| > 0 && !s.log[0].Data()
  {
    assert LogShape(w, s);
  }

  // The write is the winners' last on its place.
  lemma WonLast(w: World, s: Sys, t: int, r: LogRec, f: nat, v: Verdict)
    requires Reused(w, s, t, r) && StartsAt(s, t, r.place, f)
    requires var log := LogThen(s, r); Analyzed(log, |log|, v)
    ensures var log := LogThen(s, r); WonAt(log, r.place, Base(w.base, r.place), |log|, Winners(v)) == r.After()
  {
    var log, n := LogThen(s, r), |s.log|;
    LoserOnly(w, s, t, r, f, v, n);
    WinOrLose(log, v, n);
    assert log[n] == r && !log[n + 1].Touches(r.place);
    hide Inv, Reused, Analyzed, Winners;
    assert WonAt(log, r.place, Base(w.base, r.place), n + 1, Winners(v)) == r.After();
  }

  // ---------------------------------------------------------------- whatever page image the crash leaves

  // Redo from an image, then undo, goes through and ends with the given value.
  ghost predicate RightFrom(log: Log, x: Place, losers: set<int>, lsn: nat, v: Val, want: Val)
    requires lsn < |log|
  {
    && (forall i :: lsn < i < |log| && log[i].Touches(x) && log[i].Update? ==>
      RedoneFrom(log, x, lsn + 1, i, v).Present?)
    && UndoneFrom(log, x, |log|, losers, RedoneFrom(log, x, lsn + 1, |log|, v)) == want
  }

  // The aborted transaction only updated the place, and the write empties it or puts the same record back.
  ghost predicate Harmless(s: Sys, r: LogRec, f: nat)
    requires r.Data()
  {
    OnlyUpdates(s.log, r.place, f, |s.log|) && (r.Delete? || (r.Update? && r.After() == r.Before()))
  }

  lemma {:induction false} RedonePrefix(log: Log, log': Log, x: Place, from: nat, n: nat, v: Val)
    requires log <= log' && from <= n <= |log|
    ensures RedoneFrom(log', x, from, n, v) == RedoneFrom(log, x, from, n, v)
    decreases n - from
  {
    if from < n {
      RedonePrefix(log, log', x, from + 1, n, if log[from].Touches(x) then log[from].Redone(v) else v);
    }
  }

  // Redo of the whole log: of what was logged before, then of the write.
  lemma RedoneWithWrite(log: Log, r: LogRec, c: LogRec, from: nat, v: Val)
    requires r.Data() && !c.Data() && from <= |log|
    ensures RedoneFrom(log + [r, c], r.place, from, |log|, v) == RedoneFrom(log, r.place, from, |log|, v)
    ensures RedoneFrom(log + [r, c], r.place, from, |log| + 2, v) == r.Redone(RedoneFrom(log, r.place, from, |log|, v))
  {
    var log' := log + [r, c];
    RedonePrefix(log, log', r.place, from, |log|, v);
    RedoneExtend(log', r.place, from, |log|, v);
    RedoneExtend(log', r.place, from, |log| + 1, v);
  }

  // What the write makes of the value y that redo finds, and undo of that, is right.
  ghost predicate RightOutcome(log: Log, r: LogRec, f: nat, e: nat, y: Val)
    requires r.Data() && f < |log| && log[f].Data()
  {
    var z := r.Redone(y);
    (r.Update? ==> y.Present?) && r.After() == if Spared(log, r.place, f, e, z) then z else log[f].Before()
  }

  ghost predicate RedoGoesOn(log: Log, x: Place, lsn: nat, v: Val) {
    forall i :: lsn < i < |log| && log[i].Touches(x) && log[i].Update? ==> RedoneFrom(log, x, lsn + 1, i, v).Present?
  }

  // What happens from an image taken before the write, in terms of what redo makes of the older records.
  lemma RightAfter(log: Log, r: LogRec, c: LogRec, losers: set<int>, v0: Val, f: nat, lsn: nat, v: Val)
    requires r.Data() && !c.Data() && lsn < |log| && Lost(log + [r, c], r.place, losers, v0, f, |log|)
    requires RedoGoesOn(log, r.place, lsn, v)
    ensures RightFrom(log + [r, c], r.place, losers, lsn, v, r.After())
      <==> RightOutcome(log + [r, c], r, f, |log|, RedoneFrom(log, r.place, lsn + 1, |log|, v))
  {
    var log', x := log + [r, c], r.place;
    var y := RedoneFrom(log, x, lsn + 1, |log|, v);
    RedoneWithWrite(log, r, c, lsn + 1, v);
    LateUndoValue(log', x, losers, v0, f, |log|, r.Redone(y));
    hide Lost, Spared, LogRec.Redone, UndoneFrom;
    forall i | lsn < i < |log| && log[i].Touches(x) ensures RedoneFrom(log', x, lsn + 1, i, v) == RedoneFrom(log, x,
      lsn + 1, i, v) {
      RedonePrefix(log, log', x, lsn + 1, i, v);
    }
    assert forall i :: lsn < i < |log| ==> log'[i] == log[i];
    assert log'[|log|] == r && log'[|log| + 1] == c && !c.Touches(x);
  }

  // Redo of the older records from any image the disk may hold ends with a value x had: m counts at least
  // everything that was committed.
  lemma ImageRedone(w: World, s: Sys, t: int, x: Place, f: nat, lsn: nat, v: Val, k: nat) returns (m: nat)
    requires LogOk(w, s) && t in s.txns && s.txns[t] == Rolling(0) && StartsAt(s, t, x, f) && PlaceInv(w, s, x)
    requires lsn < |s.log| && DiskAt(s, x, Base(w.base, x), lsn, v, k)
    ensures RedoGoesOn(s.log, x, lsn, v)
    ensures m <= |s.log| && RedoneFrom(s.log, x, lsn + 1, |s.log|, v) == ValueAt(s.log, x, Base(w.base, x), m)
    ensures forall i :: 0 <= i < f && s.log[i].Touches(x) ==> i < m
  {
    hide HasCommit, LogOk, Serial;
    var v0 := Base(w.base, x);
    assert Faithful(s.log, x, v0) && Serial(s.log, x);
    hide PlaceInv;
    OthersBefore(w, s, t, x, f);
    if k == Behind(s.log, lsn) {
      RedoExact(s.log, x, v0, lsn + 1, |s.log|);
      forall i | lsn < i < |s.log| && s.log[i].Touches(x) && s.log[i].Update? ensures RedoneFrom(s.log, x, lsn + 1, i,
        v).Present? {
        RedoExact(s.log, x, v0, lsn + 1, i);
      }
      m := |s.log|;
    } else {
      RedoNothing(s.log, x, lsn + 1, |s.log|, v);
      forall i | 0 <= i < f && s.log[i].Touches(x) ensures i < k {
        CommittedKnown(w, s, s.log[i].txn);
        assert !Rolled(s, i);
      }
      m := k;
    }
  }

  // An aborted transaction that only updated x never emptied it.
  lemma {:induction false} NeverEmpty(log: Log, x: Place, v0: Val, f: nat, m: nat)
    requires f < |log| && log[f].Touches(x) && m <= |log| && OnlyUpdates(log, x, f, |log|)
    requires ValueAt(log, x, v0, f).Present? && forall i :: m <= i < f ==> !log[i].Touches(x)
    ensures ValueAt(log, x, v0, m).Present?
  {
    if m <= f {
      ValueSame(log, x, v0, m, f);
    } else {
      NeverEmpty(log, x, v0, f, m - 1);
    }
  }

  // Another one did, at some position behind its first record.
  lemma SomewhereEmpty(log: Log, x: Place, v0: Val, f: nat) returns (m: nat)
    requires f < |log| && log[f].Touches(x) && log[f].Before().Present? && !OnlyUpdates(log, x, f, |log|)
    requires forall i :: f <= i < |log| && log[i].Touches(x) ==> log[i].Before() == ValueAt(log, x, v0, i)
    ensures f < m <= |log| && ValueAt(log, x, v0, m).Absent?
  {
    var i: nat :| f <= i < |log| && log[i].Touches(x) && !log[i].Update?;
    m := if log[i].Delete? then i + 1 else i;
  }

  // The case distinction of the theorem, over what redo may find.
  lemma HarmlessOutcome(log: Log, log': Log, r: LogRec, f: nat, y: Val)
    requires r.Data() && f < |log| && log <= log' && log[f].Touches(r.place) && log[f].Before() == r.Before()
    requires OnlyUpdates(log, r.place, f, |log|) && (r.Delete? || (r.Update? && r.After() == r.Before())) && y.Present?
    ensures RightOutcome(log', r, f, |log|, y)
  {
    assert log'[f] == log[f];
    assert OnlyUpdates(log', r.place, f, |log|) by {
      forall i | f <= i < |log| && log'[i].Touches(r.place) ensures log'[i].Update? {
        assert log'[i] == log[i];
      }
    }
  }

  // An image with the last sequence number before the write.
  lemma EmptyImage(log: Log, r: LogRec, c: LogRec, losers: set<int>)
    requires r.Update? && !c.Data() && |log| > 0
    ensures !RightFrom(log + [r, c], r.place, losers, |log| - 1, Absent, r.After())
  {
    var log' := log + [r, c];
    assert log'[|log|] == r && RedoneFrom(log', r.place, |log|, |log|, Absent) == Absent;
  }

  lemma WrittenBackRight(log: Log, r: LogRec, c: LogRec, losers: set<int>, v0: Val, f: nat)
    requires r.Data() && !c.Data() && Lost(log + [r, c], r.place, losers, v0, f, |log|)
    ensures RightFrom(log + [r, c], r.place, losers, |log|, r.After(), r.After()) <==> Spared(log + [r, c], r.place, f,
      |log|, r.After())
  {
    var log', x := log + [r, c], r.place;
    assert log'[|log| + 1] == c && !c.Touches(x);
    RedoNothing(log', x, |log| + 1, |log| + 2, r.After());
    LateUndo(log', x, losers, v0, f, |log|, r.After());
    hide Lost, UndoneFrom;
  }

  // The disk may hold an image from the course of a rollback.
  lemma RollingImage(s: Sys, t: int, x: Place, v0: Val, f: nat, k: nat)
    requires f < k <= |s.log| && t in s.txns && s.txns[t] == Rolling(0)
    requires forall i :: f <= i < |s.log| && s.log[i].Touches(x) ==> s.log[i].txn == t
    ensures DiskAt(s, x, v0, |s.log| - 1, ValueAt(s.log, x, v0, k), k)
  {
  }

  // A write that is not harmless goes wrong from the page written back, or from an image that the disk may hold.
  lemma HarmDone(w: World, s: Sys, t: int, r: LogRec, f: nat, losers: set<int>) returns (lsn: nat, v: Val, k: nat)
    requires Reused(w, s, t, r) && StartsAt(s, t, r.place, f) && !Harmless(s, r, f)
    requires Lost(LogThen(s, r), r.place, losers, Base(w.base, r.place), f, |s.log|)
    requires s.log[f].Before() == r.Before()
    requires Spared(LogThen(s, r), r.place, f, |s.log|, r.After())
    ensures lsn < |s.log| && DiskAt(s, r.place, Base(w.base, r.place), lsn, v, k)
    ensures !RightFrom(LogThen(s, r), r.place, losers, lsn, v, r.After())
  {
    AbortedFacts(w, s, t, r, f);
    hide Reused, Lost, StartsAt, Harmless, Spared, DiskAt, RightFrom, OnlyUpdates, Once, Faithful;
    var x, v0 := r.place, Base(w.base, r.place);
    SparedUpdates(s.log, r, f);
    NotHarmless(s, r, f);
    lsn, v, k := EmptyAt(s, t, r, v0, f);
    EmptyImage(s.log, r, Commit(r.txn), losers);
  }

  lemma AbortedFacts(w: World, s: Sys, t: int, r: LogRec, f: nat)
    requires Reused(w, s, t, r) && StartsAt(s, t, r.place, f)
    ensures r.Data() && t in s.txns && s.txns[t] == Rolling(0) && f < |s.log| && s.log[f].Data()
      && s.log[f].Touches(r.place)
    ensures forall i :: f <= i < |s.log| && s.log[i].Touches(r.place) ==> s.log[i].txn == t
    ensures Faithful(s.log, r.place, Base(w.base, r.place))
  {
    Unguarded(w, s, t, r);
    OthersBefore(w, s, t, r.place, f);
    hide Inv, LogOk, Apply, Enabled, Written;
  }

  lemma NotHarmless(s: Sys, r: LogRec, f: nat)
    requires r.Data()
    ensures Harmless(s, r, f) <==>
      OnlyUpdates(s.log, r.place, f, |s.log|) && (r.Delete? || (r.Update? && r.After() == r.Before()))
  {
  }

  // The image in which the place is empty, and an update is still to be redone.
  lemma EmptyAt(s: Sys, t: int, r: LogRec, v0: Val, f: nat) returns (lsn: nat, v: Val, k: nat)
    requires r.Update? && f < |s.log| && s.log[f].Touches(r.place) && s.log[f].Before() == r.Before() && t in s.txns
      && s.txns[t] == Rolling(0)
    requires forall i :: f <= i < |s.log| && s.log[i].Touches(r.place) ==> s.log[i].txn == t
    requires Faithful(s.log, r.place, v0)
    requires if r.After() == r.Before() then !OnlyUpdates(s.log, r.place, f, |s.log|)
      else s.log[f].Delete? && Once(s.log, r.place, f, |s.log|)
    ensures lsn == |s.log| - 1 && v == Absent && DiskAt(s, r.place, v0, lsn, v, k)
  {
    var x := r.place;
    lsn, v := |s.log| - 1, Absent;
    if r.After() == r.Before() {
      k := SomewhereEmpty(s.log, x, v0, f);
    } else {
      k := |s.log|;
      ValueSame(s.log, x, v0, f + 1, |s.log|);
    }
    hide DiskAt, OnlyUpdates, Once, Faithful;
    RollingImage(s, t, x, v0, f, k);
  }

  // What a write must be that the page written back survives.
  lemma SparedUpdates(log: Log, r: LogRec, f: nat)
    requires r.Data() && f < |log| && log[f].Touches(r.place) && log[f].Before() == r.Before()
    requires Spared(log + [r, Commit(r.txn)], r.place, f, |log|, r.After())
    ensures r.Delete? ==> OnlyUpdates(log, r.place, f, |log|)
    ensures !r.Delete? ==> r.Update? && (r.After() == r.Before() || (log[f].Delete? && Once(log, r.place, f, |log|)))
  {
    var log' := log + [r, Commit(r.txn)];
    assert log'[f] == log[f] && forall i :: 0 <= i < |log| ==> log'[i] == log[i];
  }

  /**
   Which writes into a place that an abort has rolled back are safe: recovery goes through and keeps the
   committed value, whatever image of the page the crash finds on the disk, if and only if the aborted
   transaction only updated the place, and the write deletes the record or puts the same record back.
   */
  lemma ReuseHarmless(w: World, s: Sys, t: int, r: LogRec, f: nat, v: Verdict)
    requires Reused(w, s, t, r) && StartsAt(s, t, r.place, f)
    requires var log := LogThen(s, r); Analyzed(log, |log|, v)
    ensures var log, x := LogThen(s, r), r.place;
      Harmless(s, r, f) <==>
        (RightFrom(log, x, Losers(v), |s.log|, r.After(), r.After())
         && forall lsn: nat, val, k: nat :: lsn < |s.log| && DiskAt(s, x, Base(w.base, x), lsn, val, k) ==>
              RightFrom(log, x, Losers(v), lsn, val, r.After()))
  {
    var log, x, v0 := LogThen(s, r), r.place, Base(w.base, r.place);
    LostThere(w, s, t, r, f, v);
    WrittenBackRight(s.log, r, Commit(r.txn), Losers(v), v0, f);
    Unguarded(w, s, t, r);
    hide Inv, LogOk, PlaceInv, Apply, Enabled, Analyzed, Lost, RightFrom, Losers, DiskAt;
    if Harmless(s, r, f) {
      forall lsn: nat, val, k: nat | lsn < |s.log| && DiskAt(s, x, v0, lsn, val, k) ensures RightFrom(log, x, Losers(v),
        lsn, val, r.After()) {
        var m := ImageRedone(w, s, t, x, f, lsn, val, k);
        NeverEmpty(s.log, x, v0, f, m);
        HarmlessOutcome(s.log, log, r, f, ValueAt(s.log, x, v0, m));
        RightAfter(s.log, r, Commit(r.txn), Losers(v), v0, f, lsn, val);
      }
      HarmlessSpared(s.log, log, r, f);
    } else if Spared(log, x, f, |s.log|, r.After()) {
      var lsn, val, k := HarmDone(w, s, t, r, f, Losers(v));
    }
  }

  lemma HarmlessSpared(log: Log, log': Log, r: LogRec, f: nat)
    requires r.Data() && f < |log| && log <= log' && log[f].Touches(r.place) && log[f].Before() == r.Before()
    requires OnlyUpdates(log, r.place, f, |log|) && (r.Delete? || (r.Update? && r.After() == r.Before()))
    ensures log'[f].Data() && Spared(log', r.place, f, |log|, r.After())
  {
    assert log'[f] == log[f] && forall i :: 0 <= i < |log| ==> log'[i] == log[i];
  }
}