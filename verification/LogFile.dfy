/** From the bytes of the log file to recovery: what a crash leaves of the file, read and replayed. */
module LogFile {
  import opened RecordIds
  import opened Conditions
  import opened LogCodec
  import opened RecoveryLog
  import opened Recovery
  import opened CrashRuns
  import LogManager

  // How table names and record bytes are understood, and how they are written; a name that no open table has leads to
  // a number that none has.
  datatype Names = Names(tab: Bytes -> int, rec: Bytes -> Record, tabName: int -> Bytes, recBytes: Record -> Bytes)

  // ---------------------------------------------------------------- the writer

  const UPDATE := 0
  const INSERT := 1
  const DELETE := 2
  const BEGIN := 3
  const COMMIT := 4
  const ABORT := 5

  // The log record for an event, one case for each kind: its numbers, the values it carries, and the place.
  function Written(names: Names, r: LogRec, lsn: int, prev: int): Rec {
    match r
    case Begin(t) => Rec(BEGIN, lsn, t, prev, NoBody)
    case Commit(t) => Rec(COMMIT, lsn, t, prev, NoBody)
    case Abort(t) => Rec(ABORT, lsn, t, prev, NoBody)
    case Insert(t, x, rec) =>
      Rec(INSERT, lsn, t, prev, OneValue(names.recBytes(rec), x.rid.pageNo, x.rid.slotNo, names.tabName(x.tab)))
    case Delete(t, x, rec) =>
      Rec(DELETE, lsn, t, prev, OneValue(names.recBytes(rec), x.rid.pageNo, x.rid.slotNo, names.tabName(x.tab)))
    case Update(t, x, before, after) =>
      Rec(UPDATE, lsn, t, prev, TwoValues(names.recBytes(before), names.recBytes(after), x.rid.pageNo, x.rid.slotNo,
        names.tabName(x.tab)))
  }

  // Names and values in the record are understood as what they were written for.
  ghost predicate Understood(names: Names, r: LogRec) {
    r.Data() ==>
      && names.tab(names.tabName(r.place.tab)) == r.place.tab
      && match r
         case Update(_, _, before, after) =>
           names.rec(names.recBytes(before)) == before && names.rec(names.recBytes(after)) == after
         case _ => names.rec(names.recBytes(r.rec)) == r.rec
  }

  ghost predicate PlaceFits(names: Names, x: Place) {
    FitsIn(4, x.rid.pageNo) && FitsIn(4, x.rid.slotNo) && FitsIn(8, |names.tabName(x.tab)|)
  }

  // Numbers and lengths fit into their fields.
  ghost predicate WritesFit(names: Names, r: LogRec, lsn: int, prev: int) {
    && FitsIn(4, lsn) && FitsIn(8, r.txn) && FitsIn(4, prev) && FitsIn(4, TotLen(Written(names, r, lsn, prev)))
    && (r.Data() ==> PlaceFits(names, r.place))
    && match r
       case Insert(_, _, rec) => FitsIn(4, |names.recBytes(rec)|)
       case Delete(_, _, rec) => FitsIn(4, |names.recBytes(rec)|)
       case Update(_, _, before, after) => FitsIn(4, |names.recBytes(before)|) && FitsIn(4, |names.recBytes(after)|)
       case _ => true
  }

  // ---------------------------------------------------------------- the reader

  // What a log record says.
  function Meaning(names: Names, r: Rec): LogRec {
    match r.body
    case NoBody => if r.kind == 3 then Begin(r.tid) else if r.kind == 4 then Commit(r.tid) else Abort(r.tid)
    case OneValue(val, page, slot, tab) =>
      var x := Place(names.tab(tab), Rid(page, slot));
      if r.kind == 1 then Insert(r.tid, x, names.rec(val)) else Delete(r.tid, x, names.rec(val))
    case TwoValues(before, after, page, slot, tab) =>
      Update(r.tid, Place(names.tab(tab), Rid(page, slot)), names.rec(before), names.rec(after))
  }

  function Meanings(names: Names, recs: seq<Rec>): (log: Log)
    ensures |log| == |recs| && forall i :: 0 <= i < |recs| ==> log[i] == Meaning(names, recs[i])
  {
    seq(|recs|, i requires 0 <= i < |recs| => Meaning(names, recs[i]))
  }

  // What is read of a written record is the event it was written for, for each of the six kinds.
  lemma WrittenMeans(names: Names, r: LogRec, lsn: int, prev: int)
    requires Understood(names, r)
    ensures Meaning(names, Written(names, r, lsn, prev)) == r
    ensures WritesFit(names, r, lsn, prev) ==> Fits(Written(names, r, lsn, prev))
  {
    hide TotLen;
  }

  // A record is read back from its bytes as the event it was written for, whatever follows.
  lemma WrittenRead(names: Names, r: LogRec, lsn: int, prev: int, rest: Bytes)
    requires Understood(names, r) && WritesFit(names, r, lsn, prev)
    ensures var read := Decode(Encode(Written(names, r, lsn, prev)) + rest);
      read.Some? && Meaning(names, read.value) == r
  {
    WrittenMeans(names, r, lsn, prev);
    hide Meaning, Written, Understood, WritesFit;
    RecRoundTrip(Written(names, r, lsn, prev), rest);
  }

  // The log of a run as the log manager holds it: what the writer makes of its events, numbered in order, and as much
  // of that on disk as the run has flushed.
  ghost predicate LoggedAs(names: Names, s: Sys, recs: seq<Rec>, disk: Bytes, buffer: Bytes, persistLsn: int,
          lastInBuffer: int) {
    && |recs| == |s.log| && s.flushed == persistLsn + 1
    && (forall i :: 0 <= i < |recs| ==> recs[i] == Written(names, s.log[i], i, recs[i].prev))
    && (forall i :: 0 <= i < |recs| ==> Understood(names, s.log[i]) && WritesFit(names, s.log[i], i, recs[i].prev))
    && LogManager.LogOk(recs, 0, disk, buffer, |recs|, persistLsn, lastInBuffer)
  }

  function WrittenAll(names: Names, log: Log, prevs: seq<int>): (recs: seq<Rec>)
    requires |prevs| == |log|
    ensures |recs| == |log| && forall i :: 0 <= i < |log| ==> recs[i] == Written(names, log[i], i, prevs[i])
  {
    seq(|log|, i requires 0 <= i < |log| => Written(names, log[i], i, prevs[i]))
  }

  lemma WrittenNumbers(names: Names, r: LogRec, lsn: int, prev: int)
    ensures Written(names, r, lsn, prev).lsn == lsn && Written(names, r, lsn, prev).prev == prev
  {
  }

  lemma EncodedEmpty(recs: seq<Rec>)
    ensures EncodeAll(recs) == [] <==> recs == []
  {
    hide EncBody;
    if recs != [] {
      assert |Encode(recs[0])| == TotLen(recs[0]) > 0;
    }
  }

  // Every run has such a log: what the writer makes of the flushed events on disk, and the others in the buffer, as far
  // as it holds them.
  lemma LoggedExists(names: Names, s: Sys, prevs: seq<int>)
    requires s.flushed <= |s.log| == |prevs|
    requires forall i :: 0 <= i < |prevs| ==> Understood(names, s.log[i]) && WritesFit(names, s.log[i], i, prevs[i])
    requires |EncodeAll(WrittenAll(names, s.log, prevs)[s.flushed..])| <= LogManager.LOG_BUFFER_SIZE
    ensures var recs := WrittenAll(names, s.log, prevs);
      LoggedAs(names, s, recs, EncodeAll(recs[..s.flushed]), EncodeAll(recs[s.flushed..]), s.flushed - 1, |recs| - 1)
  {
    hide Understood, WritesFit, Written, Encode, EncodeAll, TotLen;
    var recs := WrittenAll(names, s.log, prevs);
    hide WrittenAll;
    forall i | 0 <= i < |recs| ensures recs[i].lsn == i && recs[i].prev == prevs[i] {
      WrittenNumbers(names, s.log[i], i, prevs[i]);
    }
    EncodedEmpty(recs[s.flushed..]);
  }

  lemma LoggedMeans(names: Names, s: Sys, recs: seq<Rec>, disk: Bytes, buffer: Bytes, persistLsn: int,
          lastInBuffer: int)
    requires LoggedAs(names, s, recs, disk, buffer, persistLsn, lastInBuffer)
    ensures AllFit(recs) && s.log == Meanings(names, recs) && s.flushed == persistLsn + 1
    ensures LogManager.LogOk(recs, 0, disk, buffer, |recs|, persistLsn, lastInBuffer)
  {
    hide LogManager.LogOk, Meaning, Written, Understood, WritesFit, Fits;
    forall i | 0 <= i < |recs| ensures Meaning(names, recs[i]) == s.log[i] && Fits(recs[i]) {
      WrittenMeans(names, s.log[i], i, recs[i].prev);
    }
  }

  // A log file torn at any byte of the buffer being written holds everything the run had flushed.
  lemma TornFile(names: Names, s: Sys, recs: seq<Rec>, disk: Bytes, buffer: Bytes, persistLsn: int, lastInBuffer: int,
          cut: nat)
    requires LoggedAs(names, s, recs, disk, buffer, persistLsn, lastInBuffer) && cut <= |buffer|
    ensures disk + buffer[..cut] <= EncodeAll(recs)
    ensures var n := Whole(recs, |disk| + cut); s.flushed <= n <= |s.log| && Meanings(names, recs[..n]) == s.log[..n]
  {
    LoggedMeans(names, s, recs, disk, buffer, persistLsn, lastInBuffer);
    hide LoggedAs, EncodeAll, Whole, Meaning, AllFit, LogManager.LogOk;
    LogManager.FlushedRecordsRead(recs, 0, disk, buffer, |recs|, persistLsn, lastInBuffer, cut);
    MeaningsPrefix(names, recs, Whole(recs, |disk| + cut));
  }

  lemma MeaningsPrefix(names: Names, recs: seq<Rec>, n: nat)
    requires n <= |recs|
    ensures Meanings(names, recs[..n]) == Meanings(names, recs)[..n]
  {
    hide Meaning;
  }

  // What is read of the file, and how the run goes on from there.
  lemma FileRead(names: Names, data: Bytes, s: Sys, recs: seq<Rec>, logDisk: Bytes, buffer: Bytes, persistLsn: int,
          lastInBuffer: int)
    requires LoggedAs(names, s, recs, logDisk, buffer, persistLsn, lastInBuffer)
    requires exists cut :: 0 <= cut <= |buffer| && data == logDisk + buffer[..cut]
    ensures AllFit(recs) && data <= EncodeAll(recs)
    ensures var n := Whole(recs, |data|);
      s.flushed <= n <= |s.log| && Meanings(names, recs[..n]) == s.log[..n] && (n > 0 ==> Torn(s, n))
  {
    hide LoggedAs, EncodeAll, Whole, Meaning, AllFit, LogManager.LogOk;
    LoggedMeans(names, s, recs, logDisk, buffer, persistLsn, lastInBuffer);
    var cut: nat :| cut <= |buffer| && data == logDisk + buffer[..cut];
    TornFile(names, s, recs, logDisk, buffer, persistLsn, lastInBuffer, cut);
  }

  /**
   Start-up after a crash, from the bytes on disk: the records that lie wholly in the file are analysed, redone
   and undone.  It goes through if and only if every table file holds the pages its header counts.  What is left is
   what the transactions with a commit record among them would have left, and each transaction whose commit has
   returned is one of these.
   */
  method RecoverFile(names: Names, data: Bytes, disk: Db, ghost w: World, ghost s0: Sys, ghost events: seq<Event>,
          ghost recs: seq<Rec>,
                     ghost logDisk: Bytes, ghost buffer: Bytes, ghost persistLsn: int, ghost lastInBuffer: int)
    returns (thrown: bool, db: Db, ghost n: nat, ghost winners: set<int>)
    requires Start(w, s0) && Runs(w, s0, events) && FilesOf(w, After(s0, events), disk)
    requires LoggedAs(names, After(s0, events), recs, logDisk, buffer, persistLsn, lastInBuffer)
    requires exists cut :: 0 <= cut <= |buffer| && data == logDisk + buffer[..cut]
    ensures (thrown <==> !DbOk(disk)) && After(s0, events).flushed <= n <= |After(s0, events).log|
    ensures var log := After(s0, events).log[..n];
      && (!thrown ==> forall x: Place :: x.tab in disk ==> At(db, x) == WonAt(log, x, Base(w.base, x), n, winners))
      && (forall t :: t in winners <==> HasCommit(log, t))
    ensures forall t :: t in After(s0, events).txns && After(s0, events).txns[t] == Committed ==> t in winners
  {
    hide Start, Runs, After, FilesOf, DbOk, LoggedAs, EncodeAll, Whole, AllFit, WonAt, At, HasCommit, Meaning, Torn,
      Meanings;
    ghost var s := After(s0, events);
    FileRead(names, data, s, recs, logDisk, buffer, persistLsn, lastInBuffer);
    var out := ReadLog(data, recs);
    n := Whole(recs, |data|);
    var log := Meanings(names, out);
    if |log| == 0 {
      NothingLogged(w, s0, events, disk);
      var manager := new RecoveryManager(log, disk);
      thrown := manager.ReadPages();
      db, winners := manager.db, {};
    } else {
      thrown, db, winners := CrashAndRecover(w, s0, events, disk, log);
    }
  }

  // Nothing had been flushed: the disk is as at the start, and nobody has committed.
  lemma NothingLogged(w: World, s0: Sys, events: seq<Event>, disk: Db)
    requires Start(w, s0) && Runs(w, s0, events) && After(s0, events).flushed == 0
      && FilesOf(w, After(s0, events), disk)
    ensures var s := After(s0, events);
      && (forall x: Place :: x.tab in disk ==> At(disk, x) == WonAt(s.log[..0], x, Base(w.base, x), 0, {}))
      && (forall t :: !HasCommit(s.log[..0], t))
      && (forall t :: t in s.txns ==> s.txns[t] != Committed)
    ensures DbOk(disk) <==> !exists tab, p :: Missing(disk, tab, p)
  {
    var s := After(s0, events);
    StartInv(w, s0);
    RunInv(w, s0, events);
    assert WorldOk(w) && VerdictsOk(s);
    assert forall tab :: tab in disk ==> Shaped(disk[tab]);
    ShortIsMissing(disk);
    hide Inv, Runs, Start, After, LocksOk, FilesOf;
    forall t | t in s.txns ensures s.txns[t] != Committed {
      assert s.txns[t] == Committed ==> OnDisk(s, Commit(t));
    }
    forall x: Place | x.tab in disk ensures At(disk, x) == WonAt(s.log[..0], x, Base(w.base, x), 0, {}) {
      NothingFlushed(w, s, disk, x);
    }
  }
}
