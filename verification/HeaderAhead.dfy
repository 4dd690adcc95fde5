/**
 The closing writes of recovery, and those of a shutdown, put the header of a table on disk ahead of the pages it
 counts.  A crash in between leaves a file that is too short for its header, and no later start-up gets past it.
 */
module HeaderAhead {
  import opened RecordIds
  import opened Conditions
  import opened RecoveryLog
  import opened Recovery
  import opened CrashRuns
  import opened RecoveryCuts

  const ROW := Place(0, Rid(1, 0))

  // One transaction inserts a record into an empty table and commits; its page never reaches the disk.
  function World0(): World {
    World(map[0 := 1], map[])
  }

  function Sys0(): Sys {
    Sys([], 0, map[], map[], map[], map[], {})
  }

  function OneInsert(rec: Record): seq<Event> {
    [EvBegin(0), EvWrite(Insert(0, ROW, rec)), EvCommit(0)]
  }

  function OneLog(rec: Record): Log {
    [Begin(0), Insert(0, ROW, rec), Commit(0)]
  }

  // The file with its header only, and with the header that recovery writes when it has extended the file.
  function Before(): Db {
    map[0 := TableFile(1, map[])]
  }

  function Ahead(): Db {
    map[0 := TableFile(2, map[])]
  }

  lemma OneRun(rec: Record)
    ensures Start(World0(), Sys0()) && Runs(World0(), Sys0(), OneInsert(rec))
    ensures var s := After(Sys0(), OneInsert(rec));
      s.log == OneLog(rec) && Torn(s, 3) && FilesOf(World0(), s, Before()) && FilesOf(World0(), s, Ahead())
  {
    var s1 := Apply(Sys0(), EvBegin(0));
    var s2 := Apply(s1, EvWrite(Insert(0, ROW, rec)));
    var s3 := Apply(s2, EvCommit(0));
    var es := OneInsert(rec);
    assert es[1..] == [es[1], es[2]] && es[1..][1..] == [es[2]] && es[1..][1..][1..] == [];
    assert After(s3, []) == s3 && Runs(World0(), s3, []);
    assert Enabled(World0(), s2, es[2]) && After(s2, [es[2]]) == s3 && Runs(World0(), s2, [es[2]]);
    assert Enabled(World0(), s1, es[1]) && After(s1, es[1..]) == s3 && Runs(World0(), s1, es[1..]);
    assert Enabled(World0(), Sys0(), es[0]);
    assert s3.log == OneLog(rec);
  }

  lemma OneAnalyzed(rec: Record, v: Verdict)
    requires Analyzed(OneLog(rec), 3, v)
    ensures v.active + v.aborted == {}
  {
    var log := OneLog(rec);
    assert log[2] == Commit(0) && log[2].Ends(0);
    forall t ensures t !in v.active && t !in v.aborted {
      assert forall i :: 0 <= i < 3 ==> log[i] != Abort(t);
      assert forall i :: -1 <= i < 2 ==> EndedAfter(log, i, 3, 0);
    }
  }

  // Recovery from the short file has extended it, has written its header, and is cut before its page is written.
  lemma HeaderFirst(rec: Record)
    ensures DbOk(Before()) && Cut(Before(), OneLog(rec), {}, Ahead()) && CountsTooMany(Ahead()) && !DbOk(Ahead())
  {
    var log := OneLog(rec);
    assert RedoLog(Before(), log, 0) == Before() && RedoLog(Before(), log, 1) == Before();
    ExtendedIs(Before()[0], log[1]);
    assert RedoLog(Before(), log, 2)[0].numPages == 2;
    assert RedoLog(Before(), log, 3) == RedoLog(Before(), log, 2);
    assert EndCount(Before(), log, 0) == 2;
    assert Ahead()[0].numPages > FileLength(Ahead()[0]);
    assert !Complete(Ahead()[0]) by {
      assert 1 !in Ahead()[0].pages;
    }
  }

  // Files that recovery cannot read stay as they are.
  lemma {:induction false} Stuck(disks: seq<Db>, log: Log, losers: set<int>, m: nat, i: nat)
    requires m <= i < |disks| && CutsInRow(disks, log, losers) && !DbOk(disks[m])
    ensures disks[i] == disks[m]
    decreases i
  {
    hide DbOk;
    if i > m {
      Stuck(disks, log, losers, m, i - 1);
      assert Cut(disks[i - 1], log, losers, disks[i - 1 + 1]);
    }
  }

  // The record was committed, but once the header is ahead, by a shutdown or by a recovery, start-up throws, and so
  // does every later one.
  method NeverAgain(rec: Record, ghost disks: seq<Db>, disk: Db) returns (thrown: bool)
    requires |disks| >= 1 && (disks[0] == Ahead() || (|disks| >= 2 && disks[0] == Before() && disks[1] == Ahead()))
    requires disk == disks[|disks| - 1]
    requires CutsInRow(disks, OneLog(rec), {})
    ensures thrown
  {
    OneRun(rec);
    HeaderFirst(rec);
    Stuck(disks, OneLog(rec), {}, if disks[0] == Ahead() then 0 else 1, |disks| - 1);
    hide Start, Runs, After, Torn, FilesOf, CutsInRow, Analyzed, CountsTooMany, HasCommit, WonAt, At;
    forall v | Analyzed(OneLog(rec), 3, v) ensures v.active + v.aborted == {} {
      OneAnalyzed(rec, v);
    }
    ghost var winners;
    var db;
    assert OneLog(rec)[..3] == OneLog(rec);
    thrown, db, winners := CrashesAndRecover(World0(), Sys0(), OneInsert(rec), disks, disk, OneLog(rec));
  }

  lemma OneWinner(rec: Record, winners: set<int>)
    requires HasCommit(OneLog(rec), 0) ==> 0 in winners
    ensures WonAt(OneLog(rec), ROW, Base(map[], ROW), 3, winners) == Present(rec)
  {
    assert OneLog(rec)[2] == Commit(0);
    assert WonAt(OneLog(rec), ROW, Absent, 1, winners) == Absent;
    assert WonAt(OneLog(rec), ROW, Absent, 2, winners) == Present(rec);
  }

  // Had nobody cut the first recovery, the record would be there.
  method OnceMore(rec: Record) returns (thrown: bool, db: Db)
    ensures !thrown && At(db, ROW) == Present(rec)
  {
    OneRun(rec);
    HeaderFirst(rec);
    TooManyOrOk(Before());
    hide Start, Runs, After, Torn, FilesOf, Analyzed, CountsTooMany, At, WonAt, HasCommit, DbOk, Cut;
    ghost var winners;
    assert OneLog(rec)[..3] == OneLog(rec);
    thrown, db, winners := CrashesAndRecover(World0(), Sys0(), OneInsert(rec), [Before()], Before(), OneLog(rec));
    OneWinner(rec, winners);
  }
}
