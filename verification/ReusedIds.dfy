/** Transaction ids that are used twice: the counter starts again in each process, and the log goes on. */
module ReusedIds {
  import opened Conditions
  import opened RecoveryLog
  import opened ReusedPlaces
  import opened Recovery

  ghost predicate Commits(log: Log, t: int) {
    exists i :: 0 <= i < |log| && log[i] == Commit(t)
  }

  ghost predicate Aborts(log: Log, t: int) {
    exists i :: 0 <= i < |log| && log[i] == Abort(t)
  }

  // Every begin of the id is followed by a commit of it.
  ghost predicate BeginsCommitted(log: Log, t: int) {
    forall i :: 0 <= i < |log| && log[i] == Begin(t) ==> exists j :: i < j < |log| && log[j] == Commit(t)
  }

  /**
   The changes logged under an id stand if and only if the log has a commit of the id, no abort of it, and no
   begin of it behind the last commit.
   */
  lemma WhichIdsStand(log: Log, v: Verdict, t: int)
    requires Analyzed(log, |log|, v)
    ensures t in Winners(v) <==> Commits(log, t) && !Aborts(log, t) && BeginsCommitted(log, t)
  {
    if !Aborts(log, t) {
      forall i | -1 <= i < |log|
        ensures EndedAfter(log, i, |log|, t) <==> exists j :: i < j < |log| && log[j] == Commit(t)
      {
        EndsByCommit(log, i, t);
      }
      if Commits(log, t) {
        var c :| 0 <= c < |log| && log[c] == Commit(t);
        assert EndedAfter(log, -1, |log|, t);
      }
    }
  }

  lemma EndsByCommit(log: Log, i: int, t: int)
    requires -1 <= i < |log| && !Aborts(log, t)
    ensures EndedAfter(log, i, |log|, t) <==> exists j :: i < j < |log| && log[j] == Commit(t)
  {
    if EndedAfter(log, i, |log|, t) {
      var j :| i < j < |log| && log[j].Ends(t);
      var r := log[j];
      assert r == Commit(t) || r == Abort(t);
    }
    if exists j :: i < j < |log| && log[j] == Commit(t) {
      var j :| i < j < |log| && log[j] == Commit(t);
      assert log[j].Ends(t);
    }
  }

  // Id 0 commits an insertion, and after a restart begins again: the committed insertion is undone.
  lemma IdUsedTwice(x: Place, a: Record, v: Verdict)
    requires var log := [Begin(0), Insert(0, x, a), Commit(0), Begin(0)]; Analyzed(log, 4, v)
    ensures 0 in v.committed && 0 in v.active && 0 !in Winners(v)
    ensures var log := [Begin(0), Insert(0, x, a), Commit(0), Begin(0)];
      UndoneFrom(log, x, 4, v.active + v.aborted, Present(a)) == Absent
  {
    var log := [Begin(0), Insert(0, x, a), Commit(0), Begin(0)];
    assert log[2] == Commit(0) && log[3] == Begin(0) && !EndedAfter(log, 3, 4, 0);
    assert log[1].Touches(x);
    LateUndoValue(log, x, v.active + v.aborted, Absent, 1, 2, Present(a));
  }
}
