/**
 That the runs of CrashRuns and the interleavings of Serializable get on: whoever runs can write what it may, can
 commit, and can abort and be rolled back; and a lock that nobody else's stands against is granted.
 */
module RunProgress {
  import opened RecordIds
  import opened Conditions
  import opened RecoveryLog
  import opened Recovery
  import opened CrashRuns
  import opened ReuseRuns
  import opened ReuseReached
  import Locks
  import Serializable

  // The record of a change from what is there to what is wanted.
  function ChangeTo(t: int, x: Place, found: Val, want: Val): LogRec
    requires found.Present? || want.Present?
  {
    match (found, want)
    case (Absent, Present(rec)) => Insert(t, x, rec)
    case (Present(rec), Absent) => Delete(t, x, rec)
    case (Present(before), Present(after)) => Update(t, x, before, after)
  }

  // A running transaction may give a place of a table it may lock any record or none; then memory shows just that.
  lemma WriteShows(w: World, s: Sys, t: int, x: Place, want: Val)
    requires t in s.txns && s.txns[t] == Running && x.tab in w.headers && x.rid.pageNo >= FIRST_RECORD_PAGE
    requires (x.tab in s.owner ==> s.owner[x.tab] == t) && x !in s.spoilt
    requires ValueIn(s.mem, x).Present? || want.Present?
    ensures var r := ChangeTo(t, x, ValueIn(s.mem, x), want);
      && Enabled(w, s, EvWrite(r)) && r.txn == t
      && (forall y :: ValueIn(Apply(s, EvWrite(r)).mem, y) == if y == x then want else ValueIn(s.mem, y))
  {
  }

  // A running transaction can commit, and its records are on disk then.
  lemma CommitEnds(w: World, s: Sys, t: int)
    requires t in s.txns && s.txns[t] == Running
    ensures Enabled(w, s, EvCommit(t))
    ensures var s' := Apply(s, EvCommit(t));
      && s'.txns[t] == Committed && s'.flushed == |s'.log| && s'.mem == s.mem
      && forall tab :: tab in s'.owner ==> s'.owner[tab] != t
  {
  }

  lemma {:induction false} RollsBack(w: World, s: Sys, t: int) returns (events: seq<Event>)
    requires Inv(w, s) && t in s.txns && s.txns[t].Rolling?
    ensures Runs(w, s, events) && After(s, events).log == s.log
    ensures t in After(s, events).txns && After(s, events).txns[t] == Rolling(0)
    decreases if t in s.txns && s.txns[t].Rolling? then s.txns[t].pos else 0
  {
    if s.txns[t].pos == 0 {
      events := [];
    } else {
      RollStep(w, s, t);
      InvKept(w, s, EvRollback(t));
      hide Inv, Enabled, Apply;
      var rest := RollsBack(w, Apply(s, EvRollback(t)), t);
      events := [EvRollback(t)] + rest;
      assert events[1..] == rest;
    }
  }

  lemma RollStep(w: World, s: Sys, t: int)
    requires Inv(w, s) && t in s.txns && s.txns[t].Rolling? && s.txns[t].pos > 0
    ensures Enabled(w, s, EvRollback(t))
    ensures var s' := Apply(s, EvRollback(t));
      s'.log == s.log && t in s'.txns && s'.txns[t] == Rolling(s.txns[t].pos - 1)
  {
    assert LogOk(w, s) && VerdictsOk(s);
    hide LocksOk, RunnersHold, PlaceInv;
  }

  /**
   A running transaction can abort: it is rolled back to its beginning, every place shows again what the transaction
   found there first, and its tables are free.
   */
  lemma AbortEnds(w: World, s0: Sys, events: seq<Event>, t: int) returns (more: seq<Event>)
    requires Start(w, s0) && Runs(w, s0, events)
    requires t in After(s0, events).txns && After(s0, events).txns[t] == Running
    ensures Runs(w, s0, events + more)
    ensures var s := After(s0, events + more);
      && t in s.txns && s.txns[t] == Rolling(0) && s.log == After(s0, events).log + [Abort(t)]
      && (forall tab :: tab in s.owner ==> s.owner[tab] != t)
      && (forall x: Place, f: nat :: x.tab in w.headers && x.rid.pageNo >= FIRST_RECORD_PAGE && StartsAt(s, t, x, f) ==>
            ValueIn(s.mem, x) == s.log[f].Before())
  {
    var s := After(s0, events);
    StartInv(w, s0);
    RunInv(w, s0, events);
    var s1 := Apply(s, EvAbort(t));
    assert Enabled(w, s, EvAbort(t)) && s1.log == s.log + [Abort(t)] && t in s1.txns && s1.txns[t].Rolling?;
    InvKept(w, s, EvAbort(t));
    hide Inv, Start;
    var back := RollsBack(w, s1, t);
    var s2 := After(s1, back);
    var s3 := Apply(s2, EvRelease(t));
    assert Enabled(w, s2, EvRelease(t));
    assert s3.log == s2.log && s3.txns == s2.txns && forall tab :: tab in s3.owner ==> s3.owner[tab] != t;
    hide Enabled, Apply;
    OneStep(w, s2, EvRelease(t));
    OneStep(w, s, EvAbort(t));
    RunsOn(w, s1, back, [EvRelease(t)]);
    RunsOn(w, s, [EvAbort(t)], back + [EvRelease(t)]);
    more := [EvAbort(t)] + (back + [EvRelease(t)]);
    RunsOn(w, s0, events, more);
    RunInv(w, s0, events + more);
    FoundAll(w, s3, t);
  }

  lemma OneStep(w: World, s: Sys, e: Event)
    requires Enabled(w, s, e)
    ensures Runs(w, s, [e]) && After(s, [e]) == Apply(s, e)
  {
    hide Enabled, Apply;
    assert [e][1..] == [];
    assert After(Apply(s, e), []) == Apply(s, e) && Runs(w, Apply(s, e), []);
  }

  lemma FoundAll(w: World, s: Sys, t: int)
    requires Inv(w, s) && t in s.txns && s.txns[t] == Rolling(0)
    ensures forall x: Place, f: nat ::
      x.tab in w.headers && x.rid.pageNo >= FIRST_RECORD_PAGE && StartsAt(s, t, x, f) ==>
        ValueIn(s.mem, x) == s.log[f].Before()
  {
    forall x: Place, f: nat | x.tab in w.headers && x.rid.pageNo >= FIRST_RECORD_PAGE && StartsAt(s, t, x, f)
      ensures ValueIn(s.mem, x) == s.log[f].Before()
    {
      assert LogOk(w, s) && PlaceInv(w, s, x);
      hide Inv, LogOk, PlaceInv;
      FoundAgain(w, s, t, x, f);
    }
  }

  // ---------------------------------------------------------------- locks

  // What a lock request leads to that nothing stands against.
  lemma Granted(table: map<Locks.LockId, Locks.Queue>, txns: map<int, Locks.Txn>, t: int, id: Locks.LockId,
          mode: Locks.Mode)
    returns (table': map<Locks.LockId, Locks.Queue>, txns': map<int, Locks.Txn>)
    requires Locks.TableOk(table, txns) && t in txns && txns[t].state != Locks.Shrinking
    requires !Locks.Blocked(Locks.RequestsOf(table, id), t, mode)
    ensures Locks.TableOk(table', txns') && Locks.Covered(Locks.RequestsOf(table', id), t, mode)
    ensures Locks.Acquires(table, txns, table', txns', t, id, mode, Locks.Granted)
  {
    hide Locks.TableOk, Locks.Blocked, Locks.GroupOf, Locks.WithRequest, Locks.OthersKeep, Locks.Stronger,
      Locks.InQueue, Locks.Covered;
    var reqs := Locks.RequestsOf(table, id);
    var k := OwnRequest(reqs, t);
    var state := if txns[t].state == Locks.Default then Locks.Growing else txns[t].state;
    var grown := txns[t := txns[t].(state := state)];
    Locks.StateMoves(table, txns, t, state);
    Locks.CoveredAt(table, grown, id, k, t, mode);
    if k < |reqs| && Locks.Stronger(reqs[k].mode, mode) {
      Locks.AlreadyHeld(table, grown, id, k, mode);
      Locks.OthersKeepSame(reqs, t);
      assert grown[t].lockSet + {id} == grown[t].lockSet;
      table', txns' := table, grown;
    } else {
      var group := Locks.GroupOf(Locks.WithRequest(reqs, k, t, mode));
      Locks.GrantKept(table, grown, id, k, t, mode, group);
      var q := Locks.Queue(Locks.WithRequest(reqs, k, t, mode), group);
      table', txns' := table[id := q], grown[t := grown[t].(lockSet := grown[t].lockSet + {id})];
      NowCovered(q.requests, t, mode);
    }
  }

  // A running transaction gets the table lock it asks for if it has given none back and nobody's request stands
  // against it.
  lemma LockGranted(base: map<int, Serializable.Content>, s: Serializable.Sys, t: int, tab: int, mode: Locks.Mode)
    returns (s': Serializable.Sys)
    requires Serializable.Inv(base, s) && Serializable.InPhase(s, t, Serializable.Running)
    requires t in s.txns && s.txns[t].state != Locks.Shrinking && mode in {Locks.S, Locks.X}
    requires !Locks.Blocked(Locks.RequestsOf(s.locks, Serializable.TableLock(tab)), t, mode)
    ensures Serializable.Step(s, Serializable.EvLock(t, tab, mode, Locks.Granted), s')
    ensures Serializable.Locked(s'.locks, t, tab, mode)
  {
    assert Locks.TableOk(s.locks, s.txns) && t in s.txns;
    hide Serializable.Inv, Locks.TableOk, Locks.Blocked, Locks.Acquires, Locks.Covered;
    var locks, txns := Granted(s.locks, s.txns, t, Serializable.TableLock(tab), mode);
    s' := Serializable.Sys(locks, txns, s.data, s.hist, s.order);
  }

  // With the lock a transaction reads what is there, or leaves any content it wants.
  lemma ReadAndWrite(s: Serializable.Sys, t: int, tab: int, after: Serializable.Content)
    requires Serializable.InPhase(s, t, Serializable.Running)
    ensures Serializable.Locked(s.locks, t, tab, Locks.S) ==> exists s' ::
      Serializable.Step(s, Serializable.EvRead(t, tab), s') && s'.data == s.data
        && s'.hist[t].ops == s.hist[t].ops + [Serializable.Read(tab, Serializable.At(s.data, tab))]
    ensures Serializable.Locked(s.locks, t, tab, Locks.X) ==> exists s' ::
      Serializable.Step(s, Serializable.EvWrite(t, tab, after), s') && s'.data == s.data[tab := after]
        && s'.hist[t].ops == s.hist[t].ops + [Serializable.Write(tab, after)]
  {
    hide Serializable.Locked;
    var h, was := s.hist[t], Serializable.At(s.data, tab);
    var r := s.(hist := s.hist[t := h.(ops := h.ops + [Serializable.Read(tab, was)])]);
    var w := s.(data := s.data[tab := after],
      hist := s.hist[t := Serializable.History(Serializable.Running, h.ops + [Serializable.Write(tab, after)],
        h.writeSet + [Serializable.Before(tab, was)])]);
    if Serializable.Locked(s.locks, t, tab, Locks.S) {
      assert Serializable.Step(s, Serializable.EvRead(t, tab), r);
    }
    if Serializable.Locked(s.locks, t, tab, Locks.X) {
      assert Serializable.Step(s, Serializable.EvWrite(t, tab, after), w);
    }
  }

  // A new transaction may begin; a running one may commit, and is then last in the order, or abort; and an aborting one
  // may take back its last write.
  lemma BeginAndEnd(s: Serializable.Sys, t: int)
    ensures t !in s.hist ==> exists s' ::
      Serializable.Step(s, Serializable.EvBegin(t), s') && Serializable.InPhase(s', t, Serializable.Running)
    ensures Serializable.InPhase(s, t, Serializable.Running) ==> exists s' ::
      Serializable.Step(s, Serializable.EvCommit(t), s') && s'.order == s.order + [t] && s'.data == s.data
    ensures Serializable.InPhase(s, t, Serializable.Running) ==> exists s' ::
      Serializable.Step(s, Serializable.EvAbort(t), s') && Serializable.InPhase(s', t, Serializable.Aborting)
    ensures Serializable.InPhase(s, t, Serializable.Aborting) && s.hist[t].writeSet != [] ==> exists s' ::
      var last := Serializable.Last(s.hist[t]);
      Serializable.Step(s, Serializable.EvUndo(t), s') && s'.data == s.data[last.tab := last.content]
  {
    if t !in s.hist {
      var s' := s.(txns := s.txns[t := Locks.Txn(Locks.Default, {})],
        hist := s.hist[t := Serializable.History(Serializable.Running, [], [])]);
      assert Serializable.Step(s, Serializable.EvBegin(t), s');
    } else {
      var h := s.hist[t];
      var done := s.(hist := s.hist[t := Serializable.History(Serializable.Done, h.ops, [])], order := s.order + [t]);
      var aborting := s.(hist := s.hist[t := h.(phase := Serializable.Aborting)]);
      if h.phase == Serializable.Running {
        assert Serializable.Step(s, Serializable.EvCommit(t), done);
        assert Serializable.Step(s, Serializable.EvAbort(t), aborting);
      } else if h.phase == Serializable.Aborting && h.writeSet != [] {
        var last := Serializable.Last(h);
        var back := s.(data := s.data[last.tab := last.content],
          hist := s.hist[t := h.(writeSet := h.writeSet[..|h.writeSet| - 1])]);
        assert Serializable.Step(s, Serializable.EvUndo(t), back);
      }
    }
  }

  lemma NowCovered(reqs: seq<Locks.Request>, t: int, mode: Locks.Mode)
    requires Locks.Request(t, mode) in reqs
    ensures Locks.Covered(reqs, t, mode)
  {
    var i :| 0 <= i < |reqs| && reqs[i] == Locks.Request(t, mode);
    assert reqs[i].txn == t && Locks.Stronger(reqs[i].mode, mode);
  }

  lemma OwnRequest(reqs: seq<Locks.Request>, t: int) returns (k: nat)
    ensures k <= |reqs| && (k < |reqs| ==> reqs[k].txn == t) && (k == |reqs| <==> !Locks.InQueue(reqs, t))
  {
    if Locks.InQueue(reqs, t) {
      k :| 0 <= k < |reqs| && reqs[k].txn == t;
    } else {
      k := |reqs|;
    }
  }
}
