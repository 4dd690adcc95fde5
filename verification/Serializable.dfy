/**
 Interleaved transactions under table locks: every run is as if the committed transactions had run
 one after the other, in the order of their commit records.
 */
module Serializable {
  import opened Locks

  // What a table holds: the record at each rid, packed as numbers.
  type Content = map<int, int>

  // One statement: it saw a table, or left a table with new content.
  datatype Op = Read(tab: int, seen: Content) | Write(tab: int, after: Content)

  // A write record of the transaction: the table as it was.
  datatype Before = Before(tab: int, content: Content)

  datatype Phase = Running | Aborting | Done

  datatype History = History(phase: Phase, ops: seq<Op>, writeSet: seq<Before>)

  // order: the transactions with a commit record, in log order.
  datatype Sys = Sys(locks: map<LockId, Queue>, txns: map<int, Txn>,
                     data: map<int, Content>, hist: map<int, History>, order: seq<int>)

  datatype Event =
    | EvBegin(t: int)
    | EvLock(t: int, tab: int, mode: Mode, out: Outcome)
    | EvRead(t: int, tab: int)
    | EvWrite(t: int, tab: int, after: Content)
    | EvCommit(t: int)
    | EvAbort(t: int)
    | EvUndo(t: int)
    | EvUnlock(t: int, id: LockId)

  function TableLock(tab: int): LockId {
    LockId(tab, false, -1, -1)
  }

  function At(data: map<int, Content>, tab: int): Content {
    if tab in data then data[tab] else map[]
  }

  function Last(h: History): Before
    requires h.writeSet != []
  {
    h.writeSet[|h.writeSet| - 1]
  }

  // ---------------------------------------------------------------- steps

  ghost predicate InPhase(s: Sys, t: int, phase: Phase) {
    t in s.hist && s.hist[t].phase == phase
  }

  ghost predicate Locked(locks: map<LockId, Queue>, t: int, tab: int, mode: Mode) {
    Covered(RequestsOf(locks, TableLock(tab)), t, mode)
  }

  ghost predicate Step(s: Sys, e: Event, s': Sys) {
    match e
    case EvBegin(t) =>
      && t !in s.hist
      && s' == s.(txns := s.txns[t := Txn(Default, {})], hist := s.hist[t := History(Running, [], [])])
    case EvLock(t, tab, mode, out) =>
      && InPhase(s, t, Running) && (mode == S || mode == X)
      && TableOk(s'.locks, s'.txns)
      && Acquires(s.locks, s.txns, s'.locks, s'.txns, t, TableLock(tab), mode, out)
      && s' == Sys(s'.locks, s'.txns, s.data,
                   if out == Granted then s.hist else s.hist[t := s.hist[t].(phase := Aborting)], s.order)
    case EvRead(t, tab) =>
      && InPhase(s, t, Running) && Locked(s.locks, t, tab, S)
      && s' == s.(hist := s.hist[t := s.hist[t].(ops := s.hist[t].ops + [Read(tab, At(s.data, tab))])])
    case EvWrite(t, tab, after) =>
      && InPhase(s, t, Running) && Locked(s.locks, t, tab, X)
      && s' == s.(data := s.data[tab := after],
                  hist := s.hist[t := History(Running, s.hist[t].ops + [Write(tab, after)],
                                              s.hist[t].writeSet + [Before(tab, At(s.data, tab))])])
    case EvCommit(t) =>
      InPhase(s, t, Running) && s' == s.(hist := s.hist[t := History(Done, s.hist[t].ops, [])], order := s.order + [t])
    case EvAbort(t) =>
      InPhase(s, t, Running) && s' == s.(hist := s.hist[t := s.hist[t].(phase := Aborting)])
    case EvUndo(t) =>
      && InPhase(s, t, Aborting) && s.hist[t].writeSet != []
      && s' == s.(data := s.data[Last(s.hist[t]).tab := Last(s.hist[t]).content],
                  hist := s.hist[t := s.hist[t].(writeSet := s.hist[t].writeSet[..|s.hist[t].writeSet| - 1])])
    case EvUnlock(t, id) =>
      && t in s.hist && s.hist[t].phase != Running && s.hist[t].writeSet == []
      && TableOk(s'.locks, s'.txns)
      && Releases(s.locks, s.txns, s'.locks, s'.txns, t, id)
      && s' == s.(locks := s'.locks, txns := s'.txns)
  }

  ghost predicate Start(s: Sys) {
    s.locks == map[] && s.txns == map[] && s.hist == map[] && s.order == []
  }

  ghost predicate Run(states: seq<Sys>, events: seq<Event>) {
    && |states| == |events| + 1 && Start(states[0])
    && forall i :: 0 <= i < |events| ==> Step(states[i], events[i], states[i + 1])
  }

  // ---------------------------------------------------------------- serial execution

  // The tables after the statements of one transaction.
  function Play(data: map<int, Content>, ops: seq<Op>): map<int, Content> {
    if ops == [] then data
    else
      var rest, op := Play(data, ops[..|ops| - 1]), ops[|ops| - 1];
      if op.Write? then rest[op.tab := op.after] else rest
  }

  // Run alone, the statements see what they saw.
  ghost predicate Reproduces(data: map<int, Content>, ops: seq<Op>) {
    forall i :: 0 <= i < |ops| && ops[i].Read? ==> At(Play(data, ops[..i]), ops[i].tab) == ops[i].seen
  }

  // The tables after the transactions, one after the other.
  ghost function Serial(base: map<int, Content>, hist: map<int, History>, order: seq<int>): map<int, Content> {
    if order == [] then base
    else
      var rest, t := Serial(base, hist, order[..|order| - 1]), order[|order| - 1];
      Play(rest, if t in hist then hist[t].ops else [])
  }

  ghost predicate SerialOk(base: map<int, Content>, hist: map<int, History>, order: seq<int>) {
    forall k :: 0 <= k < |order| ==> order[k] in hist && Reproduces(Serial(base, hist, order[..k]), hist[order[k]].ops)
  }

  // ---------------------------------------------------------------- facts about serial execution

  ghost predicate Touches(ops: seq<Op>, tab: int) {
    exists i :: 0 <= i < |ops| && ops[i].tab == tab
  }

  ghost predicate Wrote(ops: seq<Op>, tab: int) {
    exists i :: 0 <= i < |ops| && ops[i].tab == tab && ops[i].Write?
  }

  lemma {:induction false} PlayFrame(data: map<int, Content>, ops: seq<Op>, tab: int)
    requires !Wrote(ops, tab)
    ensures At(Play(data, ops), tab) == At(data, tab)
  {
    if ops != [] {
      var rest := ops[..|ops| - 1];
      forall i | 0 <= i < |rest| ensures !(rest[i].tab == tab && rest[i].Write?) {
        assert ops[i] == rest[i];
      }
      PlayFrame(data, rest, tab);
    }
  }

  // A transaction only depends on the tables it touches.
  lemma {:induction false} PlayAgrees(data: map<int, Content>, data': map<int, Content>, ops: seq<Op>, tab: int)
    requires At(data, tab) == At(data', tab)
    ensures At(Play(data, ops), tab) == At(Play(data', ops), tab)
  {
    if ops != [] {
      PlayAgrees(data, data', ops[..|ops| - 1], tab);
    }
  }

  lemma ReproducesAgrees(data: map<int, Content>, data': map<int, Content>, ops: seq<Op>)
    requires forall tab :: Touches(ops, tab) ==> At(data, tab) == At(data', tab)
    requires Reproduces(data, ops)
    ensures Reproduces(data', ops)
  {
    forall i | 0 <= i < |ops| && ops[i].Read? ensures At(Play(data', ops[..i]), ops[i].tab) == ops[i].seen {
      assert Touches(ops, ops[i].tab);
      PlayAgrees(data, data', ops[..i], ops[i].tab);
    }
  }

  lemma {:induction false} SerialSame(base: map<int, Content>, hist: map<int, History>, hist': map<int, History>,
          order: seq<int>)
    requires forall k :: 0 <= k < |order| ==>
      order[k] in hist && order[k] in hist' && hist'[order[k]].ops == hist[order[k]].ops
    ensures Serial(base, hist', order) == Serial(base, hist, order)
  {
    if order != [] {
      SerialSame(base, hist, hist', order[..|order| - 1]);
    }
  }

  lemma SerialOkSame(base: map<int, Content>, hist: map<int, History>, hist': map<int, History>, order: seq<int>)
    requires forall k :: 0 <= k < |order| ==>
      order[k] in hist && order[k] in hist' && hist'[order[k]].ops == hist[order[k]].ops
    requires SerialOk(base, hist, order)
    ensures SerialOk(base, hist', order)
  {
    forall k | 0 <= k < |order| ensures Reproduces(Serial(base, hist', order[..k]), hist'[order[k]].ops) {
      SerialSame(base, hist, hist', order[..k]);
    }
  }

  // One more statement.
  lemma OneMore(data: map<int, Content>, ops: seq<Op>, op: Op)
    requires Reproduces(data, ops)
    requires op.Read? ==> At(Play(data, ops), op.tab) == op.seen
    ensures Reproduces(data, ops + [op])
    ensures Play(data, ops + [op]) == if op.Write? then Play(data, ops)[op.tab := op.after] else Play(data, ops)
    ensures forall tab :: Touches(ops + [op], tab) <==> Touches(ops, tab) || tab == op.tab
    ensures forall tab :: Wrote(ops + [op], tab) <==> Wrote(ops, tab) || (tab == op.tab && op.Write?)
  {
    var more := ops + [op];
    assert more[..|ops|] == ops && more[|ops|] == op;
    forall i | 0 <= i < |more| && more[i].Read? ensures At(Play(data, more[..i]), more[i].tab) == more[i].seen {
      if i < |ops| {
        assert more[..i] == ops[..i] && ops[i] == more[i];
      }
    }
    forall tab ensures Touches(more, tab) <==> Touches(ops, tab) || tab == op.tab {
      if Touches(ops, tab) {
        var i :| 0 <= i < |ops| && ops[i].tab == tab;
        assert more[i].tab == tab;
      }
    }
    forall tab ensures Wrote(more, tab) <==> Wrote(ops, tab) || (tab == op.tab && op.Write?) {
      if Wrote(ops, tab) {
        var i :| 0 <= i < |ops| && ops[i].tab == tab && ops[i].Write?;
        assert more[i].tab == tab && more[i].Write?;
      }
    }
  }

  // ---------------------------------------------------------------- invariants

  ghost predicate Saved(writeSet: seq<Before>, tab: int) {
    exists i :: 0 <= i < |writeSet| && writeSet[i].tab == tab
  }

  ghost predicate Dirty(h: History, tab: int) {
    Saved(h.writeSet, tab)
  }

  // The content before the first write still to be undone.
  function First(writeSet: seq<Before>, tab: int, now: Content): Content {
    if writeSet == [] then now
    else if writeSet[0].tab == tab then writeSet[0].content
    else First(writeSet[1..], tab, now)
  }

  ghost predicate OnlySX(locks: map<LockId, Queue>) {
    forall id, r: Request :: r in RequestsOf(locks, id) ==> r.mode == S || r.mode == X
  }

  ghost predicate LocksOk(s: Sys) {
    TableOk(s.locks, s.txns) && OnlySX(s.locks) && s.txns.Keys == s.hist.Keys
  }

  // A running transaction still holds every lock it used, an aborting one those of what it has to undo.
  ghost predicate HeldTxn(locks: map<LockId, Queue>, t: int, h: History) {
    && (h.phase == Running ==> forall tab :: Touches(h.ops, tab) ==> Locked(locks, t, tab, S))
    && (h.phase == Running ==> forall tab :: Wrote(h.ops, tab) ==> Locked(locks, t, tab, X))
    && (forall tab :: Dirty(h, tab) ==> Locked(locks, t, tab, X))
    && (h.phase == Running ==> forall tab :: Dirty(h, tab) ==> Touches(h.ops, tab))
    && (h.phase == Done ==> h.writeSet == [])
  }

  ghost predicate HeldOk(s: Sys) {
    forall t :: t in s.hist ==> HeldTxn(s.locks, t, s.hist[t])
  }

  ghost predicate SomeoneDirty(hist: map<int, History>, tab: int) {
    exists t :: t in hist && Dirty(hist[t], tab)
  }

  // A table nobody has changed is as the committed transactions left it,
  ghost predicate CleanOk(c: map<int, Content>, data: map<int, Content>, hist: map<int, History>) {
    forall tab :: !SomeoneDirty(hist, tab) ==> At(data, tab) == At(c, tab)
  }

  // and otherwise the first write still to be undone found it so.
  ghost predicate FirstTxn(c: map<int, Content>, h: History) {
    forall tab :: Dirty(h, tab) ==> First(h.writeSet, tab, map[]) == At(c, tab)
  }

  ghost predicate FirstOk(c: map<int, Content>, hist: map<int, History>) {
    forall t :: t in hist ==> FirstTxn(c, hist[t])
  }

  // A running transaction sees what it would see if it ran now, alone, after the committed ones.
  ghost predicate ViewTxn(c: map<int, Content>, data: map<int, Content>, h: History) {
    h.phase == Running ==> Reproduces(c, h.ops) && forall tab :: Touches(h.ops, tab) ==>
      At(Play(c, h.ops), tab) == At(data, tab)
  }

  ghost predicate ViewOk(c: map<int, Content>, data: map<int, Content>, hist: map<int, History>) {
    forall t :: t in hist ==> ViewTxn(c, data, hist[t])
  }

  // The commit order lists every finished transaction once.
  ghost predicate Ordered(hist: map<int, History>, order: seq<int>) {
    && (forall k :: 0 <= k < |order| ==> order[k] in hist && hist[order[k]].phase == Done)
    && (forall t :: t in hist && hist[t].phase == Done ==> t in order)
    && (forall i, j :: 0 <= i < j < |order| ==> order[i] != order[j])
  }

  ghost predicate OrderOk(base: map<int, Content>, s: Sys) {
    Ordered(s.hist, s.order) && SerialOk(base, s.hist, s.order)
  }

  // The tables as the committed transactions leave them.
  ghost function Committed(base: map<int, Content>, s: Sys): map<int, Content> {
    Serial(base, s.hist, s.order)
  }

  ghost predicate Inv(base: map<int, Content>, s: Sys) {
    && LocksOk(s) && HeldOk(s) && OrderOk(base, s)
    && CleanOk(Committed(base, s), s.data, s.hist)
    && FirstOk(Committed(base, s), s.hist)
    && ViewOk(Committed(base, s), s.data, s.hist)
  }

  // ---------------------------------------------------------------- locks exclude

  lemma Excludes(s: Sys, t: int, u: int, tab: int)
    requires t != u && Locked(s.locks, t, tab, X) && LocksOk(s)
    ensures !Locked(s.locks, u, tab, S) && !Locked(s.locks, u, tab, X)
  {
    var reqs := RequestsOf(s.locks, TableLock(tab));
    var i :| 0 <= i < |reqs| && reqs[i].txn == t && Stronger(reqs[i].mode, X);
    forall j | 0 <= j < |reqs| && reqs[j].txn == u ensures false {
    }
  }

  lemma CoveredKept(reqs: seq<Request>, reqs': seq<Request>, t: int, u: int, mode: Mode)
    requires OthersKeep(reqs, reqs', t) && t != u
    ensures Covered(reqs', u, mode) <==> Covered(reqs, u, mode)
  {
    if Covered(reqs, u, mode) {
      var i :| 0 <= i < |reqs| && reqs[i].txn == u && Stronger(reqs[i].mode, mode);
      assert reqs[i] in reqs';
    }
    if Covered(reqs', u, mode) {
      var i :| 0 <= i < |reqs'| && reqs'[i].txn == u && Stronger(reqs'[i].mode, mode);
      assert reqs'[i] in reqs;
    }
  }

  // A lock request keeps every lock of the running transactions, its own too, and asks only for S and X.
  lemma LockStep(s: Sys, s': Sys, t: int, tab: int, mode: Mode, out: Outcome)
    requires LocksOk(s) && Step(s, EvLock(t, tab, mode, out), s')
    ensures LocksOk(s')
    ensures forall u, o, m :: (m == S || m == X) && Locked(s.locks, u, o, m) ==> Locked(s'.locks, u, o, m)
  {
    var id := TableLock(tab);
    var reqs, reqs' := RequestsOf(s.locks, id), RequestsOf(s'.locks, id);
    OwnModes(s, s', t, tab, mode, out);
    forall u, o, m | (m == S || m == X) && Locked(s.locks, u, o, m) ensures Locked(s'.locks, u, o, m) {
      if o == tab && u != t {
        CoveredKept(reqs, reqs', t, u, m);
      }
    }
  }

  lemma OwnModes(s: Sys, s': Sys, t: int, tab: int, mode: Mode, out: Outcome)
    requires LocksOk(s) && Step(s, EvLock(t, tab, mode, out), s')
    ensures OnlySX(s'.locks)
    ensures forall m :: (m == S || m == X) && Locked(s.locks, t, tab, m) ==> Locked(s'.locks, t, tab, m)
  {
    var id := TableLock(tab);
    var reqs, reqs' := RequestsOf(s.locks, id), RequestsOf(s'.locks, id);
    if reqs' != reqs {
      assert Request(t, mode) in reqs' && OneEach(reqs') && OneEach(reqs);
      forall r: Request | r in reqs' ensures r.mode == S || r.mode == X {
        if r.txn == t {
          assert r == Request(t, mode);
        }
      }
      var i :| 0 <= i < |reqs'| && reqs'[i] == Request(t, mode);
      forall m | (m == S || m == X) && Covered(reqs, t, m) ensures Covered(reqs', t, m) {
        var j :| 0 <= j < |reqs| && reqs[j].txn == t && Stronger(reqs[j].mode, m);
        assert reqs[j] in reqs;
        assert Stronger(reqs'[i].mode, m);
      }
    }
  }

  lemma Queued(reqs: seq<Request>, r: Request)
    requires r in reqs
    ensures InQueue(reqs, r.txn)
  {
    var i :| 0 <= i < |reqs| && reqs[i] == r;
    assert reqs[i].txn == r.txn;
  }

  // Giving a lock back takes nothing from the others.
  lemma UnlockStep(s: Sys, s': Sys, t: int, id: LockId)
    requires LocksOk(s) && Step(s, EvUnlock(t, id), s')
    ensures LocksOk(s')
    ensures forall u, o, m :: u != t && Locked(s.locks, u, o, m) ==> Locked(s'.locks, u, o, m)
  {
    var reqs, reqs' := RequestsOf(s.locks, id), RequestsOf(s'.locks, id);
    forall r: Request | r in reqs' ensures r in reqs {
      Queued(reqs', r);
    }
    forall u, o, m | u != t && Locked(s.locks, u, o, m) ensures Locked(s'.locks, u, o, m) {
      if TableLock(o) == id {
        CoveredKept(reqs, reqs', t, u, m);
      }
    }
  }

  // ---------------------------------------------------------------- every step keeps the invariants

  // As long as nobody commits, the committed transactions are the same.
  lemma CommittedSame(base: map<int, Content>, s: Sys, s': Sys)
    requires OrderOk(base, s) && s'.order == s.order
    requires forall u :: InPhase(s, u, Done) ==> InPhase(s', u, Done) && s'.hist[u].ops == s.hist[u].ops
    requires forall u :: InPhase(s', u, Done) ==> InPhase(s, u, Done)
    ensures OrderOk(base, s') && Serial(base, s'.hist, s'.order) == Serial(base, s.hist, s.order)
  {
    SerialSame(base, s.hist, s'.hist, s.order);
    SerialOkSame(base, s.hist, s'.hist, s.order);
  }

  // Only the history of t moves, and the others keep their locks.
  ghost predicate Moves(s: Sys, s': Sys, t: int) {
    && s'.order == s.order && s'.hist.Keys == s.hist.Keys + {t}
    && (forall u :: u in s.hist && u != t ==> s'.hist[u] == s.hist[u])
    && (forall u, tab, m :: u != t && (m == S || m == X) && Locked(s.locks, u, tab, m) ==> Locked(s'.locks, u, tab, m))
  }

  // The history of t is not finished in this step.
  ghost predicate Open(s: Sys, s': Sys, t: int) {
    t in s'.hist && if t in s.hist && s.hist[t].phase == Done then s'.hist[t] == s.hist[t] else s'.hist[t].phase != Done
  }

  lemma HeldMoves(s: Sys, s': Sys, t: int)
    requires Moves(s, s', t) && HeldOk(s) && HeldTxn(s'.locks, t, s'.hist[t])
    ensures HeldOk(s')
  {
    hide Locked, Touches, Wrote, Dirty;
  }

  lemma OpenSame(base: map<int, Content>, s: Sys, s': Sys, t: int)
    requires Moves(s, s', t) && Open(s, s', t) && OrderOk(base, s)
    ensures OrderOk(base, s') && Committed(base, s') == Committed(base, s)
  {
    hide Locked, SerialOk, Serial;
    CommittedSame(base, s, s');
  }

  lemma DirtySame(hist: map<int, History>, hist': map<int, History>, t: int, tab: int)
    requires hist'.Keys == hist.Keys + {t} && forall u :: u in hist && u != t ==> hist'[u] == hist[u]
    requires Dirty(hist'[t], tab) <==> t in hist && Dirty(hist[t], tab)
    ensures SomeoneDirty(hist', tab) <==> SomeoneDirty(hist, tab)
  {
    hide Dirty;
    if SomeoneDirty(hist, tab) {
      var u :| u in hist && Dirty(hist[u], tab);
      assert u in hist' && Dirty(hist'[u], tab);
    }
  }

  // A step that changes neither the data nor what there is to undo.
  lemma QuietKeeps(base: map<int, Content>, s: Sys, s': Sys, t: int)
    requires Moves(s, s', t) && Open(s, s', t) && s'.data == s.data && LocksOk(s')
    requires s'.hist[t].writeSet == if t in s.hist then s.hist[t].writeSet else []
    requires HeldTxn(s'.locks, t, s'.hist[t])
    requires ViewTxn(Committed(base, s), s'.data, s'.hist[t])
    requires Inv(base, s)
    ensures Inv(base, s')
  {
    hide LocksOk, HeldTxn, Locked, OrderOk, Reproduces, Play, Touches;
    HeldMoves(s, s', t);
    OpenSame(base, s, s', t);
    hide Committed, HeldOk;
    var c := Committed(base, s);
    forall tab ensures SomeoneDirty(s'.hist, tab) <==> SomeoneDirty(s.hist, tab) {
      DirtySame(s.hist, s'.hist, t, tab);
    }
    forall u | u in s'.hist ensures FirstTxn(c, s'.hist[u]) && ViewTxn(c, s'.data, s'.hist[u]) {
      if u in s.hist {
        assert FirstTxn(c, s.hist[u]);
      }
    }
  }

  lemma BeginKeeps(base: map<int, Content>, s: Sys, s': Sys, t: int)
    requires Step(s, EvBegin(t), s') && Inv(base, s)
    ensures Inv(base, s')
  {
    hide Locked, HeldOk, OrderOk, CleanOk, FirstOk, ViewOk, Committed;
    StartLocks(s, t);
    assert s'.hist[t] == History(Running, [], []);
    QuietKeeps(base, s, s', t);
  }

  lemma StartLocks(s: Sys, t: int)
    requires LocksOk(s) && t !in s.hist
    ensures TableOk(s.locks, s.txns[t := Txn(Default, {})])
  {
  }

  lemma TxnAt(base: map<int, Content>, s: Sys, t: int)
    requires t in s.hist && Inv(base, s)
    ensures HeldTxn(s.locks, t, s.hist[t]) && ViewTxn(Committed(base, s), s.data, s.hist[t])
      && FirstTxn(Committed(base, s), s.hist[t])
  {
    hide HeldTxn, ViewTxn, FirstTxn, LocksOk, OrderOk, CleanOk, Committed;
  }

  // What a lock request changes but the lock table.
  lemma LockMoves(s: Sys, s': Sys, t: int, tab: int, mode: Mode, out: Outcome)
    requires Step(s, EvLock(t, tab, mode, out), s')
    requires forall u, o, m :: (m == S || m == X) && Locked(s.locks, u, o, m) ==> Locked(s'.locks, u, o, m)
    ensures t in s.hist && t in s'.hist && Moves(s, s', t) && Open(s, s', t) && s'.data == s.data
    ensures s.hist[t].phase == Running
      && s'.hist[t] == if out == Granted then s.hist[t] else s.hist[t].(phase := Aborting)
  {
    hide TableOk, Acquires, Locked;
  }

  // More locks, or nothing left to do but to undo.
  lemma HeldLonger(locks: map<LockId, Queue>, locks': map<LockId, Queue>, t: int, h: History, h': History)
    requires HeldTxn(locks, t, h) && (h' == h || (h.phase == Running && h' == h.(phase := Aborting)))
    requires forall u, o, m :: (m == S || m == X) && Locked(locks, u, o, m) ==> Locked(locks', u, o, m)
    ensures HeldTxn(locks', t, h')
  {
    hide Locked, Touches, Wrote;
    assert forall tab :: Dirty(h', tab) <==> Dirty(h, tab);
  }

  lemma InvLocks(base: map<int, Content>, s: Sys)
    requires Inv(base, s)
    ensures LocksOk(s)
  {
    hide LocksOk;
  }

  lemma LockKeeps(base: map<int, Content>, s: Sys, s': Sys, t: int, tab: int, mode: Mode, out: Outcome)
    requires Step(s, EvLock(t, tab, mode, out), s') && Inv(base, s)
    ensures Inv(base, s')
  {
    hide *;
    InvLocks(base, s);
    LockStep(s, s', t, tab, mode, out);
    LockMoves(s, s', t, tab, mode, out);
    TxnAt(base, s, t);
    HeldLonger(s.locks, s'.locks, t, s.hist[t], s'.hist[t]);
    ViewAborting(Committed(base, s), s.data, s.hist[t], s'.hist[t]);
    QuietKeeps(base, s, s', t);
  }

  lemma ViewAborting(c: map<int, Content>, data: map<int, Content>, h: History, h': History)
    requires ViewTxn(c, data, h) && (h' == h || h'.phase == Aborting)
    ensures ViewTxn(c, data, h')
  {
  }

  lemma AbortKeeps(base: map<int, Content>, s: Sys, s': Sys, t: int)
    requires Step(s, EvAbort(t), s') && Inv(base, s)
    ensures Inv(base, s')
  {
    hide TableOk, OnlySX, Locked, OrderOk, CleanOk, FirstOk, ViewOk, Committed;
    assert HeldTxn(s.locks, t, s.hist[t]);
    QuietKeeps(base, s, s', t);
  }

  lemma UnlockKeeps(base: map<int, Content>, s: Sys, s': Sys, t: int, id: LockId)
    requires Step(s, EvUnlock(t, id), s') && Inv(base, s)
    ensures Inv(base, s')
  {
    UnlockStep(s, s', t, id);
    hide TableOk, OnlySX, Releases, Locked, OrderOk, CleanOk, FirstOk, Committed;
    QuietKeeps(base, s, s', t);
  }

  // A table the transaction has locked is as it would find it after the committed transactions and its own statements.
  lemma SeesCommitted(base: map<int, Content>, s: Sys, t: int, tab: int)
    requires InPhase(s, t, Running) && Locked(s.locks, t, tab, S) && Inv(base, s)
    ensures At(Play(Committed(base, s), s.hist[t].ops), tab) == At(s.data, tab)
  {
    hide OrderOk, FirstOk, Committed;
    var c := Committed(base, s);
    var ops := s.hist[t].ops;
    assert HeldTxn(s.locks, t, s.hist[t]) && ViewTxn(c, s.data, s.hist[t]);
    if !Touches(ops, tab) {
      UntouchedFrame(c, ops, tab);
      LockedClean(s, t, tab);
    }
  }

  lemma UntouchedFrame(c: map<int, Content>, ops: seq<Op>, tab: int)
    requires !Touches(ops, tab)
    ensures At(Play(c, ops), tab) == At(c, tab)
  {
    forall i | 0 <= i < |ops| ensures ops[i].tab != tab {
    }
    PlayFrame(c, ops, tab);
  }

  lemma LockedClean(s: Sys, t: int, tab: int)
    requires t in s.hist && Locked(s.locks, t, tab, S) && !Dirty(s.hist[t], tab) && HeldOk(s) && LocksOk(s)
    ensures !SomeoneDirty(s.hist, tab)
  {
    hide Locked, LocksOk, Dirty;
    forall u | u in s.hist && Dirty(s.hist[u], tab) ensures false {
      assert HeldTxn(s.locks, u, s.hist[u]);
      if u != t {
        Excludes(s, u, t, tab);
      }
    }
  }

  lemma ReadKeeps(base: map<int, Content>, s: Sys, s': Sys, t: int, tab: int)
    requires Step(s, EvRead(t, tab), s') && Inv(base, s)
    ensures Inv(base, s')
  {
    hide TableOk, OnlySX, Locked, OrderOk, CleanOk, FirstOk, Committed;
    SeesCommitted(base, s, t, tab);
    var c, ops := Committed(base, s), s.hist[t].ops;
    assert HeldTxn(s.locks, t, s.hist[t]) && ViewTxn(c, s.data, s.hist[t]);
    OneMore(c, ops, Read(tab, At(s.data, tab)));
    hide Reproduces, Play, Touches, Wrote, HeldOk, ViewOk;
    QuietKeeps(base, s, s', t);
  }

  lemma XCoversS(locks: map<LockId, Queue>, t: int, tab: int)
    requires Locked(locks, t, tab, X)
    ensures Locked(locks, t, tab, S)
  {
    var reqs := RequestsOf(locks, TableLock(tab));
    var i :| 0 <= i < |reqs| && reqs[i].txn == t && Stronger(reqs[i].mode, X);
    assert Stronger(reqs[i].mode, S);
  }

  lemma {:induction false} FirstAppend(writeSet: seq<Before>, b: Before, tab: int)
    ensures First(writeSet + [b], tab, map[]) == First(writeSet, tab, if b.tab == tab then b.content else map[])
  {
    if writeSet == [] {
      assert First([b][1..], tab, map[]) == map[];
    } else {
      FirstAppend(writeSet[1..], b, tab);
      assert (writeSet + [b])[1..] == writeSet[1..] + [b];
    }
  }

  lemma {:induction false} FirstSaved(writeSet: seq<Before>, tab: int, now: Content)
    ensures Saved(writeSet, tab) ==> First(writeSet, tab, now) == First(writeSet, tab, map[])
    ensures !Saved(writeSet, tab) ==> First(writeSet, tab, now) == now
  {
    if writeSet != [] {
      FirstSaved(writeSet[1..], tab, now);
      if Saved(writeSet, tab) && writeSet[0].tab != tab {
        var i :| 0 <= i < |writeSet| && writeSet[i].tab == tab;
        assert writeSet[1..][i - 1].tab == tab;
      }
    }
  }

  // One more write record: what the older ones say is the same.
  lemma SaveMore(h: History, h': History, b: Before, tab: int)
    requires h'.writeSet == h.writeSet + [b]
    ensures Dirty(h', tab) <==> Dirty(h, tab) || tab == b.tab
    ensures First(h'.writeSet, tab, map[]) == if Dirty(h, tab) then First(h.writeSet, tab, map[]) else if tab == b.tab
      then b.content else map[]
  {
    FirstAppend(h.writeSet, b, tab);
    FirstSaved(h.writeSet, tab, if b.tab == tab then b.content else map[]);
    if Dirty(h, tab) {
      var i :| 0 <= i < |h.writeSet| && h.writeSet[i].tab == tab;
      assert h'.writeSet[i].tab == tab;
    }
    assert h'.writeSet[|h.writeSet|] == b;
  }

  // The data of one table changes, under the lock of the transaction that changes it.
  lemma ViewOthers(base: map<int, Content>, s: Sys, t: int, tab: int, data': map<int, Content>, u: int)
    requires u in s.hist && u != t && Locked(s.locks, t, tab, X)
    requires forall o :: o != tab ==> At(data', o) == At(s.data, o)
    requires Inv(base, s)
    ensures ViewTxn(Committed(base, s), data', s.hist[u])
  {
    TxnAt(base, s, u);
    if s.hist[u].phase == Running && Touches(s.hist[u].ops, tab) {
      Excludes(s, t, u, tab);
    }
  }

  lemma WriteTxn(base: map<int, Content>, s: Sys, s': Sys, t: int, tab: int, after: Content)
    requires Step(s, EvWrite(t, tab, after), s') && Inv(base, s)
    ensures HeldTxn(s'.locks, t, s'.hist[t])
    ensures ViewTxn(Committed(base, s), s'.data, s'.hist[t])
    ensures FirstTxn(Committed(base, s), s'.hist[t])
  {
    hide TableOk, OnlySX, OrderOk, FirstOk, ViewOk, Committed, Reproduces, Play, Touches, Wrote, Locked, HeldTxn,
      ViewTxn, FirstTxn;
    var c, h, h' := Committed(base, s), s.hist[t], s'.hist[t];
    TxnAt(base, s, t);
    assert Locked(s.locks, t, tab, X) && h.phase == Running && s'.locks == s.locks && s'.data == s.data[tab := after];
    assert h' == History(Running, h.ops + [Write(tab, after)], h.writeSet + [Before(tab, At(s.data, tab))]);
    hide Step;
    if !Dirty(h, tab) {
      XCoversS(s.locks, t, tab);
      LockedClean(s, t, tab);
    }
    hide Inv, Dirty;
    WriteView(c, s.data, h, h', tab, after);
    WriteHistory(s.locks, t, h, h', c, s.data, tab, after);
  }

  lemma WriteView(c: map<int, Content>, data: map<int, Content>, h: History, h': History, tab: int, after: Content)
    requires h.phase == Running && h'.ops == h.ops + [Write(tab, after)] && ViewTxn(c, data, h)
    ensures ViewTxn(c, data[tab := after], h')
    ensures forall o :: Touches(h'.ops, o) <==> Touches(h.ops, o) || o == tab
    ensures forall o :: Wrote(h'.ops, o) <==> Wrote(h.ops, o) || o == tab
  {
    OneMore(c, h.ops, Write(tab, after));
    hide Touches, Wrote, Reproduces, Play;
  }

  lemma WriteHistory(locks: map<LockId, Queue>, t: int, h: History, h': History, c: map<int, Content>,
          data: map<int, Content>, tab: int, after: Content)
    requires h.phase == Running && Locked(locks, t, tab, X)
    requires h' == History(Running, h.ops + [Write(tab, after)], h.writeSet + [Before(tab, At(data, tab))])
    requires forall o :: Touches(h'.ops, o) <==> Touches(h.ops, o) || o == tab
    requires forall o :: Wrote(h'.ops, o) <==> Wrote(h.ops, o) || o == tab
    requires !Dirty(h, tab) ==> At(data, tab) == At(c, tab)
    requires HeldTxn(locks, t, h) && FirstTxn(c, h)
    ensures HeldTxn(locks, t, h') && FirstTxn(c, h')
  {
    XCoversS(locks, t, tab);
    hide Touches, Wrote, Locked;
    forall o ensures Dirty(h', o) <==> Dirty(h, o) || o == tab {
      SaveMore(h, h', Before(tab, At(data, tab)), o);
    }
    hide Dirty;
    forall o | Dirty(h', o) ensures First(h'.writeSet, o, map[]) == At(c, o) {
      SaveMore(h, h', Before(tab, At(data, tab)), o);
    }
  }

  lemma WriteClean(base: map<int, Content>, s: Sys, s': Sys, t: int, tab: int, after: Content)
    requires Step(s, EvWrite(t, tab, after), s') && Inv(base, s)
    ensures CleanOk(Committed(base, s), s'.data, s'.hist)
  {
    hide LocksOk, HeldOk, OrderOk, FirstOk, ViewOk, Committed, Locked;
    var h, h' := s.hist[t], s'.hist[t];
    forall o | !SomeoneDirty(s'.hist, o) ensures At(s'.data, o) == At(Committed(base, s), o) {
      SaveMore(h, h', Before(tab, At(s.data, tab)), o);
      assert !Dirty(h', o);
      DirtySame(s.hist, s'.hist, t, o);
    }
  }

  // A step that changes the data of one table, under the lock of the transaction that changes it.
  lemma ChangeKeeps(base: map<int, Content>, s: Sys, s': Sys, t: int, tab: int)
    requires Moves(s, s', t) && Open(s, s', t) && t in s.hist && Locked(s.locks, t, tab, X)
    requires forall o :: o != tab ==> At(s'.data, o) == At(s.data, o)
    requires LocksOk(s') && HeldTxn(s'.locks, t, s'.hist[t])
    requires ViewTxn(Committed(base, s), s'.data, s'.hist[t])
    requires FirstTxn(Committed(base, s), s'.hist[t])
    requires CleanOk(Committed(base, s), s'.data, s'.hist)
    requires Inv(base, s)
    ensures Inv(base, s')
  {
    hide LocksOk, Locked, HeldTxn, ViewTxn, FirstTxn, OrderOk, CleanOk, Committed, Dirty;
    HeldMoves(s, s', t);
    OpenSame(base, s, s', t);
    hide HeldOk;
    forall u | u in s'.hist && u != t ensures FirstTxn(Committed(base, s), s'.hist[u])
      && ViewTxn(Committed(base, s), s'.data, s'.hist[u]) {
      TxnAt(base, s, u);
      ViewOthers(base, s, t, tab, s'.data, u);
    }
  }

  lemma WriteKeeps(base: map<int, Content>, s: Sys, s': Sys, t: int, tab: int, after: Content)
    requires Step(s, EvWrite(t, tab, after), s') && Inv(base, s)
    ensures Inv(base, s')
  {
    hide *;
    InvLocks(base, s);
    WriteMoves(s, s', t, tab, after);
    WriteTxn(base, s, s', t, tab, after);
    WriteClean(base, s, s', t, tab, after);
    ChangeKeeps(base, s, s', t, tab);
  }

  lemma WriteMoves(s: Sys, s': Sys, t: int, tab: int, after: Content)
    requires Step(s, EvWrite(t, tab, after), s') && LocksOk(s)
    ensures t in s.hist && t in s'.hist && Moves(s, s', t) && Open(s, s', t)
    ensures LocksOk(s') && Locked(s.locks, t, tab, X)
    ensures forall o :: o != tab ==> At(s'.data, o) == At(s.data, o)
  {
    hide TableOk, OnlySX, Locked;
  }

  // One write record less: what the older ones say is the same.
  lemma SaveLess(h: History, h': History, tab: int)
    requires h.writeSet != [] && h'.writeSet == h.writeSet[..|h.writeSet| - 1]
    ensures Dirty(h, tab) <==> Dirty(h', tab) || tab == Last(h).tab
    ensures First(h.writeSet, tab, map[]) == if Dirty(h', tab) then First(h'.writeSet, tab, map[])
      else if tab == Last(h).tab then Last(h).content else map[]
  {
    assert h.writeSet == h'.writeSet + [Last(h)];
    SaveMore(h', h, Last(h), tab);
  }

  lemma UndoTxn(base: map<int, Content>, s: Sys, s': Sys, t: int)
    requires Step(s, EvUndo(t), s') && Inv(base, s)
    ensures t in s.hist && t in s'.hist && s.hist[t].writeSet != []
    ensures HeldTxn(s'.locks, t, s'.hist[t])
    ensures FirstTxn(Committed(base, s), s'.hist[t])
    ensures Locked(s.locks, t, Last(s.hist[t]).tab, X)
  {
    TxnAt(base, s, t);
    hide Inv, Committed, HeldTxn, FirstTxn, Locked;
    UndoHistory(s.locks, t, s.hist[t], s'.hist[t], Committed(base, s));
  }

  lemma UndoHistory(locks: map<LockId, Queue>, t: int, h: History, h': History, c: map<int, Content>)
    requires h.phase == Aborting && h.writeSet != [] && h' == h.(writeSet := h.writeSet[..|h.writeSet| - 1])
    requires HeldTxn(locks, t, h) && FirstTxn(c, h)
    ensures HeldTxn(locks, t, h') && FirstTxn(c, h') && Locked(locks, t, Last(h).tab, X)
  {
    forall o ensures Dirty(h, o) <==> Dirty(h', o) || o == Last(h).tab {
      SaveLess(h, h', o);
    }
    hide Dirty, Locked;
    forall o | Dirty(h', o) ensures First(h'.writeSet, o, map[]) == At(c, o) {
      SaveLess(h, h', o);
    }
  }

  lemma UndoClean(base: map<int, Content>, s: Sys, s': Sys, t: int)
    requires Step(s, EvUndo(t), s') && Inv(base, s)
    ensures CleanOk(Committed(base, s), s'.data, s'.hist)
  {
    var h, h' := s.hist[t], s'.hist[t];
    TxnAt(base, s, t);
    hide LocksOk, HeldOk, OrderOk, FirstOk, ViewOk, Committed, Locked, HeldTxn;
    forall o | !SomeoneDirty(s'.hist, o) ensures At(s'.data, o) == At(Committed(base, s), o) {
      SaveLess(h, h', o);
      assert !Dirty(h', o);
      if o != Last(h).tab {
        DirtySame(s.hist, s'.hist, t, o);
      }
    }
  }

  lemma UndoKeeps(base: map<int, Content>, s: Sys, s': Sys, t: int)
    requires Step(s, EvUndo(t), s') && Inv(base, s)
    ensures Inv(base, s')
  {
    UndoTxn(base, s, s', t);
    UndoClean(base, s, s', t);
    hide TableOk, Locked, HeldTxn, FirstTxn, OrderOk, CleanOk, Committed, HeldOk, FirstOk, ViewOk, OnlySX;
    ChangeKeeps(base, s, s', t, Last(s.hist[t]).tab);
  }

  // ---------------------------------------------------------------- a commit

  lemma CommitOrder(base: map<int, Content>, s: Sys, s': Sys, t: int)
    requires Step(s, EvCommit(t), s') && OrderOk(base, s)
    requires Reproduces(Committed(base, s), s.hist[t].ops)
    ensures OrderOk(base, s')
    ensures Committed(base, s') == Play(Committed(base, s), s.hist[t].ops)
  {
    var hist', order' := s.hist[t := History(Done, s.hist[t].ops, [])], s.order + [t];
    assert t in s.hist && s.hist[t].phase == Running && s'.hist == hist' && s'.order == order';
    hide Step, Reproduces, Play, Serial, SerialOk;
    OrderedMore(s.hist, s.order, t);
    hide Ordered;
    SerialMore(base, s.hist, hist', s.order, t);
  }

  lemma OrderedMore(hist: map<int, History>, order: seq<int>, t: int)
    requires t in hist && hist[t].phase == Running && Ordered(hist, order)
    ensures Ordered(hist[t := History(Done, hist[t].ops, [])], order + [t])
    ensures forall k :: 0 <= k < |order| ==> order[k] in hist && order[k] != t
  {
    var hist', order' := hist[t := History(Done, hist[t].ops, [])], order + [t];
    forall u | u in hist' && hist'[u].phase == Done ensures u in order' {
      if u != t {
        assert hist[u].phase == Done && u in order;
      } else {
        assert order'[|order|] == t;
      }
    }
  }

  lemma SerialMore(base: map<int, Content>, hist: map<int, History>, hist': map<int, History>, order: seq<int>, t: int)
    requires t in hist && t in hist' && hist'[t].ops == hist[t].ops
      && Reproduces(Serial(base, hist, order), hist[t].ops)
    requires forall k :: 0 <= k < |order| ==>
      order[k] in hist && order[k] in hist' && hist'[order[k]].ops == hist[order[k]].ops
    requires SerialOk(base, hist, order)
    ensures SerialOk(base, hist', order + [t])
    ensures Serial(base, hist', order + [t]) == Play(Serial(base, hist, order), hist[t].ops)
  {
    hide Reproduces, Play;
    var order' := order + [t];
    assert order'[..|order|] == order;
    SerialSame(base, hist, hist', order);
    SerialOkSame(base, hist, hist', order);
    hide Serial;
    forall k | 0 <= k < |order'| ensures order'[k] in hist' && Reproduces(Serial(base, hist', order'[..k]),
      hist'[order'[k]].ops) {
      if k < |order| {
        assert order'[..k] == order[..k] && order'[k] == order[k];
      }
    }
  }

  // What another transaction has locked the committing one has not written.
  lemma CommitFrame(base: map<int, Content>, s: Sys, t: int, u: int, tab: int)
    requires InPhase(s, t, Running) && u != t && Locked(s.locks, u, tab, S)
    requires Inv(base, s)
    ensures At(Play(Committed(base, s), s.hist[t].ops), tab) == At(Committed(base, s), tab)
  {
    TxnAt(base, s, t);
    if Wrote(s.hist[t].ops, tab) {
      Excludes(s, t, u, tab);
    }
    PlayFrame(Committed(base, s), s.hist[t].ops, tab);
  }

  lemma CommitOther(base: map<int, Content>, s: Sys, t: int, u: int)
    requires InPhase(s, t, Running) && u != t && u in s.hist
    requires Inv(base, s)
    ensures ViewTxn(Play(Committed(base, s), s.hist[t].ops), s.data, s.hist[u])
    ensures FirstTxn(Play(Committed(base, s), s.hist[t].ops), s.hist[u])
  {
    var c, c', h := Committed(base, s), Play(Committed(base, s), s.hist[t].ops), s.hist[u];
    TxnAt(base, s, u);
    hide LocksOk, HeldOk, OrderOk, CleanOk, FirstOk, ViewOk, Committed, Locked, Play, Reproduces;
    forall tab | Dirty(h, tab) ensures At(c', tab) == At(c, tab) {
      XCoversS(s.locks, u, tab);
      CommitFrame(base, s, t, u, tab);
    }
    if h.phase == Running {
      forall tab | Touches(h.ops, tab) ensures At(c', tab) == At(c, tab)
        && At(Play(c', h.ops), tab) == At(s.data, tab) {
        CommitFrame(base, s, t, u, tab);
        PlayAgrees(c, c', h.ops, tab);
      }
      ReproducesAgrees(c, c', h.ops);
    }
  }

  lemma CommitClean(base: map<int, Content>, s: Sys, s': Sys, t: int)
    requires Step(s, EvCommit(t), s') && Inv(base, s)
    ensures CleanOk(Play(Committed(base, s), s.hist[t].ops), s'.data, s'.hist)
  {
    var c, ops := Committed(base, s), s.hist[t].ops;
    TxnAt(base, s, t);
    hide LocksOk, HeldOk, OrderOk, FirstOk, ViewOk, Committed, Locked, Play, Reproduces;
    forall o | !SomeoneDirty(s'.hist, o) ensures At(s.data, o) == At(Play(c, ops), o) {
      if !Touches(ops, o) {
        UntouchedFrame(c, ops, o);
        assert !Dirty(s'.hist[t], o);
        DirtySame(s.hist, s'.hist, t, o);
      }
    }
  }

  lemma CommitLocks(s: Sys, s': Sys, t: int)
    requires Step(s, EvCommit(t), s') && LocksOk(s) && HeldOk(s)
    ensures LocksOk(s') && HeldOk(s')
  {
    hide TableOk, OnlySX, Locked, Touches, Wrote;
    forall u | u in s'.hist ensures HeldTxn(s'.locks, u, s'.hist[u]) {
      if u != t {
        assert HeldTxn(s.locks, u, s.hist[u]);
      }
    }
  }

  lemma CommitKeeps(base: map<int, Content>, s: Sys, s': Sys, t: int)
    requires Step(s, EvCommit(t), s') && Inv(base, s)
    ensures Inv(base, s')
  {
    TxnAt(base, s, t);
    CommitOrder(base, s, s', t);
    CommitClean(base, s, s', t);
    CommitLocks(s, s', t);
    CommitAll(base, s, t, s'.hist);
    hide Step, LocksOk, HeldOk, OrderOk, CleanOk, FirstOk, ViewOk, Committed, Play;
  }

  lemma CommitAll(base: map<int, Content>, s: Sys, t: int, hist': map<int, History>)
    requires InPhase(s, t, Running) && hist' == s.hist[t := History(Done, s.hist[t].ops, [])] && Inv(base, s)
    ensures var c' := Play(Committed(base, s), s.hist[t].ops); FirstOk(c', hist') && ViewOk(c', s.data, hist')
  {
    hide Inv, Committed, Play, FirstTxn, ViewTxn;
    var c' := Play(Committed(base, s), s.hist[t].ops);
    forall u | u in hist' ensures FirstTxn(c', hist'[u]) && ViewTxn(c', s.data, hist'[u]) {
      if u != t {
        CommitOther(base, s, t, u);
      } else {
        CleanDone(c', s.data, hist'[t]);
      }
    }
  }

  lemma CleanDone(c: map<int, Content>, data: map<int, Content>, h: History)
    requires h.phase == Done && h.writeSet == []
    ensures FirstTxn(c, h) && ViewTxn(c, data, h)
  {
  }

  // ---------------------------------------------------------------- whole runs

  lemma StepKeeps(base: map<int, Content>, s: Sys, e: Event, s': Sys)
    requires Step(s, e, s') && Inv(base, s)
    ensures Inv(base, s')
  {
    hide Step, Inv;
    match e {
      case EvBegin(t) => BeginKeeps(base, s, s', t);
      case EvLock(t, tab, mode, out) => LockKeeps(base, s, s', t, tab, mode, out);
      case EvRead(t, tab) => ReadKeeps(base, s, s', t, tab);
      case EvWrite(t, tab, after) => WriteKeeps(base, s, s', t, tab, after);
      case EvCommit(t) => CommitKeeps(base, s, s', t);
      case EvAbort(t) => AbortKeeps(base, s, s', t);
      case EvUndo(t) => UndoKeeps(base, s, s', t);
      case EvUnlock(t, id) => UnlockKeeps(base, s, s', t, id);
    }
  }

  lemma StartOk(s: Sys)
    requires Start(s)
    ensures Inv(s.data, s)
  {
  }

  function Commits(events: seq<Event>): seq<int> {
    if events == [] then []
    else
      var rest, e := Commits(events[..|events| - 1]), events[|events| - 1];
      if e.EvCommit? then rest + [e.t] else rest
  }

  lemma {:induction false} RunKeeps(states: seq<Sys>, events: seq<Event>)
    requires Run(states, events)
    ensures Inv(states[0].data, states[|events|]) && states[|events|].order == Commits(events)
  {
    hide Inv;
    if events == [] {
      StartOk(states[0]);
    } else {
      var n := |events| - 1;
      hide Step;
      RunKeeps(states[..n + 1], events[..n]);
      StepKeeps(states[0].data, states[n], events[n], states[n + 1]);
      OrderStep(states[n], events[n], states[n + 1]);
    }
  }

  lemma OrderStep(s: Sys, e: Event, s': Sys)
    requires Step(s, e, s')
    ensures s'.order == if e.EvCommit? then s.order + [e.t] else s.order
  {
  }

  /**
   In every interleaving, the committed transactions could have run one at a time in the order of
   their commits: each would have seen exactly what it saw, and wherever no unfinished transaction
   has changed a table, the table is as they would have left it.
   */
  lemma CommitOrderIsSerial(states: seq<Sys>, events: seq<Event>)
    requires Run(states, events)
    ensures var s, base := states[|events|], states[0].data;
      && s.order == Commits(events)
      && (forall t :: t in s.order <==> InPhase(s, t, Done))
      && (forall k :: 0 <= k < |s.order| ==>
           (s.order[k] in s.hist && Reproduces(Serial(base, s.hist, s.order[..k]), s.hist[s.order[k]].ops)))
      && (forall tab :: (forall t :: t in s.hist ==> !Dirty(s.hist[t], tab)) ==>
        At(s.data, tab) == At(Serial(base, s.hist, s.order), tab))
  {
    RunKeeps(states, events);
    hide Run, Step, Reproduces, Dirty, Serial, LocksOk, HeldOk, ViewOk, FirstOk;
  }

  lemma QueueFacts(locks: map<LockId, Queue>, txns: map<int, Txn>, id: LockId)
    requires TableOk(locks, txns)
    ensures var reqs := RequestsOf(locks, id); AllCompatible(reqs) && OneEach(reqs)
    ensures forall t :: t in txns ==> (InQueue(RequestsOf(locks, id), t) <==> id in txns[t].lockSet)
  {
    hide AllCompatible, OneEach, GroupOf, InQueue;
    if id in locks {
      assert QueueOk(locks[id]);
    } else {
      NoRequests();
    }
  }

  lemma NoRequests()
    ensures AllCompatible([]) && OneEach([]) && forall t :: !InQueue([], t)
  {
  }

  // In every interleaving, the granted locks of two transactions on one item go together, and a
  // transaction has one request in a queue exactly if the item is in its lock set.
  lemma GrantedLocksCompatible(states: seq<Sys>, events: seq<Event>, id: LockId)
    requires Run(states, events)
    ensures var reqs := RequestsOf(states[|events|].locks, id); AllCompatible(reqs) && OneEach(reqs)
    ensures var s := states[|events|]; forall t :: t in s.txns ==> (InQueue(RequestsOf(s.locks, id),
      t) <==> id in s.txns[t].lockSet)
  {
    hide HeldOk, OrderOk, CleanOk, ViewOk, FirstOk, TableOk;
    RunKeeps(states, events);
    var s := states[|events|];
    assert TableOk(s.locks, s.txns);
    hide *;
    QueueFacts(s.locks, s.txns, id);
  }

  // Nobody sees what an unfinished transaction of somebody else has written.
  lemma NoDirtyRead(states: seq<Sys>, events: seq<Event>, t: int, u: int, tab: int)
    requires Run(states, events) && t != u
    requires var s := states[|events|]; InPhase(s, t, Running) && Locked(s.locks, t, tab, S)
    ensures var s := states[|events|]; u in s.hist ==> !Dirty(s.hist[u], tab)
    ensures var s := states[|events|]; At(s.data, tab) == At(Play(Serial(states[0].data, s.hist, s.order),
      s.hist[t].ops), tab)
  {
    var s := states[|events|];
    RunKeeps(states, events);
    SeesCommitted(states[0].data, s, t, tab);
    hide Run, Step, OrderOk, CleanOk, ViewOk, FirstOk, Locked, Dirty, Play, Serial;
    if u in s.hist && Dirty(s.hist[u], tab) {
      Excludes(s, u, t, tab);
    }
  }
}
