/** The lock manager: no-wait locks in five modes, one queue per data item. */
module Locks {

  datatype Mode = S | X | IS | IX | SIX

  datatype Group = NonLock | GroupIS | GroupIX | GroupS | GroupX | GroupSIX

  // A table (rid parts -1) or a record of a table.
  datatype LockId = LockId(fd: int, isRecord: bool, pageNo: int, slotNo: int)

  datatype Request = Request(txn: int, mode: Mode)

  datatype Queue = Queue(requests: seq<Request>, group: Group)

  datatype State = Default | Growing | Shrinking | Committed | Aborted

  datatype Txn = Txn(state: State, lockSet: set<LockId>)

  datatype Outcome = Granted | LockOnShrinking | DeadlockPrevention

  // ---------------------------------------------------------------- modes

  function Compatible(req: Mode, held: Mode): bool {
    match req
    case IS => held != X
    case IX => held == IS || held == IX
    case S => held == IS || held == S
    case SIX => held == IS
    case X => false
  }

  function Stronger(held: Mode, req: Mode): bool {
    if held == X || held == req then true
    else match held
      case SIX => req == S || req == IS || req == IX
      case S => req == IS
      case IX => req == IS
      case _ => false
  }

  // Who comes first does not matter.
  lemma CompatibleSymmetric(a: Mode, b: Mode)
    ensures Compatible(a, b) == Compatible(b, a)
  {
  }

  // A stronger mode shuts out whatever a weaker one does, and strength is an order.
  lemma StrongerExcludes(a: Mode, b: Mode, c: Mode)
    requires Stronger(a, b)
    ensures Compatible(c, a) ==> Compatible(c, b)
    ensures Stronger(b, c) ==> Stronger(a, c)
    ensures Stronger(b, a) ==> a == b
  {
  }

  // An upgrade replaces the mode; it covers the old one exactly if it is not between S and IX.
  lemma UpgradeCovers(held: Mode, req: Mode)
    requires !Stronger(held, req)
    ensures Stronger(req, held) <==> !(held == S && req == IX) && !(held == IX && req == S)
  {
  }

  // What a mode lets its holder do with the item: look at parts of it or all of it, change parts of it or all of it.
  datatype Right = ReadParts | ReadAll | WriteParts | WriteAll

  function Rights(mode: Mode): set<Right> {
    match mode
    case IS => {ReadParts}
    case IX => {ReadParts, WriteParts}
    case S => {ReadParts, ReadAll}
    case SIX => {ReadParts, ReadAll, WriteParts}
    case X => {ReadParts, ReadAll, WriteParts, WriteAll}
  }

  // Work on parts does not clash: the locks of the parts keep it apart.
  predicate Clash(a: Right, b: Right) {
    a == WriteAll || b == WriteAll || (a == ReadAll && b == WriteParts) || (a == WriteParts && b == ReadAll)
  }

  // Two modes go together if and only if no right of one clashes with a right of the other.
  lemma CompatibleRights(a: Mode, b: Mode)
    ensures Compatible(a, b) <==> forall x, y :: x in Rights(a) && y in Rights(b) ==> !Clash(x, y)
  {
    assert ReadParts in Rights(a) && ReadParts in Rights(b);
    if !Compatible(a, b) && a != X && b != X {
      if WriteParts in Rights(b) && ReadAll in Rights(a) {
        assert Clash(ReadAll, WriteParts);
      } else {
        assert WriteParts in Rights(a) && ReadAll in Rights(b) && Clash(WriteParts, ReadAll);
      }
    } else if !Compatible(a, b) {
      assert a == X ==> WriteAll in Rights(a) && Clash(WriteAll, ReadParts);
      assert b == X ==> WriteAll in Rights(b) && Clash(ReadParts, WriteAll);
    }
  }

  // A mode is as strong as another if and only if it has all its rights.
  lemma StrongerRights(a: Mode, b: Mode)
    ensures Stronger(a, b) <==> Rights(b) <= Rights(a)
  {
    assert WriteAll in Rights(a) <==> a == X;
    assert WriteParts in Rights(a) <==> a in {IX, SIX, X};
    assert ReadAll in Rights(a) <==> a in {S, SIX, X};
    assert WriteAll in Rights(b) <==> b == X;
    assert WriteParts in Rights(b) <==> b in {IX, SIX, X};
    assert ReadAll in Rights(b) <==> b in {S, SIX, X};
  }

  // All requests of other transactions are for reading.
  ghost predicate OnlyReaders(reqs: seq<Request>, t: int) {
    forall r: Request :: r in reqs && r.txn != t ==> r.mode in {S, IS}
  }

  // A reader is not refused for other readers.
  lemma ReadersPass(reqs: seq<Request>, t: int)
    ensures OnlyReaders(reqs, t) ==> !Blocked(reqs, t, S) && !Blocked(reqs, t, IS)
  {
    forall i | OnlyReaders(reqs, t) && 0 <= i < |reqs| && reqs[i].txn != t
      ensures Compatible(S, reqs[i].mode) && Compatible(IS, reqs[i].mode)
    {
      assert reqs[i] in reqs;
    }
  }

  // ---------------------------------------------------------------- queues

  ghost predicate OneEach(reqs: seq<Request>) {
    forall i, j :: 0 <= i < j < |reqs| ==> reqs[i].txn != reqs[j].txn
  }

  ghost predicate AllCompatible(reqs: seq<Request>) {
    forall i, j :: 0 <= i < |reqs| && 0 <= j < |reqs| && i != j ==> Compatible(reqs[i].mode, reqs[j].mode)
  }

  ghost predicate HasMode(reqs: seq<Request>, mode: Mode) {
    exists i :: 0 <= i < |reqs| && reqs[i].mode == mode
  }

  // The most exclusive mode in the queue.
  ghost function GroupOf(reqs: seq<Request>): Group {
    if HasMode(reqs, X) then GroupX
    else if HasMode(reqs, SIX) then GroupSIX
    else if HasMode(reqs, S) then GroupS
    else if HasMode(reqs, IX) then GroupIX
    else if HasMode(reqs, IS) then GroupIS
    else NonLock
  }

  ghost predicate QueueOk(q: Queue) {
    OneEach(q.requests) && AllCompatible(q.requests) && q.group == GroupOf(q.requests)
  }

  ghost predicate InQueue(reqs: seq<Request>, t: int) {
    exists i :: 0 <= i < |reqs| && reqs[i].txn == t
  }

  // Another transaction has a request that the mode does not go with.
  ghost predicate Blocked(reqs: seq<Request>, t: int, mode: Mode) {
    exists i :: 0 <= i < |reqs| && reqs[i].txn != t && !Compatible(mode, reqs[i].mode)
  }

  // The transaction already holds the mode or a stronger one.
  ghost predicate Covered(reqs: seq<Request>, t: int, mode: Mode) {
    exists i :: 0 <= i < |reqs| && reqs[i].txn == t && Stronger(reqs[i].mode, mode)
  }

  // Transactions other than t have the same requests.
  ghost predicate OthersKeep(before: seq<Request>, after: seq<Request>, t: int) {
    forall r: Request :: r.txn != t ==> (r in after <==> r in before)
  }

  lemma UpgradeOk(reqs: seq<Request>, k: nat, mode: Mode)
    requires OneEach(reqs) && AllCompatible(reqs) && k < |reqs| && !Blocked(reqs, reqs[k].txn, mode)
    ensures OneEach(reqs[k := Request(reqs[k].txn, mode)]) && AllCompatible(reqs[k := Request(reqs[k].txn, mode)])
  {
    var reqs' := reqs[k := Request(reqs[k].txn, mode)];
    forall i, j | 0 <= i < |reqs'| && 0 <= j < |reqs'| && i != j ensures Compatible(reqs'[i].mode, reqs'[j].mode) {
      if i == k {
        assert reqs[j].txn != reqs[k].txn;
      } else if j == k {
        assert reqs[i].txn != reqs[k].txn;
        CompatibleSymmetric(mode, reqs[i].mode);
      }
    }
  }

  lemma AppendOk(reqs: seq<Request>, t: int, mode: Mode)
    requires OneEach(reqs) && AllCompatible(reqs) && !InQueue(reqs, t) && !Blocked(reqs, t, mode)
    ensures OneEach(reqs + [Request(t, mode)]) && AllCompatible(reqs + [Request(t, mode)])
  {
    var reqs' := reqs + [Request(t, mode)];
    forall i, j | 0 <= i < |reqs'| && 0 <= j < |reqs'| && i != j ensures Compatible(reqs'[i].mode, reqs'[j].mode) {
      if i == |reqs| {
        assert reqs[j].txn != t;
      } else if j == |reqs| {
        assert reqs[i].txn != t;
        CompatibleSymmetric(mode, reqs[i].mode);
      }
    }
  }

  function Cut(reqs: seq<Request>, k: nat): (r: seq<Request>)
    requires k < |reqs|
    ensures |r| == |reqs| - 1 && forall i :: 0 <= i < |r| ==> r[i] == reqs[if i < k then i else i + 1]
  {
    reqs[..k] + reqs[k + 1..]
  }

  lemma CutOk(reqs: seq<Request>, k: nat)
    requires OneEach(reqs) && AllCompatible(reqs) && k < |reqs|
    ensures OneEach(Cut(reqs, k)) && AllCompatible(Cut(reqs, k))
    ensures forall t :: InQueue(Cut(reqs, k), t) <==> InQueue(reqs, t) && t != reqs[k].txn
  {
    var cut := Cut(reqs, k);
    forall t ensures InQueue(cut, t) <==> InQueue(reqs, t) && t != reqs[k].txn {
      if InQueue(reqs, t) && t != reqs[k].txn {
        var i :| 0 <= i < |reqs| && reqs[i].txn == t;
        assert cut[if i < k then i else i - 1].txn == t;
      }
    }
  }

  ghost function GroupMode(g: Group): Mode
    requires g != NonLock
  {
    match g
    case GroupX => X
    case GroupSIX => SIX
    case GroupS => S
    case GroupIX => IX
    case _ => IS
  }

  lemma InGroup(reqs: seq<Request>, i: nat)
    requires AllCompatible(reqs) && i < |reqs|
    ensures GroupOf(reqs) != NonLock && HasMode(reqs, GroupMode(GroupOf(reqs)))
    ensures Stronger(GroupMode(GroupOf(reqs)), reqs[i].mode)
  {
    var m := reqs[i].mode;
    assert HasMode(reqs, m);
    forall n | HasMode(reqs, n) ensures n == m || Compatible(n, m) {
      var k :| 0 <= k < |reqs| && reqs[k].mode == n;
    }
    hide HasMode, AllCompatible;
    assert m == X || m == S || m == IS || m == IX || m == SIX;
  }

  // The group mode of a queue is one of its modes and covers all of them; an empty queue has none.
  lemma GroupCovers(reqs: seq<Request>)
    requires AllCompatible(reqs)
    ensures GroupOf(reqs) == NonLock <==> reqs == []
    ensures reqs != [] ==> HasMode(reqs, GroupMode(GroupOf(reqs)))
    ensures forall i :: 0 <= i < |reqs| ==> Stronger(GroupMode(GroupOf(reqs)), reqs[i].mode)
  {
    if reqs != [] {
      InGroup(reqs, 0);
    }
    hide GroupOf;
    forall i | 0 <= i < |reqs| ensures Stronger(GroupMode(GroupOf(reqs)), reqs[i].mode) {
      InGroup(reqs, i);
    }
  }

  // ---------------------------------------------------------------- the lock table

  ghost predicate TableOk(table: map<LockId, Queue>, txns: map<int, Txn>) {
    && (forall id :: id in table ==> QueueOk(table[id]))
    && (forall id, t :: id in table && InQueue(table[id].requests, t) ==> t in txns && id in txns[t].lockSet)
    && (forall id, t :: t in txns && id in txns[t].lockSet ==> id in table && InQueue(table[id].requests, t))
  }

  function RequestsOf(table: map<LockId, Queue>, id: LockId): seq<Request> {
    if id in table then table[id].requests else []
  }

  // What a lock request by t does to the lock table and the transactions.
  ghost predicate Acquires(table: map<LockId, Queue>, txns: map<int, Txn>, table': map<LockId, Queue>,
          txns': map<int, Txn>,
                           t: int, id: LockId, mode: Mode, out: Outcome) {
    var reqs, reqs' := RequestsOf(table, id), RequestsOf(table', id);
    && t in txns
    && (out == LockOnShrinking <==> txns[t].state == Shrinking)
    && (out == DeadlockPrevention <==> out != LockOnShrinking && !Covered(reqs, t, mode) && Blocked(reqs, t, mode))
    && (txns' == if out == LockOnShrinking then txns
                 else txns[t := Txn(if txns[t].state == Default then Growing else txns[t].state,
                                    txns[t].lockSet + if out == Granted then {id} else {})])
    && (out != Granted || Covered(reqs, t, mode) ==> table' == table)
    && (out == Granted && !Covered(reqs, t, mode) ==> Request(t, mode) in reqs')
    && OthersKeep(reqs, reqs', t)
    && (forall other :: other != id ==> RequestsOf(table', other) == RequestsOf(table, other))
  }

  // What giving a lock back does.
  ghost predicate Releases(table: map<LockId, Queue>, txns: map<int, Txn>, table': map<LockId, Queue>,
          txns': map<int, Txn>,
                           t: int, id: LockId) {
    && t in txns && txns' == txns[t := Released(txns[t], id)]
    && !InQueue(RequestsOf(table', id), t)
    && OthersKeep(RequestsOf(table, id), RequestsOf(table', id), t)
    && (forall other :: other != id ==> RequestsOf(table', other) == RequestsOf(table, other))
  }

  ghost function Released(txn: Txn, id: LockId): Txn {
    Txn(if txn.state in {Committed, Aborted} then txn.state else Shrinking, txn.lockSet - {id})
  }

  lemma ListedOnce(table: map<LockId, Queue>, txns: map<int, Txn>, t: int, id: LockId)
    requires TableOk(table, txns) && t in txns
    ensures id in txns[t].lockSet <==> id in table && InQueue(table[id].requests, t)
  {
  }

  lemma NothingToRelease(table: map<LockId, Queue>, txns: map<int, Txn>, t: int, id: LockId)
    requires TableOk(table, txns) && t in txns && (id in table ==> !InQueue(table[id].requests, t))
    ensures var txns' := txns[t := Released(txns[t], id)];
      && TableOk(table, txns') && Releases(table, txns, table, txns', t, id)
      && Released(txns[t], id).lockSet == txns[t].lockSet
  {
    ListedOnce(table, txns, t, id);
    assert txns[t].lockSet - {id} == txns[t].lockSet;
    hide InQueue, QueueOk;
  }

  lemma CutKeeps(reqs: seq<Request>, k: nat)
    requires OneEach(reqs) && k < |reqs|
    ensures OthersKeep(reqs, Cut(reqs, k), reqs[k].txn)
  {
    hide OneEach;
    forall r: Request | r.txn != reqs[k].txn ensures r in Cut(reqs, k) <==> r in reqs {
      if r in reqs {
        var i :| 0 <= i < |reqs| && reqs[i] == r;
        assert Cut(reqs, k)[if i < k then i else i - 1] == r;
      }
    }
  }

  lemma CutReleases(table: map<LockId, Queue>, txns: map<int, Txn>, t: int, id: LockId, k: nat, group: Group)
    requires TableOk(table, txns) && t in txns && id in table && k < |table[id].requests|
    requires table[id].requests[k].txn == t && group == GroupOf(Cut(table[id].requests, k))
    ensures var cut := Cut(table[id].requests, k);
      var table' := if |cut| == 0 then table - {id} else table[id := Queue(cut, group)];
      var txns' := txns[t := Released(txns[t], id)];
      TableOk(table', txns') && Releases(table, txns, table', txns', t, id)
  {
    var reqs := table[id].requests;
    var cut := Cut(reqs, k);
    CutOk(reqs, k);
    CutKeeps(reqs, k);
    hide GroupOf, OneEach, AllCompatible, OthersKeep;
    assert QueueOk(Queue(cut, group));
    TableCut(table, txns, id, Queue(cut, group), t);
  }

  // Two phases: whoever has given a lock back and goes on is refused every other.
  lemma NoneAfterRelease(table: map<LockId, Queue>, txns: map<int, Txn>, table': map<LockId, Queue>,
          txns': map<int, Txn>, table'': map<LockId, Queue>, txns'': map<int, Txn>,
          t: int, id: LockId, next: LockId, mode: Mode, out: Outcome)
    requires Releases(table, txns, table', txns', t, id) && txns[t].state !in {Committed, Aborted}
    requires Acquires(table', txns', table'', txns'', t, next, mode, out)
    ensures out == LockOnShrinking && table'' == table' && txns'' == txns'
  {
  }

  class LockManager {
    var table: map<LockId, Queue>
    var txns: map<int, Txn>

    ghost predicate Valid()
      reads this
    {
      TableOk(table, txns)
    }

    constructor ()
      ensures Valid() && table == map[] && txns == map[]
    {
      table, txns := map[], map[];
    }

    method UpdateGroup(reqs: seq<Request>) returns (group: Group)
      ensures group == GroupOf(reqs)
    {
      if |reqs| == 0 {
        return NonLock;
      }
      var hasX, hasSix, hasS, hasIx, hasIs := false, false, false, false, false;
      for i := 0 to |reqs|
        invariant hasX <==> HasMode(reqs[..i], X)
        invariant hasSix <==> HasMode(reqs[..i], SIX)
        invariant hasS <==> HasMode(reqs[..i], S)
        invariant hasIx <==> HasMode(reqs[..i], IX)
        invariant hasIs <==> HasMode(reqs[..i], IS)
      {
        HasModeNext(reqs, i);
        match reqs[i].mode
        case X => hasX := true;
        case SIX => hasSix := true;
        case S => hasS := true;
        case IX => hasIx := true;
        case IS => hasIs := true;
      }
      assert reqs[..|reqs|] == reqs;
      if hasX { return GroupX; }
      if hasSix { return GroupSIX; }
      if hasS { return GroupS; }
      if hasIx { return GroupIX; }
      if hasIs { return GroupIS; }
      group := NonLock;
    }

    // The position of the transaction's request, or the length of the queue.
    method Find(reqs: seq<Request>, t: int) returns (k: nat)
      ensures k <= |reqs| && (k < |reqs| ==> reqs[k].txn == t) && (k == |reqs| <==> !InQueue(reqs, t))
    {
      for i := 0 to |reqs|
        invariant forall j :: 0 <= j < i ==> reqs[j].txn != t
      {
        if reqs[i].txn == t {
          return i;
        }
      }
      k := |reqs|;
    }

    method IsBlocked(reqs: seq<Request>, t: int, mode: Mode) returns (blocked: bool)
      ensures blocked <==> Blocked(reqs, t, mode)
    {
      for i := 0 to |reqs|
        invariant forall j :: 0 <= j < i ==> reqs[j].txn == t || Compatible(mode, reqs[j].mode)
      {
        if reqs[i].txn != t && !Compatible(mode, reqs[i].mode) {
          return true;
        }
      }
      blocked := false;
    }

    // Grants the lock, or tells the transaction to abort; never waits.
    method AcquireLock(t: int, id: LockId, mode: Mode) returns (out: Outcome)
      requires Valid() && t in txns
      modifies this
      ensures Valid()
      ensures Acquires(old(table), old(txns), table, txns, t, id, mode, out)
      ensures mode == S && old(txns)[t].state != Shrinking && OnlyReaders(RequestsOf(old(table), id), t) ==>
        out == Granted
    {
      hide OnlyReaders, TableOk, Blocked, Stronger, Compatible, GroupOf, OthersKeep, Covered, WithRequest, OneEach,
        AllCompatible;
      OthersKeepSame(RequestsOf(table, id), t);
      if txns[t].state == Shrinking {
        return LockOnShrinking;
      }
      StateMoves(table, txns, t, Growing);
      if txns[t].state == Default {
        txns := txns[t := txns[t].(state := Growing)];
      }
      var reqs := if id in table then table[id].requests else [];
      var k := Find(reqs, t);
      CoveredAt(table, txns, id, k, t, mode);
      if k < |reqs| && Stronger(reqs[k].mode, mode) {
        AlreadyHeld(table, txns, id, k, mode);
        assert txns[t].lockSet + {id} == txns[t].lockSet;
        return Granted;
      }
      var blocked := IsBlocked(reqs, t, mode);
      if blocked {
        ReadersPass(reqs, t);
        assert txns[t].lockSet + {} == txns[t].lockSet;
        return DeadlockPrevention;
      }
      var group := UpdateGroup(WithRequest(reqs, k, t, mode));
      GrantKept(table, txns, id, k, t, mode, group);
      table := table[id := Queue(WithRequest(reqs, k, t, mode), group)];
      txns := txns[t := txns[t].(lockSet := txns[t].lockSet + {id})];
      out := Granted;
    }

    // Gives a lock back; before the end of the transaction this starts its shrinking phase.
    method Unlock(t: int, id: LockId) returns (ok: bool)
      requires Valid() && t in txns
      modifies this
      ensures Valid()
      ensures ok <==> id in old(txns)[t].lockSet
      ensures Releases(old(table), old(txns), table, txns, t, id)
    {
      hide GroupOf, OneEach, AllCompatible, TableOk, QueueOk, Releases, InQueue;
      ghost var m0, n0 := table, txns;
      ListedOnce(m0, n0, t, id);
      if txns[t].state != Committed && txns[t].state != Aborted {
        txns := txns[t := txns[t].(state := Shrinking)];
      }
      if id !in table {
        NothingToRelease(m0, n0, t, id);
        assert txns == n0[t := Released(n0[t], id)];
        return false;
      }
      var reqs := table[id].requests;
      var k := Find(reqs, t);
      if k == |reqs| {
        NothingToRelease(m0, n0, t, id);
        assert txns == n0[t := Released(n0[t], id)];
        return false;
      }
      var cut := Cut(reqs, k);
      var group := UpdateGroup(cut);
      CutReleases(m0, n0, t, id, k, group);
      if |cut| == 0 {
        table := table - {id};
      } else {
        table := table[id := Queue(cut, group)];
      }
      txns := txns[t := txns[t].(lockSet := txns[t].lockSet - {id})];
      assert txns == n0[t := Released(n0[t], id)];
      ok := true;
    }

    // The end of a commit or an abort: every lock of the transaction is given back, in any order.
    method ReleaseAll(t: int, locks: seq<LockId>, end: State)
      requires Valid() && t in txns
      requires forall id :: id in locks <==> id in txns[t].lockSet
      modifies this
      ensures Valid() && txns == old(txns)[t := Txn(end, {})]
      ensures forall id :: !InQueue(RequestsOf(table, id), t)
      ensures forall id :: OthersKeep(RequestsOf(old(table), id), RequestsOf(table, id), t)
    {
      hide TableOk, InQueue, OthersKeep;
      forall id ensures OthersKeep(RequestsOf(table, id), RequestsOf(table, id), t) {
        OthersKeepSame(RequestsOf(table, id), t);
      }
      for i := 0 to |locks|
        invariant TableOk(table, txns) && t in txns && txns == old(txns)[t := txns[t]]
        invariant forall id :: id in txns[t].lockSet ==> id in locks[i..]
        invariant forall id :: OthersKeep(RequestsOf(old(table), id), RequestsOf(table, id), t)
      {
        ghost var before, history := table, txns;
        var _ := Unlock(t, locks[i]);
        OthersKeepChain(old(table), before, table, locks[i], t);
        assert txns == history[t := txns[t]];
        assert locks[i..] == [locks[i]] + locks[i + 1..];
      }
      assert txns[t].lockSet == {};
      NotQueued(table, txns, t);
      txns := txns[t := Txn(end, {})];
      assert txns == old(txns)[t := Txn(end, {})];
    }
  }

  lemma OthersKeepChain(first: map<LockId, Queue>, before: map<LockId, Queue>, after: map<LockId, Queue>,
          moved: LockId, t: int)
    requires forall id :: OthersKeep(RequestsOf(first, id), RequestsOf(before, id), t)
    requires OthersKeep(RequestsOf(before, moved), RequestsOf(after, moved), t)
    requires forall id :: id != moved ==> RequestsOf(after, id) == RequestsOf(before, id)
    ensures forall id :: OthersKeep(RequestsOf(first, id), RequestsOf(after, id), t)
  {
  }

  lemma NotQueued(table: map<LockId, Queue>, txns: map<int, Txn>, t: int)
    requires t in txns && txns[t].lockSet == {} && TableOk(table, txns)
    ensures forall id :: !InQueue(RequestsOf(table, id), t)
    ensures forall end :: TableOk(table, txns[t := Txn(end, {})])
  {
  }

  lemma OthersKeepSame(reqs: seq<Request>, t: int)
    ensures OthersKeep(reqs, reqs, t)
  {
  }

  lemma CoveredAt(table: map<LockId, Queue>, txns: map<int, Txn>, id: LockId, k: nat, t: int, mode: Mode)
    requires var reqs := RequestsOf(table, id); k <= |reqs| && (k < |reqs| ==> reqs[k].txn == t)
    requires var reqs := RequestsOf(table, id); k == |reqs| <==> !InQueue(reqs, t)
    requires TableOk(table, txns)
    ensures var reqs := RequestsOf(table, id); Covered(reqs, t, mode) <==> k < |reqs| && Stronger(reqs[k].mode, mode)
  {
    var reqs := RequestsOf(table, id);
    assert OneEach(reqs);
  }

  lemma StateMoves(table: map<LockId, Queue>, txns: map<int, Txn>, t: int, state: State)
    requires t in txns && TableOk(table, txns)
    ensures TableOk(table, txns[t := txns[t].(state := state)])
  {
    hide QueueOk, InQueue;
  }

  lemma AlreadyHeld(table: map<LockId, Queue>, txns: map<int, Txn>, id: LockId, k: nat, mode: Mode)
    requires id in table && k < |table[id].requests| && Stronger(table[id].requests[k].mode, mode)
    requires TableOk(table, txns)
    ensures var t := table[id].requests[k].txn; t in txns && id in txns[t].lockSet
  {
    hide QueueOk, Stronger;
    assert InQueue(table[id].requests, table[id].requests[k].txn);
  }

  // The upgraded request in place, or a new one at the end.
  function WithRequest(reqs: seq<Request>, k: nat, t: int, mode: Mode): seq<Request>
    requires k <= |reqs|
  {
    if k < |reqs| then reqs[k := Request(t, mode)] else reqs + [Request(t, mode)]
  }

  lemma WithRequestOthers(reqs: seq<Request>, k: nat, t: int, mode: Mode)
    requires k <= |reqs| && (k < |reqs| ==> reqs[k].txn == t)
    ensures OthersKeep(reqs, WithRequest(reqs, k, t, mode), t)
  {
    var reqs' := WithRequest(reqs, k, t, mode);
    forall r: Request | r.txn != t ensures r in reqs' <==> r in reqs {
      if r in reqs {
        var i :| 0 <= i < |reqs| && reqs[i] == r;
        assert reqs'[i] == r;
      }
    }
  }

  lemma GrantKept(table: map<LockId, Queue>, txns: map<int, Txn>, id: LockId, k: nat, t: int, mode: Mode, group: Group)
    requires t in txns
    requires var reqs := RequestsOf(table, id); k <= |reqs| && (k < |reqs| ==> reqs[k].txn == t)
    requires var reqs := RequestsOf(table, id); (k == |reqs| <==> !InQueue(reqs, t)) && !Blocked(reqs, t, mode)
    requires group == GroupOf(WithRequest(RequestsOf(table, id), k, t, mode))
    requires TableOk(table, txns)
    ensures var q := Queue(WithRequest(RequestsOf(table, id), k, t, mode), group);
      TableOk(table[id := q], txns[t := txns[t].(lockSet := txns[t].lockSet + {id})]) && Request(t, mode) in q.requests
    ensures OthersKeep(RequestsOf(table, id), WithRequest(RequestsOf(table, id), k, t, mode), t)
  {
    var reqs := RequestsOf(table, id);
    WithRequestOthers(reqs, k, t, mode);
    var reqs' := WithRequest(reqs, k, t, mode);
    hide GroupOf, Blocked;
    assert OneEach(reqs) && AllCompatible(reqs);
    if k < |reqs| {
      UpgradeOk(reqs, k, mode);
    } else {
      AppendOk(reqs, t, mode);
    }
    assert reqs'[k] == Request(t, mode);
    hide OneEach, AllCompatible;
    SameOthers(reqs, reqs', k, t);
    TableKept(table, txns, id, Queue(reqs', group), t);
  }

  lemma HasModeNext(reqs: seq<Request>, i: nat)
    requires i < |reqs|
    ensures forall m :: HasMode(reqs[..i + 1], m) <==> HasMode(reqs[..i], m) || m == reqs[i].mode
  {
    forall m ensures HasMode(reqs[..i + 1], m) <==> HasMode(reqs[..i], m) || m == reqs[i].mode {
      if HasMode(reqs[..i], m) {
        var j :| 0 <= j < i && reqs[..i][j].mode == m;
        assert reqs[..i + 1][j].mode == m;
      }
      if m == reqs[i].mode {
        assert reqs[..i + 1][i].mode == m;
      }
      if HasMode(reqs[..i + 1], m) && m != reqs[i].mode {
        var j :| 0 <= j < i + 1 && reqs[..i + 1][j].mode == m;
        assert reqs[..i][j].mode == m;
      }
    }
  }

  // The queue has the same transactions, and t.
  lemma SameOthers(reqs: seq<Request>, reqs': seq<Request>, k: nat, t: int)
    requires k <= |reqs| && |reqs'| == (if k < |reqs| then |reqs| else |reqs| + 1) && reqs'[k].txn == t
    requires forall i :: 0 <= i < |reqs| && i != k ==> reqs'[i] == reqs[i]
    requires k < |reqs| ==> reqs[k].txn == t
    ensures forall u :: InQueue(reqs', u) <==> InQueue(reqs, u) || u == t
  {
    forall u ensures InQueue(reqs', u) <==> InQueue(reqs, u) || u == t {
      if InQueue(reqs, u) {
        var i :| 0 <= i < |reqs| && reqs[i].txn == u;
        assert reqs'[i].txn == u;
      }
      if u == t {
        assert reqs'[k].txn == u;
      }
    }
  }

  lemma TableKept(table: map<LockId, Queue>, txns: map<int, Txn>, id: LockId, q: Queue, t: int)
    requires TableOk(table, txns) && QueueOk(q) && t in txns
    requires forall u :: InQueue(q.requests, u) <==> InQueue(RequestsOf(table, id), u) || u == t
    ensures TableOk(table[id := q], txns[t := txns[t].(lockSet := txns[t].lockSet + {id})])
  {
    hide QueueOk;
  }

  lemma TableCut(table: map<LockId, Queue>, txns: map<int, Txn>, id: LockId, q: Queue, t: int)
    requires TableOk(table, txns) && QueueOk(q) && t in txns && id in table
    requires forall u :: InQueue(q.requests, u) <==> InQueue(table[id].requests, u) && u != t
    ensures TableOk(if |q.requests| == 0 then table - {id} else table[id := q],
      txns[t := txns[t].(lockSet := txns[t].lockSet - {id})])
  {
    hide QueueOk;
    if |q.requests| == 0 {
      forall u ensures !InQueue(table[id].requests, u) || u == t {
        assert !InQueue(q.requests, u);
      }
    }
  }
}
