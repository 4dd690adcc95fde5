/**
 The log, seen from one place of one table: which value the place has after each record,
 what redo and undo do to it, and why they end with the value the winners left.
 */
module RecoveryLog {
  import opened RecordIds
  import opened Conditions

  // A slot of a table.
  datatype Place = Place(tab: int, rid: Rid)

  datatype Val = Absent | Present(rec: Record)

  // The position of a record in the log is its log sequence number.
  datatype LogRec =
    | Begin(txn: int)
    | Commit(txn: int)
    | Abort(txn: int)
    | Insert(txn: int, place: Place, rec: Record)
    | Delete(txn: int, place: Place, rec: Record)
    | Update(txn: int, place: Place, before: Record, after: Record)
  {
    predicate Data() {
      Insert? || Delete? || Update?
    }

    predicate Ends(t: int) {
      (Commit? || Abort?) && txn == t
    }

    predicate Touches(x: Place) {
      Data() && place == x
    }

    // The value of the place before and after the change.
    function Before(): Val
      requires Data()
    {
      match this
      case Insert(_, _, _) => Absent
      case Delete(_, _, rec) => Present(rec)
      case Update(_, _, before, _) => Present(before)
    }

    function After(): Val
      requires Data()
    {
      match this
      case Insert(_, _, rec) => Present(rec)
      case Delete(_, _, _) => Absent
      case Update(_, _, _, after) => Present(after)
    }

    // What redo makes of the value it finds: it does not overwrite a record by an insertion,
    // and a deletion or update of nothing leaves nothing.
    function Redone(v: Val): Val
      requires Data()
    {
      match this
      case Insert(_, _, rec) => if v.Present? then v else Present(rec)
      case Delete(_, _, _) => Absent
      case Update(_, _, _, after) => if v.Present? then Present(after) else v
    }

    // What undo makes of the value it finds.
    function Undone(v: Val): Val
      requires Data()
    {
      match this
      case Insert(_, _, _) => Absent
      case Delete(_, _, rec) => if v.Absent? then Present(rec) else v
      case Update(_, _, before, _) => if v.Present? then Present(before) else v
    }
  }

  type Log = seq<LogRec>

  // Redo of a change that is not there yet makes it, redo of one that is there leaves it, and undo takes it back.
  // Neither overwrites a record by an insertion, and neither updates where there is none.
  lemma DoneAndUndone(t: int, x: Place, a: Record, b: Record, c: Record)
    ensures Insert(t, x, a).Redone(Present(c)) == Present(c) == Delete(t, x, a).Undone(Present(c))
    ensures Update(t, x, a, b).Redone(Absent) == Absent == Update(t, x, a, b).Undone(Absent)
    ensures Insert(t, x, a).Undone(Present(c)) == Absent == Delete(t, x, a).Redone(Present(c))
    ensures Update(t, x, a, b).Redone(Present(c)) == Present(b)
    ensures Update(t, x, a, b).Undone(Present(c)) == Present(a)
    ensures Insert(t, x, a).Redone(Absent) == Present(a) == Insert(t, x, a).Redone(Present(a))
    ensures Insert(t, x, a).Undone(Present(a)) == Absent == Insert(t, x, a).Undone(Absent)
    ensures Delete(t, x, a).Redone(Present(a)) == Absent == Delete(t, x, a).Redone(Absent)
    ensures Delete(t, x, a).Undone(Absent) == Present(a) == Delete(t, x, a).Undone(Present(a))
    ensures Update(t, x, a, b).Redone(Present(a)) == Present(b) == Update(t, x, a, b).Redone(Present(b))
    ensures Update(t, x, a, b).Undone(Present(b)) == Present(a) == Update(t, x, a, b).Undone(Present(a))
  {
  }

  // The value of x after the first n records, if all of them take effect.
  function ValueAt(log: Log, x: Place, v0: Val, n: nat): Val
    requires n <= |log|
  {
    if n == 0 then v0 else if log[n - 1].Touches(x) then log[n - 1].After() else ValueAt(log, x, v0, n - 1)
  }

  // The value of x after the first n records, if only those of the winners take effect.
  function WonAt(log: Log, x: Place, v0: Val, n: nat, winners: set<int>): Val
    requires n <= |log|
  {
    if n == 0 then v0
    else if log[n - 1].Touches(x) && log[n - 1].txn in winners then log[n - 1].After()
    else WonAt(log, x, v0, n - 1, winners)
  }

  // The last change by a winner decides: the place has the record it inserted or updated to, or none; and without
  // any it has what it had.
  lemma {:induction false} WonLastChange(log: Log, x: Place, v0: Val, n: nat, winners: set<int>, i: nat)
    requires i < n <= |log| && log[i].Touches(x) && log[i].txn in winners
    requires forall j :: i < j < n ==> !(log[j].Touches(x) && log[j].txn in winners)
    ensures WonAt(log, x, v0, n, winners) == match log[i]
      case Insert(_, _, rec) => Present(rec)
      case Update(_, _, _, after) => Present(after)
      case _ => Absent
  {
    if i < n - 1 {
      WonLastChange(log, x, v0, n - 1, winners, i);
    }
  }

  lemma {:induction false} WonNoChange(log: Log, x: Place, v0: Val, n: nat, winners: set<int>)
    requires n <= |log| && forall j :: 0 <= j < n ==> !(log[j].Touches(x) && log[j].txn in winners)
    ensures WonAt(log, x, v0, n, winners) == v0
  {
    if n > 0 {
      WonNoChange(log, x, v0, n - 1, winners);
    }
  }

  // Each change was logged with the value it found.
  ghost predicate Faithful(log: Log, x: Place, v0: Val) {
    forall i :: 0 <= i < |log| && log[i].Touches(x) ==> log[i].Before() == ValueAt(log, x, v0, i)
  }

  // Once a loser has written x, nobody else does.
  ghost predicate LoserLast(log: Log, x: Place, winners: set<int>) {
    forall i, j :: 0 <= i < j < |log| && log[i].Touches(x) && log[j].Touches(x) && log[i].txn !in winners ==>
      log[j].txn == log[i].txn
  }

  // ---------------------------------------------------------------- redo of one place

  // Redo of the records from position `from` on, from the value v.
  function RedoneFrom(log: Log, x: Place, from: nat, n: nat, v: Val): Val
    requires from <= n <= |log|
    decreases n - from
  {
    if from == n then v
    else RedoneFrom(log, x, from + 1, n, if log[from].Touches(x) then log[from].Redone(v) else v)
  }

  // From the value a place had at position `from`, redo leads to the value at the end.
  lemma {:induction false} RedoExact(log: Log, x: Place, v0: Val, from: nat, n: nat)
    requires Faithful(log, x, v0) && from <= n <= |log|
    ensures RedoneFrom(log, x, from, n, ValueAt(log, x, v0, from)) == ValueAt(log, x, v0, n)
    decreases n - from
  {
    if from < n {
      if log[from].Touches(x) {
        assert log[from].Before() == ValueAt(log, x, v0, from);
      }
      RedoExact(log, x, v0, from + 1, n);
    }
  }

  lemma {:induction false} RedoNothing(log: Log, x: Place, from: nat, n: nat, v: Val)
    requires from <= n <= |log| && forall i :: from <= i < n ==> !log[i].Touches(x)
    ensures RedoneFrom(log, x, from, n, v) == v
    decreases n - from
  {
    if from < n {
      RedoNothing(log, x, from + 1, n, v);
    }
  }

  // ---------------------------------------------------------------- undo of one place

  // Undo of the losers' records below position n, last first, from the value v.
  function UndoneFrom(log: Log, x: Place, n: nat, losers: set<int>, v: Val): Val
    requires n <= |log|
  {
    if n == 0 then v
    else UndoneFrom(log, x, n - 1, losers, if log[n - 1].Touches(x)
      && log[n - 1].txn in losers then log[n - 1].Undone(v) else v)
  }

  // The first record of a loser on x, or the end of the log.
  ghost predicate FirstLoss(log: Log, x: Place, winners: set<int>, f: nat) {
    && f <= |log|
    && (f < |log| ==> log[f].Touches(x) && log[f].txn !in winners)
    && (forall i :: 0 <= i < f && log[i].Touches(x) ==> log[i].txn in winners)
  }

  lemma {:induction false} FindFirstLoss(log: Log, x: Place, winners: set<int>) returns (f: nat)
    ensures FirstLoss(log, x, winners, f)
  {
    f := 0;
    while f < |log| && !(log[f].Touches(x) && log[f].txn !in winners)
      invariant f <= |log| && forall i :: 0 <= i < f && log[i].Touches(x) ==> log[i].txn in winners
    {
      f := f + 1;
    }
  }

  // From the first loss on, the winners no longer change x.
  lemma {:induction false} WonIsFirstLoss(log: Log, x: Place, v0: Val, winners: set<int>, f: nat, n: nat)
    requires FirstLoss(log, x, winners, f) && LoserLast(log, x, winners) && n <= |log|
    ensures n <= f ==> WonAt(log, x, v0, n, winners) == ValueAt(log, x, v0, n)
    ensures n >= f ==> WonAt(log, x, v0, n, winners) == ValueAt(log, x, v0, f)
  {
    if n > 0 {
      WonIsFirstLoss(log, x, v0, winners, f, n - 1);
      if n - 1 > f && log[n - 1].Touches(x) {
        assert log[n - 1].txn == log[f].txn;
      }
    }
  }

  // The values x had from the first loss up to position n.
  ghost predicate PassedThrough(log: Log, x: Place, v0: Val, f: nat, n: nat, v: Val) {
    f <= n <= |log| && exists k :: f <= k <= n && v == ValueAt(log, x, v0, k)
  }

  // Undo from any value that x passed through since the first loss ends at the value before it.
  lemma {:induction false} UndoFromAnyValue(log: Log, x: Place, v0: Val, winners: set<int>, losers: set<int>, f: nat,
          n: nat, v: Val)
    requires Faithful(log, x, v0) && LoserLast(log, x, winners) && FirstLoss(log, x, winners, f) && f <= n
    requires forall i :: 0 <= i < |log| && log[i].Touches(x) ==> (log[i].txn in losers <==> log[i].txn !in winners)
    requires PassedThrough(log, x, v0, f, n, v)
    ensures UndoneFrom(log, x, n, losers, v) == ValueAt(log, x, v0, f)
    decreases n
  {
    var k :| f <= k <= n && v == ValueAt(log, x, v0, k);
    if n == f {
      UndoWinnersOnly(log, x, winners, losers, n, v);
    } else {
      var r := log[n - 1];
      var v' := if r.Touches(x) && r.txn in losers then r.Undone(v) else v;
      if r.Touches(x) {
        assert n - 1 > f ==> r.txn == log[f].txn;
        assert r.Before() == ValueAt(log, x, v0, n - 1);
        assert v' == r.Before() || (v' == v && k < n);
      } else {
        assert k == n ==> v == ValueAt(log, x, v0, n - 1);
      }
      assert PassedThrough(log, x, v0, f, n - 1, v') by {
        if v' == ValueAt(log, x, v0, n - 1) {
        } else {
          assert v' == ValueAt(log, x, v0, k) && k <= n - 1;
        }
      }
      UndoFromAnyValue(log, x, v0, winners, losers, f, n - 1, v');
    }
  }

  lemma {:induction false} UndoWinnersOnly(log: Log, x: Place, winners: set<int>, losers: set<int>, n: nat, v: Val)
    requires n <= |log|
    requires forall i :: 0 <= i < n && log[i].Touches(x) ==> log[i].txn in winners && log[i].txn !in losers
    ensures UndoneFrom(log, x, n, losers, v) == v
  {
    if n > 0 {
      UndoWinnersOnly(log, x, winners, losers, n - 1, v);
    }
  }

  // ---------------------------------------------------------------- one place through recovery

  // What a page image with sequence number lsn may show of x: the value at that position; or, if nobody
  // has written x since, any value a loser took it through.
  ghost predicate Snapshot(log: Log, x: Place, v0: Val, winners: set<int>, lsn: nat, v: Val) {
    && lsn < |log|
    && (v == ValueAt(log, x, v0, lsn + 1)
        || ((forall i :: lsn < i < |log| ==> !log[i].Touches(x))
            && exists f :: FirstLoss(log, x, winners, f) && PassedThrough(log, x, v0, f, |log|, v)))
  }

  // Redo behind the image, then undo: the value that the winners alone would have left.
  lemma PlaceRecovered(log: Log, x: Place, v0: Val, winners: set<int>, losers: set<int>, lsn: nat, v: Val)
    requires Faithful(log, x, v0) && LoserLast(log, x, winners) && Snapshot(log, x, v0, winners, lsn, v)
    requires forall i :: 0 <= i < |log| && log[i].Touches(x) ==> (log[i].txn in losers <==> log[i].txn !in winners)
    ensures UndoneFrom(log, x, |log|, losers, RedoneFrom(log, x, lsn + 1, |log|, v)) == WonAt(log, x, v0, |log|,
      winners)
  {
    var redone := RedoneFrom(log, x, lsn + 1, |log|, v);
    var f;
    if v == ValueAt(log, x, v0, lsn + 1) {
      RedoExact(log, x, v0, lsn + 1, |log|);
      f := FindFirstLoss(log, x, winners);
      assert PassedThrough(log, x, v0, f, |log|, redone);
    } else {
      RedoNothing(log, x, lsn + 1, |log|, v);
      f :| FirstLoss(log, x, winners, f) && PassedThrough(log, x, v0, f, |log|, v);
    }
    UndoFromAnyValue(log, x, v0, winners, losers, f, |log|, redone);
    WonIsFirstLoss(log, x, v0, winners, f, |log|);
  }

  // Undo may be cut short and started again: it reaches the same value from wherever it was cut.
  lemma UndoRepeatable(log: Log, x: Place, v0: Val, winners: set<int>, losers: set<int>, f: nat, v: Val, w: Val)
    requires Faithful(log, x, v0) && LoserLast(log, x, winners) && FirstLoss(log, x, winners, f)
    requires forall i :: 0 <= i < |log| && log[i].Touches(x) ==> (log[i].txn in losers <==> log[i].txn !in winners)
    requires PassedThrough(log, x, v0, f, |log|, v) && PassedThrough(log, x, v0, f, |log|, w)
    ensures UndoneFrom(log, x, |log|, losers, v) == UndoneFrom(log, x, |log|, losers, w)
    ensures UndoneFrom(log, x, |log|, losers, UndoneFrom(log, x, |log|, losers, v)) == UndoneFrom(log, x, |log|, losers,
      v)
  {
    UndoFromAnyValue(log, x, v0, winners, losers, f, |log|, v);
    UndoFromAnyValue(log, x, v0, winners, losers, f, |log|, w);
    UndoFromAnyValue(log, x, v0, winners, losers, f, |log|, ValueAt(log, x, v0, f));
  }

  // A place that nobody touches keeps its value.
  lemma {:induction false} ValueSame(log: Log, x: Place, v0: Val, m: nat, n: nat)
    requires m <= n <= |log| && forall i :: m <= i < n ==> !log[i].Touches(x)
    ensures ValueAt(log, x, v0, n) == ValueAt(log, x, v0, m)
    decreases n
  {
    if m < n {
      ValueSame(log, x, v0, m, n - 1);
    }
  }
}
