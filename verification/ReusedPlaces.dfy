/**
 Places that are written again after an abort.  An abort leaves no mark in the log of what it has rolled
 back, so recovery rolls it back once more: what that does to the value the place has by then.
 */
module ReusedPlaces {
  import opened Conditions
  import opened RecoveryLog

  // The first loser's record on x is at f, the last one below e.  In between nobody else writes x, and each
  // record was logged with the value it found.
  ghost predicate Lost(log: Log, x: Place, losers: set<int>, v0: Val, f: nat, e: nat) {
    && f < e <= |log| && log[f].Touches(x)
    && (forall i :: f <= i < e && log[i].Touches(x) ==>
      log[i].txn in losers && (f < i ==> log[i].Before() == ValueAt(log, x, v0, i)))
    && (forall i :: 0 <= i < |log| && (i < f || e <= i) && log[i].Touches(x) ==> log[i].txn !in losers)
  }

  // The place was overwritten again and again, but never emptied or filled.
  ghost predicate OnlyUpdates(log: Log, x: Place, f: nat, e: nat) {
    forall i :: f <= i < e && i < |log| && log[i].Touches(x) ==> log[i].Update?
  }

  ghost predicate Once(log: Log, x: Place, f: nat, e: nat) {
    forall i :: f < i < e && i < |log| ==> !log[i].Touches(x)
  }

  // Undoing the losers' change leaves a value v alone.
  ghost predicate Spared(log: Log, x: Place, f: nat, e: nat, v: Val)
    requires f < |log| && log[f].Data()
  {
    || v == log[f].Before()
    || (v.Absent? && OnlyUpdates(log, x, f, e))
    || (v.Present? && log[f].Delete? && Once(log, x, f, e))
  }

  // Undo of the losers' records from n up to m, last first, from the value v.
  function UndonePart(log: Log, x: Place, n: nat, m: nat, losers: set<int>, v: Val): Val
    requires n <= m <= |log|
    decreases m - n
  {
    if n == m then v
    else
      var w := UndonePart(log, x, n + 1, m, losers, v);
      if log[n].Touches(x) && log[n].txn in losers then log[n].Undone(w) else w
  }

  lemma {:induction false} UndoneInParts(log: Log, x: Place, n: nat, m: nat, losers: set<int>, v: Val)
    requires n <= m <= |log|
    ensures UndoneFrom(log, x, m, losers, v) == UndoneFrom(log, x, n, losers, UndonePart(log, x, n, m, losers, v))
    decreases m - n
  {
    if n < m {
      UndoneInParts(log, x, n + 1, m, losers, v);
    }
  }

  lemma {:induction false} UndoneOutside(log: Log, x: Place, n: nat, m: nat, losers: set<int>, v: Val)
    requires n <= m <= |log| && forall i :: n <= i < m && log[i].Touches(x) ==> log[i].txn !in losers
    ensures UndonePart(log, x, n, m, losers, v) == v
    decreases m - n
  {
    if n < m {
      UndoneOutside(log, x, n + 1, m, losers, v);
    }
  }

  // Undoing the losers' records from n on, the first of them on x being at g.
  lemma {:induction false} UndoneTail(log: Log, x: Place, losers: set<int>, v0: Val, f: nat, e: nat, n: nat, g: nat,
          v: Val)
    requires Lost(log, x, losers, v0, f, e) && f <= n <= g < e
    requires log[g].Touches(x) && forall i :: n <= i < g ==> !log[i].Touches(x)
    ensures UndonePart(log, x, n, e, losers, v)
         == if Spared(log, x, g, e, v) then v else log[g].Before()
    decreases e - n
  {
    if n < g {
      UndoneTail(log, x, losers, v0, f, e, n + 1, g, v);
    } else {
      var h := FirstTouch(log, x, g + 1, e);
      if h == e {
        UndoneOutside(log, x, g + 1, e, losers, v);
      } else {
        UndoneTail(log, x, losers, v0, f, e, g + 1, h, v);
        ValueSame(log, x, v0, g + 1, h);
        TwoSpared(log, x, g, h, e, v);
      }
    }
  }

  // A change with a later one at h, and what sparing v means for both.
  lemma TwoSpared(log: Log, x: Place, g: nat, h: nat, e: nat, v: Val)
    requires g < h < e <= |log| && log[g].Touches(x) && log[h].Touches(x) && log[h].Before() == log[g].After()
    requires forall i :: g < i < h ==> !log[i].Touches(x)
    ensures !Once(log, x, g, e)
    ensures OnlyUpdates(log, x, g, e) <==> log[g].Update? && OnlyUpdates(log, x, h, e)
    ensures OnlyUpdates(log, x, h, e) ==> log[h].Update?
  {
  }

  // The first record on x from a position on, or the end.
  lemma FirstTouch(log: Log, x: Place, n: nat, e: nat) returns (h: nat)
    requires n <= e <= |log|
    ensures n <= h <= e && (h < e ==> log[h].Touches(x)) && forall i :: n <= i < h ==> !log[i].Touches(x)
  {
    h := n;
    while h < e && !log[h].Touches(x)
      invariant n <= h <= e && forall i :: n <= i < h ==> !log[i].Touches(x)
    {
      h := h + 1;
    }
  }

  // A place the losers have changed and that has since been given the value v, by whomever: what undo makes of it.
  lemma LateUndoValue(log: Log, x: Place, losers: set<int>, v0: Val, f: nat, e: nat, v: Val)
    requires Lost(log, x, losers, v0, f, e)
    ensures UndoneFrom(log, x, |log|, losers, v) == if Spared(log, x, f, e, v) then v else log[f].Before()
  {
    UndoneInParts(log, x, e, |log|, losers, v);
    UndoneOutside(log, x, e, |log|, losers, v);
    UndoneInParts(log, x, f, e, losers, v);
    UndoneTail(log, x, losers, v0, f, e, f, f, v);
    var w := if Spared(log, x, f, e, v) then v else log[f].Before();
    UndoneInParts(log, x, 0, f, losers, w);
    UndoneOutside(log, x, 0, f, losers, w);
  }

  /**
   Undo keeps the value if and only if it is the one the losers found; or the place is empty and they only
   updated it; or it is filled and they deleted it once and did nothing else.
   */
  lemma LateUndo(log: Log, x: Place, losers: set<int>, v0: Val, f: nat, e: nat, v: Val)
    requires Lost(log, x, losers, v0, f, e)
    ensures UndoneFrom(log, x, |log|, losers, v) == v
      <==> (|| v == log[f].Before()
            || (v.Absent? && OnlyUpdates(log, x, f, e))
            || (v.Present? && log[f].Delete? && Once(log, x, f, e)))
  {
    LateUndoValue(log, x, losers, v0, f, e, v);
  }

  // An insertion rolled back, and another transaction's committed insertion in the same place: recovery
  // takes it away.
  lemma ReusedPlaceLost(x: Place, a: Record, b: Record)
    ensures var log := [Begin(0), Insert(0, x, a), Abort(0), Begin(1), Insert(1, x, b), Commit(1)];
            && WonAt(log, x, Absent, 6, {1}) == Present(b)
            && UndoneFrom(log, x, 6, {0}, Present(b)) == Absent
  {
    var log := [Begin(0), Insert(0, x, a), Abort(0), Begin(1), Insert(1, x, b), Commit(1)];
    assert log[1].Touches(x) && log[4].Touches(x) && !log[5].Touches(x);
    assert ValueAt(log, x, Absent, 1) == ValueAt(log, x, Absent, 0);
    LateUndoValue(log, x, {0}, Absent, 1, 2, Present(b));
  }
}
