/**
 The images that make a reuse go wrong are reached: a page written back in the middle of a rollback is enough.  So
 what ReuseRuns says of all images the invariant admits holds of those that runs leave on the disk.
 */
module ReuseReached {
  import opened RecordIds
  import opened RecoveryLog
  import opened ReusedPlaces
  import opened Recovery
  import opened CrashRuns
  import opened ReuseRuns

  // The same history and the same memory; the disk may differ, and more of the log may have been flushed.
  ghost predicate SameMemory(a: Sys, b: Sys) {
    && a.log == b.log && a.mem == b.mem && a.txns == b.txns && a.owner == b.owner && a.spoilt == b.spoilt
    && a.flushed <= b.flushed <= |a.log|
  }

  // The events without those that write page id back.
  ghost function Without(events: seq<Event>, id: PageId): seq<Event>
    decreases |events|
  {
    if events == [] then []
    else (if events[0] == EvWriteBack(id) then [] else [events[0]]) + Without(events[1..], id)
  }

  lemma SameStep(w: World, a: Sys, b: Sys, e: Event)
    requires SameMemory(a, b) && Enabled(w, a, e)
    ensures Enabled(w, b, e) && SameMemory(Apply(a, e), Apply(b, e))
    ensures !e.EvWriteBack? ==> Apply(b, e).disk == b.disk
  {
  }

  lemma SameSkip(w: World, a: Sys, b: Sys, id: PageId)
    requires SameMemory(a, b)
    ensures SameMemory(Apply(a, EvWriteBack(id)), b)
  {
  }

  lemma {:induction false} RunsOn(w: World, s: Sys, first: seq<Event>, more: seq<Event>)
    requires Runs(w, s, first) && Runs(w, After(s, first), more)
    ensures Runs(w, s, first + more) && After(s, first + more) == After(After(s, first), more)
    decreases |first|
  {
    hide Enabled, Apply;
    if first == [] {
      assert first + more == more;
    } else {
      assert (first + more)[1..] == first[1..] + more;
      RunsOn(w, Apply(s, first[0]), first[1..], more);
    }
  }

  // What is left out of a run, or done more, on the disk does not show in memory.
  lemma {:induction false} RunsWithout(w: World, a: Sys, b: Sys, events: seq<Event>, id: PageId)
    requires SameMemory(a, b) && Runs(w, a, events)
    ensures Runs(w, b, Without(events, id)) && SameMemory(After(a, events), After(b, Without(events, id)))
    ensures PageIn(After(b, Without(events, id)).disk, id) == PageIn(b.disk, id)
    decreases |events|
  {
    if events != [] {
      var e, rest := events[0], Without(events[1..], id);
      SameStep(w, a, b, e);
      if e == EvWriteBack(id) {
        SameSkip(w, a, b, id);
        hide Enabled, Apply, SameMemory;
        RunsWithout(w, Apply(a, e), b, events[1..], id);
        assert Without(events, id) == rest;
      } else {
        DiskElsewhere(b, e, id);
        hide Enabled, Apply, SameMemory;
        RunsWithout(w, Apply(a, e), Apply(b, e), events[1..], id);
        assert Without(events, id) == [e] + rest && ([e] + rest)[1..] == rest;
      }
    }
  }

  lemma DiskElsewhere(s: Sys, e: Event, id: PageId)
    requires e != EvWriteBack(id)
    ensures PageIn(Apply(s, e).disk, id) == PageIn(s.disk, id)
  {
  }

  // ---------------------------------------------------------------- the moment in the rollback

  lemma {:induction false} LogGrows(w: World, s: Sys, events: seq<Event>)
    requires Runs(w, s, events)
    ensures s.log <= After(s, events).log
    decreases |events|
  {
    if events != [] {
      assert s.log <= Apply(s, events[0]).log;
      hide Enabled, Apply;
      LogGrows(w, Apply(s, events[0]), events[1..]);
    }
  }

  // On its way to the end a rollback comes past every position below the abort.
  lemma {:induction false} ComesPast(w: World, s: Sys, events: seq<Event>, t: int, k: nat)
    returns (first: seq<Event>, more: seq<Event>)
    requires Runs(w, s, events) && t in After(s, events).txns && After(s, events).txns[t] == Rolling(0)
    requires t in s.txns && s.txns[t].Rolling? ==> s.txns[t].pos >= k
    requires forall a :: 0 <= a < |After(s, events).log| && After(s, events).log[a] == Abort(t) ==> k <= a
    ensures events == first + more && Runs(w, s, first) && Runs(w, After(s, first), more)
    ensures t in After(s, first).txns && After(s, first).txns[t] == Rolling(k)
    decreases |events|
  {
    if t in s.txns && s.txns[t] == Rolling(k) {
      first, more := [], events;
    } else {
      var s' := Apply(s, events[0]);
      hide Enabled, Apply;
      LogGrows(w, s', events[1..]);
      PastStep(w, s, events[0], t, k, After(s, events).log);
      first, more := ComesPast(w, s', events[1..], t, k);
      first := [events[0]] + first;
      assert events == [events[0]] + events[1..] && first[1..] + more == events[1..];
    }
  }

  lemma PastStep(w: World, s: Sys, e: Event, t: int, k: nat, log: Log)
    requires Enabled(w, s, e) && Apply(s, e).log <= log && !(t in s.txns && s.txns[t] == Rolling(k))
    requires t in s.txns && s.txns[t].Rolling? ==> s.txns[t].pos >= k
    requires forall a :: 0 <= a < |log| && log[a] == Abort(t) ==> k <= a
    ensures var s' := Apply(s, e); t in s'.txns && s'.txns[t].Rolling? ==> s'.txns[t].pos >= k
  {
    if e == EvAbort(t) {
      assert log[|s.log|] == Abort(t);
    }
  }

  // A transaction's records lie before its abort.
  lemma BeforeAbort(w: World, s: Sys, t: int, i: nat, a: nat)
    requires LogOk(w, s) && i < |s.log| && a < |s.log| && s.log[i].Data() && s.log[i].txn == t && s.log[a] == Abort(t)
    ensures i < a
  {
    assert s.log[a].Ends(t);
  }

  // Memory, at position k of the rollback, shows the place as of position k.
  lemma ShowsPosition(w: World, s1: Sys, s: Sys, t: int, x: Place, f: nat, k: nat)
    requires LogOk(w, s1) && LogOk(w, s) && s1.log <= s.log && PlaceInv(w, s1, x)
    requires t in s1.txns && s1.txns[t] == Rolling(k) && f < k
    requires forall i :: f <= i < |s.log| && s.log[i].Touches(x) ==> s.log[i].txn == t
    requires forall i :: 0 <= i < f && s.log[i].Touches(x) ==> HasCommit(s.log, s.log[i].txn)
    ensures k <= |s1.log| && ValueIn(s1.mem, x) == ValueAt(s.log, x, Base(w.base, x), k)
    ensures forall i :: 0 <= i < |s.log| && s.log[i].Touches(x) ==> i <= PageIn(s1.mem, IdOf(x)).lsn
    ensures PageIn(s1.mem, IdOf(x)).lsn == 0 || 0 <= PageIn(s1.mem, IdOf(x)).lsn < |s1.log|
  {
    hide HasCommit, DiskOk, Serial, Faithful;
    var v0 := Base(w.base, x);
    assert OnDisk(s1, Abort(t)) && k <= |s1.log|;
    var a: nat :| a < |s1.log| && s1.log[a] == Abort(t);
    var m: nat :| ShownAt(s1, x, v0, ValueIn(s1.mem, x), m);
    forall i | 0 <= i < |s.log| && s.log[i].Touches(x) ensures i < |s1.log| && (Rolled(s1, i) <==> k <= i) {
      TouchAt(w, s1, s, t, x, f, k, a, i);
    }
    hide LogOk, Rolled;
    if m <= k {
      ValueSame(s1.log, x, v0, m, k);
    } else {
      ValueSame(s1.log, x, v0, k, m);
    }
    ValuePrefix(s1.log, s.log, x, v0, k);
  }

  lemma TouchAt(w: World, s1: Sys, s: Sys, t: int, x: Place, f: nat, k: nat, a: nat, i: nat)
    requires LogOk(w, s1) && LogOk(w, s) && s1.log <= s.log && t in s1.txns && s1.txns[t] == Rolling(k) && f < k
    requires a < |s1.log| && s1.log[a] == Abort(t) && i < |s.log| && s.log[i].Touches(x)
    requires f <= i ==> s.log[i].txn == t
    requires i < f ==> HasCommit(s.log, s.log[i].txn)
    ensures i < |s1.log| && (Rolled(s1, i) <==> k <= i)
  {
    assert k <= |s1.log|;
    TouchesData(s.log[i], x);
    if f <= i {
      BeforeAbort(w, s, t, i, a);
    } else {
      CommitNotRolled(w, s1, s, i);
    }
  }

  lemma CommitNotRolled(w: World, s1: Sys, s: Sys, i: nat)
    requires LogOk(w, s1) && LogOk(w, s) && s1.log <= s.log && i < |s1.log| && HasCommit(s.log, s.log[i].txn)
    ensures !Rolled(s1, i)
  {
    var t := s.log[i].txn;
    CommittedKnown(w, s, t);
    forall a | 0 <= a < |s1.log| ensures s1.log[a] != Abort(t) {
      assert s1.log[a] == s.log[a];
    }
    assert !OnDisk(s1, Abort(t));
  }

  // ---------------------------------------------------------------- the run that leaves the image

  // From an empty image with all older records on it, redo of the update throws.
  lemma EmptyThrows(log: Log, r: LogRec, losers: set<int>, lsn: nat)
    requires r.Update? && lsn < |log| && forall i :: lsn < i < |log| ==> !log[i].Touches(r.place)
    ensures !RightFrom(log + [r, Commit(r.txn)], r.place, losers, lsn, Absent, r.After())
  {
    var log', x := log + [r, Commit(r.txn)], r.place;
    RedonePrefix(log, log', x, lsn + 1, |log|, Absent);
    RedoNothing(log, x, lsn + 1, |log|, Absent);
    assert log'[|log|] == r && r.Touches(x);
  }

  // Where the aborted transaction had left the place empty.
  lemma EmptyPosition(w: World, s: Sys, t: int, r: LogRec, f: nat) returns (k: nat)
    requires r.Update? && f < |s.log| && s.log[f].Touches(r.place) && s.log[f].Before() == r.Before()
    requires forall i :: f <= i < |s.log| && s.log[i].Touches(r.place) ==> s.log[i].txn == t
    requires LogOk(w, s) && Faithful(s.log, r.place, Base(w.base, r.place))
    requires if r.After() == r.Before() then !OnlyUpdates(s.log, r.place, f, |s.log|) else s.log[f].Delete?
    ensures f < k <= |s.log| && ValueAt(s.log, r.place, Base(w.base, r.place), k) == Absent
    ensures forall a :: 0 <= a < |s.log| && s.log[a] == Abort(t) ==> k <= a
  {
    var x := r.place;
    var i: nat := f;
    if r.After() == r.Before() {
      i :| f <= i < |s.log| && s.log[i].Touches(x) && !s.log[i].Update?;
    }
    k := if s.log[i].Delete? then i + 1 else i;
    TouchesData(s.log[i], x);
    forall a | 0 <= a < |s.log| && s.log[a] == Abort(t) ensures k <= a {
      BeforeAbort(w, s, t, i, a);
    }
  }

  lemma ImageReached(w: World, s0: Sys, events: seq<Event>, t: int, x: Place, f: nat, k: nat)
    returns (events': seq<Event>)
    requires Start(w, s0) && Runs(w, s0, events)
    requires var s := After(s0, events);
      && t in s.txns && s.txns[t] == Rolling(0) && StartsAt(s, t, x, f)
      && f < k <= |s.log| && forall a :: 0 <= a < |s.log| && s.log[a] == Abort(t) ==> k <= a
    requires x.tab in w.headers && x.rid.pageNo >= FIRST_RECORD_PAGE
    ensures Runs(w, s0, events') && SameMemory(After(s0, events), After(s0, events'))
    ensures var s, s' := After(s0, events), After(s0, events');
      && ValueIn(s'.disk, x) == ValueAt(s.log, x, Base(w.base, x), k)
      && 0 <= PageIn(s'.disk, IdOf(x)).lsn < |s.log|
      && forall i :: 0 <= i < |s.log| && s.log[i].Touches(x) ==> i <= PageIn(s'.disk, IdOf(x)).lsn
  {
    var s, id := After(s0, events), IdOf(x);
    StartInv(w, s0);
    RunInv(w, s0, events);
    NotStarted(w, s0, t);
    var first, more := ComesPast(w, s0, events, t, k);
    var s1 := After(s0, first);
    RunInv(w, s0, first);
    RunsOn(w, s0, first, more);
    LogGrows(w, s1, more);
    RollFacts(w, s1, s, t, x, f);
    hide Inv, Start;
    OthersBefore(w, s, t, x, f);
    ShowsPosition(w, s1, s, t, x, f, k);
    var s2 := WriteOut(w, s1, id);
    hide LogOk, PlaceInv, Apply, Enabled, HasCommit, StartsAt;
    RunsWithout(w, s1, s2, more, id);
    events' := first + ([EvFlush, EvWriteBack(id)] + Without(more, id));
    RunsOn(w, s1, [EvFlush, EvWriteBack(id)], Without(more, id));
    RunsOn(w, s0, first, [EvFlush, EvWriteBack(id)] + Without(more, id));
  }

  lemma NotStarted(w: World, s0: Sys, t: int)
    requires Start(w, s0)
    ensures t !in s0.txns
  {
  }

  lemma RollFacts(w: World, s1: Sys, s: Sys, t: int, x: Place, f: nat)
    requires Inv(w, s1) && Inv(w, s) && t in s.txns && s.txns[t] == Rolling(0) && StartsAt(s, t, x, f)
    requires x.tab in w.headers && x.rid.pageNo >= FIRST_RECORD_PAGE
    ensures LogOk(w, s1) && LogOk(w, s) && PlaceInv(w, s1, x) && Serial(s.log, x) && s1.flushed <= |s1.log|
    ensures t in s1.txns ==> |s1.log| > 0
  {
    assert PlaceInv(w, s, x) && PlaceInv(w, s1, x);
  }

  // The log is flushed, and the page follows it.
  lemma WriteOut(w: World, s: Sys, id: PageId) returns (s2: Sys)
    requires s.flushed <= |s.log| && (PageIn(s.mem, id).lsn == 0 || PageIn(s.mem, id).lsn < |s.log|)
    ensures Runs(w, s, [EvFlush, EvWriteBack(id)]) && s2 == After(s, [EvFlush, EvWriteBack(id)])
    ensures SameMemory(s, s2) && PageIn(s2.disk, id) == PageIn(s.mem, id)
  {
    var es := [EvFlush, EvWriteBack(id)];
    var s1 := Apply(s, EvFlush);
    s2 := Apply(s1, EvWriteBack(id));
    assert es[1..] == [es[1]] && es[1..][1..] == [];
    assert After(s2, []) == s2 && Runs(w, s2, []);
    assert Enabled(w, s1, es[1]) && After(s1, [es[1]]) == s2 && Runs(w, s1, [es[1]]);
    assert Enabled(w, s, es[0]);
  }

  // ---------------------------------------------------------------- the theorem over runs

  // The write has been committed, and the engine crashes before or after its page is written back: recovery goes
  // through and keeps the value.
  ghost predicate SafeAfter(s: Sys, r: LogRec, losers: set<int>)
    requires r.Data() && 0 <= PageIn(s.disk, IdOf(r.place)).lsn < |s.log|
  {
    var log, x := LogThen(s, r), r.place;
    && RightFrom(log, x, losers, |s.log|, r.After(), r.After())
    && RightFrom(log, x, losers, PageIn(s.disk, IdOf(x)).lsn, ValueIn(s.disk, x), r.After())
  }

  lemma ImageThere(w: World, s: Sys, t: int, x: Place)
    requires Inv(w, s) && t in s.txns && x.tab in w.headers && x.rid.pageNo >= FIRST_RECORD_PAGE
    ensures 0 <= PageIn(s.disk, IdOf(x)).lsn < |s.log|
    ensures exists k: nat :: DiskAt(s, x, Base(w.base, x), PageIn(s.disk, IdOf(x)).lsn, ValueIn(s.disk, x), k)
  {
    assert PlaceInv(w, s, x);
    var k: nat :| DiskAt(s, x, Base(w.base, x), PageIn(s.disk, IdOf(x)).lsn, ValueIn(s.disk, x), k);
  }

  lemma SameReused(w: World, s: Sys, s': Sys, t: int, r: LogRec, f: nat)
    requires Reused(w, s, t, r) && SameMemory(s, s') && Inv(w, s')
    ensures Reused(w, s', t, r) && LogThen(s', r) == LogThen(s, r)
    ensures StartsAt(s', t, r.place, f) <==> StartsAt(s, t, r.place, f)
    ensures Harmless(s', r, f) <==> Harmless(s, r, f)
  {
    hide Inv;
  }

  /**
   For every run that ends behind the rollback of t: a write into one of its places, committed, is safe after every
   run with the same history, whichever pages it has written back and when, if and only if it is harmless.
   */
  lemma ReuseHarmlessRuns(w: World, s0: Sys, events: seq<Event>, t: int, r: LogRec, f: nat, v: Verdict)
    requires Start(w, s0) && Runs(w, s0, events)
    requires Reused(w, After(s0, events), t, r) && StartsAt(After(s0, events), t, r.place, f)
    requires var log := LogThen(After(s0, events), r); Analyzed(log, |log|, v)
    ensures var s := After(s0, events);
      Harmless(s, r, f) <==> forall events' :: Runs(w, s0, events') && SameMemory(s, After(s0, events')) ==>
        && r.Data() && 0 <= PageIn(After(s0, events').disk, IdOf(r.place)).lsn < |s.log|
        && SafeAfter(After(s0, events'), r, Losers(v))
  {
    var s := After(s0, events);
    StartInv(w, s0);
    hide Inv, Start, Analyzed, Enabled, Apply, Losers;
    ReuseHarmless(w, s, t, r, f, v);
    if Harmless(s, r, f) {
      forall events' | Runs(w, s0, events') && SameMemory(s, After(s0, events'))
        ensures r.Data() && 0 <= PageIn(After(s0, events').disk, IdOf(r.place)).lsn < |s.log|
        ensures SafeAfter(After(s0, events'), r, Losers(v))
      {
        RunInv(w, s0, events');
        SafeWhere(w, s, After(s0, events'), t, r, f, v);
      }
    } else {
      HarmReached(w, s0, events, t, r, f, v);
    }
  }

  lemma SafeWhere(w: World, s: Sys, s': Sys, t: int, r: LogRec, f: nat, v: Verdict)
    requires Reused(w, s, t, r) && StartsAt(s, t, r.place, f) && Harmless(s, r, f) && SameMemory(s, s') && Inv(w, s')
    requires var log := LogThen(s, r); Analyzed(log, |log|, v)
    ensures r.Data() && 0 <= PageIn(s'.disk, IdOf(r.place)).lsn < |s'.log| && SafeAfter(s', r, Losers(v))
  {
    SameReused(w, s, s', t, r, f);
    ImageThere(w, s', t, r.place);
    hide Inv, Analyzed, Losers, RightFrom, DiskAt, Harmless, StartsAt;
    ReuseHarmless(w, s', t, r, f, v);
  }

  lemma HarmReached(w: World, s0: Sys, events: seq<Event>, t: int, r: LogRec, f: nat, v: Verdict)
    requires Start(w, s0) && Runs(w, s0, events)
    requires Reused(w, After(s0, events), t, r) && StartsAt(After(s0, events), t, r.place, f)
    requires var log := LogThen(After(s0, events), r); Analyzed(log, |log|, v)
    requires !Harmless(After(s0, events), r, f)
    ensures var s := After(s0, events);
      exists events' :: Runs(w, s0, events') && SameMemory(s, After(s0, events'))
        && 0 <= PageIn(After(s0, events').disk, IdOf(r.place)).lsn < |s.log|
        && !SafeAfter(After(s0, events'), r, Losers(v))
  {
    hide *;
    var s := After(s0, events);
    StartInv(w, s0);
    RunInv(w, s0, events);
    LostThere(w, s, t, r, f, v);
    AbortedFacts(w, s, t, r, f);
    ReusedFacts(w, s, t, r);
    ImageThere(w, s, t, r.place);
    LogThenAt(s, r);
    WrittenBackUnsafe(w, s, r, f, Losers(v));
    if Spared(LogThen(s, r), r.place, f, |s.log|, r.After()) {
      NotHarmless(s, r, f);
      LogThenIs(s, r);
      SparedUpdates(s.log, r, f);
      var k := EmptyPosition(w, s, t, r, f);
      var events' := ImageReached(w, s0, events, t, r.place, f, k);
      EmptyUnsafe(s, After(s0, events'), r, Losers(v));
    } else {
      assert SameMemory(s, s);
    }
  }

  lemma LogThenIs(s: Sys, r: LogRec)
    ensures LogThen(s, r) == s.log + [r, Commit(r.txn)]
  {
  }

  lemma ReusedFacts(w: World, s: Sys, t: int, r: LogRec)
    requires Reused(w, s, t, r)
    ensures Inv(w, s) && LogOk(w, s) && SameMemory(s, s) && |s.log| > 0 && t in s.txns && s.txns[t] == Rolling(0)
    ensures r.Data() && r.place.tab in w.headers && r.place.rid.pageNo >= FIRST_RECORD_PAGE
  {
  }

  lemma WrittenBackUnsafe(w: World, s: Sys, r: LogRec, f: nat, losers: set<int>)
    requires r.Data() && 0 <= PageIn(s.disk, IdOf(r.place)).lsn < |s.log| && f < |s.log| && s.log[f].Data()
    requires Lost(LogThen(s, r), r.place, losers, Base(w.base, r.place), f, |s.log|)
    requires LogThen(s, r)[f].Data()
    ensures !Spared(LogThen(s, r), r.place, f, |s.log|, r.After()) ==> !SafeAfter(s, r, losers)
  {
    hide Lost, Spared, RightFrom, PageIn, ValueIn;
    WrittenBackRight(s.log, r, Commit(r.txn), losers, Base(w.base, r.place), f);
  }

  lemma EmptyUnsafe(s: Sys, s': Sys, r: LogRec, losers: set<int>)
    requires SameMemory(s, s') && r.Update? && 0 <= PageIn(s'.disk, IdOf(r.place)).lsn < |s.log|
    requires ValueIn(s'.disk, r.place) == Absent
    requires forall i :: 0 <= i < |s.log| && s.log[i].Touches(r.place) ==> i <= PageIn(s'.disk, IdOf(r.place)).lsn
    ensures !SafeAfter(s', r, losers)
  {
    hide RightFrom, PageIn, ValueIn;
    EmptyThrows(s.log, r, losers, PageIn(s'.disk, IdOf(r.place)).lsn);
  }
}
