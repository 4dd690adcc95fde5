/** The replacer: frames that may be evicted, most recently unpinned first. */
module LruReplacer {

  // No frame occurs twice, and the list is in the order of the times of unpinning.
  ghost predicate InOrder(list: seq<int>, stamp: map<int, nat>, clock: nat) {
    && (forall i :: 0 <= i < |list| ==> list[i] in stamp && stamp[list[i]] < clock)
    && (forall i, j :: 0 <= i < j < |list| && list[i] in stamp && list[j] in stamp ==> stamp[list[i]] > stamp[list[j]])
  }

  lemma NoRepeats(list: seq<int>, stamp: map<int, nat>, clock: nat)
    requires InOrder(list, stamp, clock)
    ensures forall i, j :: 0 <= i < j < |list| ==> list[i] != list[j]
  {
  }

  function Without(list: seq<int>, f: int): (r: seq<int>)
    ensures forall x :: x in r <==> x in list && x != f
  {
    if list == [] then [] else (if list[0] == f then [] else [list[0]]) + Without(list[1..], f)
  }

  lemma {:induction false} WithoutOrder(list: seq<int>, f: int, stamp: map<int, nat>, clock: nat)
    requires InOrder(list, stamp, clock)
    ensures InOrder(Without(list, f), stamp, clock)
  {
    if list != [] {
      WithoutOrder(list[1..], f, stamp, clock);
      var r := Without(list[1..], f);
      forall j | 0 <= j < |r| ensures r[j] in stamp && stamp[list[0]] > stamp[r[j]] {
        assert r[j] in list[1..];
        var k :| 0 <= k < |list| - 1 && list[1..][k] == r[j];
        assert list[k + 1] == r[j];
      }
    }
  }

  class LRUReplacer {
    var list: seq<int>
    var hash: set<int>
    // when each frame was last made evictable, and the current time
    ghost var stamp: map<int, nat>
    ghost var clock: nat

    ghost predicate Valid()
      reads this
    {
      InOrder(list, stamp, clock) && (forall f :: f in hash <==> f in list)
    }

    constructor ()
      ensures Valid() && list == [] && fresh(this)
    {
      list, hash, stamp, clock := [], {}, map[], 0;
    }

    // Takes out the frame that has been evictable for the longest time.
    method Victim() returns (ok: bool, frame: int)
      requires Valid()
      modifies this
      ensures Valid() && ok == (old(list) != [])
      ensures !ok ==> list == old(list)
      ensures ok ==> old(list) == list + [frame] && frame !in list
      ensures ok ==> frame in old(stamp) && forall f :: f in old(list) ==>
        f in old(stamp) && old(stamp)[frame] <= old(stamp)[f]
    {
      NoRepeats(list, stamp, clock);
      frame := -1;
      if list == [] {
        return false, frame;
      }
      frame := list[|list| - 1];
      list := list[..|list| - 1];
      hash := hash - {frame};
      return true, frame;
    }

    method Pin(frame: int)
      requires Valid()
      modifies this
      ensures Valid() && list == Without(old(list), frame)
    {
      if frame in hash {
        WithoutOrder(list, frame, stamp, clock);
        list := Without(list, frame);
        hash := hash - {frame};
      } else {
        WithoutAbsent(list, frame);
      }
    }

    // A frame that is already evictable keeps its place.
    method Unpin(frame: int)
      requires Valid()
      modifies this
      ensures Valid() && list == if frame in old(list) then old(list) else [frame] + old(list)
      ensures frame !in old(list) ==> frame in stamp && forall f :: f in old(list) ==>
        f in stamp && stamp[f] < stamp[frame]
    {
      if frame !in hash {
        ghost var before := list;
        list := [frame] + list;
        hash := hash + {frame};
        stamp := stamp[frame := clock];
        clock := clock + 1;
        assert forall i :: 1 <= i < |list| ==> list[i] == before[i - 1];
      }
    }

    function Size(): nat
      reads this
    {
      |list|
    }
  }

  lemma {:induction false} WithoutAbsent(list: seq<int>, f: int)
    requires f !in list
    ensures Without(list, f) == list
  {
    if list != [] {
      WithoutAbsent(list[1..], f);
      assert list == [list[0]] + list[1..];
    }
  }
}
