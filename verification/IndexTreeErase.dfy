/**
 Deletion of one entry from a leaf.  When the entry is the first one of a leaf that is
 not the leftmost, its key is a separator somewhere above and an end of intervals
 elsewhere: all of them move to the leaf's new first key.
 */
module IndexTreeErase {
  import opened RecordIds
  import opened IndexTree
  import opened IndexTreeSplit
  import opened IndexTreeMerge

  function WithoutEntry(n: TNode, pos: nat): TNode
    requires pos < |n.keys| && |n.keys| == |n.rids|
  {
    n.(keys := RemoveAt(n.keys, pos), rids := RemoveAt(n.rids, pos))
  }

  lemma WithoutEntryOk(n: TNode, pos: nat)
    requires n.Ok() && n.h == 0 && pos < |n.keys| && (pos == 0 ==> n.lo == Open)
    ensures WithoutEntry(n, pos).Ok()
  {
    var n' := WithoutEntry(n, pos);
    assert forall a :: n'.Live(a) ==> n.Live(if a < pos then a else a + 1);
    assert n.lo.At? ==> n.Live(0);
  }

  // ---------------------------------------------------------------- moving a boundary

  function Shift(x: Key, a: Key, b: Key): Key {
    if x == a then b else x
  }

  function ShiftBound(x: Bound, a: Key, b: Key): Bound {
    if x == At(a) then At(b) else x
  }

  // n' is n with a replaced by b in the interval and in the trusted keys.
  ghost predicate Moved(n: TNode, n': TNode, a: Key, b: Key) {
    && n'.h == n.h && n'.rids == n.rids && |n'.keys| == |n.keys|
    && n'.lo == ShiftBound(n.lo, a, b) && n'.hi == ShiftBound(n.hi, a, b)
    && (forall i :: n.Live(i) ==> n'.keys[i] == Shift(n.keys[i], a, b))
  }

  // t' is t after the deletion of entry pos of leaf p, with all of the tree relabelled.
  ghost predicate Erased(t: Tree, t': Tree, p: int, pos: nat, a: Key, b: Key) {
    && p in t && t'.Keys == t.Keys && t[p].h == 0 && pos < |t[p].keys| && |t[p].keys| == |t[p].rids|
    && (forall x :: x in t && x != p && t[x].h == 0 ==>
          t'[x].h == 0 && t'[x].rids == t[x].rids && t'[x].keys == t[x].keys && t'[x].lo == ShiftBound(t[x].lo, a, b)
            && t'[x].hi == ShiftBound(t[x].hi, a, b))
    && (forall x :: x in t && t[x].h > 0 ==> Moved(t[x], t'[x], a, b))
    && t'[p].h == 0 && t'[p].lo == ShiftBound(t[p].lo, a, b) && t'[p].hi == ShiftBound(t[p].hi, a, b)
    && t'[p].keys == RemoveAt(t[p].keys, pos) && t'[p].rids == RemoveAt(t[p].rids, pos)
  }

  // What the pair (a, b) is: the old and the new first key of p, or nothing changes.
  ghost predicate Boundary(t: Tree, p: int, pos: nat, a: Key, b: Key) {
    && p in t && t[p].h == 0 && pos < |t[p].keys| && |t[p].keys| == |t[p].rids|
    && (if pos == 0 && t[p].lo.At? then |t[p].keys| >= 2 && a == t[p].keys[0] && b == t[p].keys[1] else a == b)
  }

  // ---------------------------------------------------------------- no end of an interval lies in (a, b]

  // The ancestor of p at height h is responsible for all keys of p.
  lemma AncestorAt(t: Tree, root: int, par: map<int, int>, p: int, h: nat) returns (c: int)
    requires Shape(t, root) && Parents(t, root, par) && p in t && t[p].h <= h <= t[root].h
    ensures c in t && t[c].h == h
    ensures t[c].lo.At? ==> t[p].lo.At? && t[c].lo.key <= t[p].lo.key
    ensures t[c].hi.At? ==> t[p].hi.At? && t[p].hi.key <= t[c].hi.key
    decreases h - t[p].h
  {
    if t[p].h == h {
      c := p;
    } else {
      var g := par[p];
      var i :| 0 <= i < |t[g].rids| && t[g].Kid(i) == p;
      KidInside(t, root, g, i);
      KidBelow(t, root, g, i);
      c := AncestorAt(t, root, par, g, h);
    }
  }

  ghost predicate Clear(x: Bound, a: Key, b: Key) {
    x.At? ==> x.key <= a || x.key > b
  }

  lemma BoundGap(t: Tree, root: int, par: map<int, int>, p: int, b: Key, n: int)
    requires Shape(t, root) && Parents(t, root, par) && p in t && t[p].h == 0 && n in t
    requires t[p].lo.At? && t[p].lo.key < b && t[p].Covers(b)
    ensures Clear(t[n].lo, t[p].lo.key, b) && Clear(t[n].hi, t[p].lo.key, b)
  {
    var c := AncestorAt(t, root, par, p, t[n].h);
    IntervalOk(t[n]);
    IntervalOk(t[c]);
    if n != c {
      assert Before(t[n], t[c]) || Before(t[c], t[n]);
    }
  }

  ghost predicate Gap(t: Tree, a: Key, b: Key) {
    a == b || (a < b && forall n :: n in t ==> Clear(t[n].lo, a, b) && Clear(t[n].hi, a, b))
  }

  lemma BoundaryGap(t: Tree, root: int, par: map<int, int>, p: int, pos: nat, a: Key, b: Key)
    requires Shape(t, root) && Parents(t, root, par) && Boundary(t, p, pos, a, b)
    ensures Gap(t, a, b)
  {
    if a != b {
      assert t[p].Ok() && t[p].Live(0);
      EntryCovered(t[p], 1);
      forall n | n in t ensures Clear(t[n].lo, a, b) && Clear(t[n].hi, a, b) {
        BoundGap(t, root, par, p, b, n);
      }
    }
  }

  // ---------------------------------------------------------------- the shape after the move

  // The trusted keys of an inner node are ends of intervals of its kids.
  lemma LiveKeyClear(t: Tree, root: int, n: int, i: nat, a: Key, b: Key)
    requires Shape(t, root) && Gap(t, a, b) && n in t && t[n].h > 0 && t[n].Live(i)
    ensures a == b || t[n].keys[i] <= a || t[n].keys[i] > b
  {
    KidLiveKey(t, root, n, i);
    assert a != b ==> Clear(t[t[n].Kid(i)].lo, a, b);
  }

  lemma MovedOk(t: Tree, root: int, n: int, n': TNode, a: Key, b: Key)
    requires Shape(t, root) && Gap(t, a, b) && n in t && t[n].h > 0 && Moved(t[n], n', a, b)
    ensures n'.Ok()
  {
    var m := t[n];
    forall i | m.Live(i) ensures a == b || m.keys[i] <= a || m.keys[i] > b {
      LiveKeyClear(t, root, n, i, a, b);
    }
    assert a == b || (Clear(m.hi, a, b) && Clear(m.lo, a, b));
    assert forall i :: n'.Live(i) ==> m.Live(i);
    assert m.lo.At? ==> m.Live(0);
    hide Shape, Gap;
  }

  lemma ErasedLeafOk(t: Tree, root: int, t': Tree, p: int, pos: nat, a: Key, b: Key, x: int)
    requires Shape(t, root) && Gap(t, a, b) && Boundary(t, p, pos, a, b) && Erased(t, t', p, pos, a, b)
    requires x in t && t[x].h == 0
    ensures t'[x].Ok()
  {
    var n := t[x];
    assert n.Ok();
    assert a == b || (Clear(n.hi, a, b) && Clear(n.lo, a, b));
    assert n.lo.At? ==> n.Live(0);
    if x == p {
      if a == b {
        WithoutEntryOk(n, pos);
        assert t'[p] == WithoutEntry(n, pos);
      } else {
        assert forall i :: t'[p].Live(i) ==> n.Live(i + 1) && t'[p].keys[i] == n.keys[i + 1];
      }
    } else if n.lo == At(a) && a != b {
      // p is the one leaf that starts at a
      assert Before(n, t[p]) || Before(t[p], n);
      IntervalOk(n);
      IntervalOk(t[p]);
      assert false;
    } else {
      assert forall i :: t'[x].Live(i) ==> n.Live(i);
    }
  }

  lemma ErasedNodes(t: Tree, root: int, t': Tree, p: int, pos: nat, a: Key, b: Key)
    requires Shape(t, root) && Gap(t, a, b) && Boundary(t, p, pos, a, b) && Erased(t, t', p, pos, a, b)
    ensures Nodes(t', root)
  {
    forall x | x in t' ensures x >= 2 && t'[x].Ok() && t'[x].h <= t'[root].h {
      if t[x].h > 0 {
        MovedOk(t, root, x, t'[x], a, b);
      } else {
        ErasedLeafOk(t, root, t', p, pos, a, b, x);
      }
    }
  }

  lemma ErasedKid(t: Tree, root: int, t': Tree, p: int, pos: nat, a: Key, b: Key, x: int, j: nat)
    requires Shape(t, root) && Erased(t, t', p, pos, a, b)
    requires x in t && t[x].h > 0 && j < |t[x].rids|
    ensures j < |t'[x].rids| && |t'[x].keys| == |t'[x].rids| && KidOk(t', x, j)
  {
    assert KidOk(t, x, j) && t[x].Ok();
    var c := t[x].Kid(j);
    assert Moved(t[x], t'[x], a, b);
    assert t'[c].h == t[c].h && t'[c].lo == ShiftBound(t[c].lo, a, b) && t'[c].hi == ShiftBound(t[c].hi, a, b);
    hide Shape, Erased;
    assert j > 0 ==> t[x].Live(j);
    assert j + 1 < |t[x].keys| ==> t[x].Live(j + 1);
  }

  lemma ErasedLevels(t: Tree, root: int, t': Tree, p: int, pos: nat, a: Key, b: Key)
    requires Shape(t, root) && Gap(t, a, b) && Erased(t, t', p, pos, a, b)
    ensures Levels(t')
  {
    forall x, y | x in t' && y in t' && x != y && t'[x].h == t'[y].h ensures Before(t'[x], t'[y]) || Before(t'[y],
      t'[x]) {
      assert t[x].h == t'[x].h && t[y].h == t'[y].h;
      assert Before(t[x], t[y]) || Before(t[y], t[x]);
      var m, n := if Before(t[x], t[y]) then x else y, if Before(t[x], t[y]) then y else x;
      assert Before(t[m], t[n]);
      assert t'[m].hi == ShiftBound(t[m].hi, a, b) && t'[n].lo == ShiftBound(t[n].lo, a, b);
      assert a == b || (Clear(t[m].hi, a, b) && Clear(t[n].lo, a, b));
      assert Before(t'[m], t'[n]);
    }
  }

  lemma ErasedShape(t: Tree, root: int, t': Tree, p: int, pos: nat, a: Key, b: Key, par: map<int, int>)
    requires Shape(t, root) && Parents(t, root, par) && Boundary(t, p, pos, a, b) && Erased(t, t', p, pos, a, b)
    ensures Shape(t', root)
  {
    BoundaryGap(t, root, par, p, pos, a, b);
    ErasedNodes(t, root, t', p, pos, a, b);
    forall x, j | x in t' && t'[x].h > 0 && 0 <= j < |t'[x].rids|
      && |t'[x].keys| == |t'[x].rids| ensures KidOk(t', x, j) {
      assert t[x].h > 0 && t'[x].rids == t[x].rids;
      ErasedKid(t, root, t', p, pos, a, b, x, j);
    }
    ErasedLevels(t, root, t', p, pos, a, b);
  }

  lemma ErasedParents(t: Tree, root: int, t': Tree, p: int, pos: nat, a: Key, b: Key, par: map<int, int>)
    requires Shape(t, root) && Parents(t, root, par) && Erased(t, t', p, pos, a, b)
    ensures Parents(t', root, par)
  {
    assert forall x :: x in t && t[x].h > 0 ==> t'[x].rids == t[x].rids && t'[x].h == t[x].h;
    assert forall x :: x in t' && t'[x].h > 0 ==> t[x].h > 0;
    assert t'.Keys == t.Keys && root in par && par[root] == -1;
    hide Erased, Shape, Parents;
    forall x, j | x in t' && t'[x].h > 0 && 0 <= j < |t'[x].rids|
      ensures t'[x].Kid(j) in par && par[t'[x].Kid(j)] == x
    {
      ParentKnown(t, root, par, x, j);
    }
    forall c {:trigger par[c]} | c in t' && c != root
      ensures c in par && par[c] in t' && t'[par[c]].h > 0 && IsKid(t'[par[c]], c)
    {
      ParentAbove(t, root, par, c);
      var x := par[c];
      var j :| 0 <= j < |t[x].rids| && t[x].Kid(j) == c;
      KidAt(t'[x], j);
    }
    ParentsAre(t', root, par);
  }

  lemma ErasedSized(t: Tree, root: int, t': Tree, p: int, pos: nat, a: Key, b: Key, maxSize: nat)
    requires Shape(t, root) && Erased(t, t', p, pos, a, b) && Sized(t, root, maxSize, -1)
    ensures Sized(t', root, maxSize, p) && |t'[p].keys| == |t[p].keys| - 1 && Fits(t[p], p == root, maxSize)
  {
    forall x | x in t' && x != p ensures Fits(t'[x], x == root, maxSize) {
      assert Fits(t[x], x == root, maxSize);
      assert |t'[x].keys| == |t[x].keys| && t'[x].h == t[x].h;
    }
  }

  lemma ErasedChain(t: Tree, root: int, t': Tree, p: int, pos: nat, a: Key, b: Key, leaves: seq<int>)
    requires Shape(t, root) && Erased(t, t', p, pos, a, b) && Chain(t, leaves)
    ensures Chain(t', leaves)
  {
    assert forall x :: x in t && t[x].h == 0 ==>
      t'[x].h == 0 && t'[x].lo == ShiftBound(t[x].lo, a, b) && t'[x].hi == ShiftBound(t[x].hi, a, b);
    assert forall x :: x in t' && t'[x].h == 0 ==> t[x].h == 0;
  }

  lemma ErasedEntry(t: Tree, root: int, t': Tree, p: int, pos: nat, a: Key, b: Key, contents: map<Key, Rid>, x: int,
          j: nat)
    requires Shape(t, root) && Erased(t, t', p, pos, a, b) && Holds(t, contents)
    requires x in t && t[x].h == 0 && j < |t'[x].keys| && |t'[x].keys| == |t'[x].rids|
    ensures EntryOk(t', contents - {t[p].keys[pos]}, x, j)
  {
    var k := t[p].keys[pos];
    var j0 := if x == p && j >= pos then j + 1 else j;
    assert t[p].Ok() && t[x].Ok();
    assert EntryOk(t, contents, x, j0);
    if x == p {
      assert t[p].Live(j0) && t[p].Live(pos);
    } else if t[x].keys[j0] == k {
      EntryCovered(t[p], pos);
      EntryCovered(t[x], j0);
      OneCover(t, root, p, x, k);
    }
  }

  lemma ErasedHolds(t: Tree, root: int, t': Tree, p: int, pos: nat, a: Key, b: Key, contents: map<Key, Rid>)
    requires Shape(t, root) && Erased(t, t', p, pos, a, b) && Holds(t, contents)
    ensures Holds(t', contents - {t[p].keys[pos]})
  {
    var contents' := contents - {t[p].keys[pos]};
    assert forall x :: x in t' && t'[x].h == 0 ==> x in t && t[x].h == 0;
    hide Erased, Shape, Stores;
    forall x, j | x in t' && t'[x].h == 0 && 0 <= j < |t'[x].keys|
      && |t'[x].keys| == |t'[x].rids| ensures EntryOk(t', contents', x, j) {
      assert t[x].h == 0;
      ErasedEntry(t, root, t', p, pos, a, b, contents, x, j);
    }
    forall k | k in contents' ensures Stores(t', k) {
      assert Stores(t, k);
      ErasedStores(t, t', p, pos, a, b, k);
    }
  }

  lemma ErasedStores(t: Tree, t': Tree, p: int, pos: nat, a: Key, b: Key, k: Key)
    requires Erased(t, t', p, pos, a, b) && Stores(t, k) && k != t[p].keys[pos]
    ensures Stores(t', k)
  {
    var x :| x in t && t[x].h == 0 && k in t[x].keys;
    var j :| 0 <= j < |t[x].keys| && t[x].keys[j] == k;
    assert x == p ==> t'[x].keys[if j < pos then j else j - 1] == k;
    assert k in t'[x].keys;
  }

  // ---------------------------------------------------------------- the climb of maintain_parent

  // At most one node of a level starts at a.
  lemma OneStart(t: Tree, root: int, x: int, y: int)
    requires Shape(t, root) && x in t && y in t && t[x].h == t[y].h && t[x].lo.At? && t[x].lo == t[y].lo
    ensures x == y
  {
    IntervalOk(t[x]);
    IntervalOk(t[y]);
  }

  // A node that starts at a has a descendant that starts at a on every level below.
  lemma StartBelow(t: Tree, root: int, x: int, a: Key, h: nat) returns (y: int)
    requires Shape(t, root) && x in t && t[x].lo == At(a) && h <= t[x].h
    ensures y in t && t[y].h == h && t[y].lo == At(a)
    decreases t[x].h
  {
    if t[x].h == h {
      y := x;
    } else {
      assert t[x].Ok();
      KidBelow(t, root, x, 0);
      KidLiveKey(t, root, x, 0);
      y := StartBelow(t, root, t[x].Kid(0), a, h);
    }
  }

  // If curr starts at a, the trusted key a on the level above is the one naming curr.
  lemma OneSeparator(t: Tree, root: int, par: map<int, int>, curr: int, a: Key, r: nat, x: int, j: nat)
    requires Shape(t, root) && Parents(t, root, par) && curr in t && curr != root && t[curr].lo == At(a)
    requires var g := par[curr]; r < |t[g].rids| && t[g].Kid(r) == curr
    requires x in t && t[x].h == t[curr].h + 1 && t[x].Live(j) && t[x].keys[j] == a
    ensures x == par[curr] && j == r
  {
    assert t[x].Ok();
    KidLiveKey(t, root, x, j);
    OneStart(t, root, t[x].Kid(j), curr);
    assert par[t[x].Kid(j)] == x;
    if j != r {
      SiblingsDiffer(t, root, x, j, r);
    }
  }

  // The key that names curr, if trusted, is where curr starts.
  lemma NamingKey(t: Tree, root: int, par: map<int, int>, curr: int, r: nat)
    requires Shape(t, root) && Parents(t, root, par) && curr in t && curr != root
    requires var g := par[curr]; r < |t[g].rids| && t[g].Kid(r) == curr
    ensures curr in par && par[curr] in t
    ensures var g := par[curr];
            && t[g].h == t[curr].h + 1 && |t[g].keys| == |t[g].rids|
            && (t[g].Live(r) ==> t[curr].lo == At(t[g].keys[r]))
            && (t[curr].lo.At? ==> t[g].Live(r))
  {
    assert KidOk(t, par[curr], r) && t[par[curr]].Ok();
  }

  // If curr's separator lies strictly inside its parent g, nothing above g mentions a.
  lemma NothingAbove(t: Tree, root: int, par: map<int, int>, curr: int, a: Key, x: int, j: nat)
    requires Shape(t, root) && Parents(t, root, par) && curr in t && curr != root && t[curr].lo == At(a)
    requires t[par[curr]].lo != At(a)
    requires x in t && t[x].h > t[curr].h + 1 && t[x].Live(j)
    ensures t[x].keys[j] != a
  {
    if t[x].keys[j] == a {
      assert t[x].Ok();
      KidLiveKey(t, root, x, j);
      var y := StartBelow(t, root, t[x].Kid(j), a, t[curr].h + 1);
      assert t[y].Ok();
      KidLiveKey(t, root, y, 0);
      ParentKnown(t, root, par, y, 0);
      OneStart(t, root, t[y].Kid(0), curr);
      assert false;
    }
  }

  // ---------------------------------------------------------------- a root with one kid

  lemma DropRoot(t: Tree, root: int, par: map<int, int>, maxSize: nat, leaves: seq<int>, contents: map<Key, Rid>)
    requires Shape(t, root) && Parents(t, root, par) && t[root].h > 0 && |t[root].keys| == 1
    requires Sized(t, root, maxSize, root) && Chain(t, leaves) && Holds(t, contents) && maxSize >= 4
    ensures |t[root].rids| == 1
    ensures var c := t[root].Kid(0);
            && c in t && c != root
            && Shape(t - {root}, c) && Parents(t - {root}, c, par[c := -1])
            && Sized(t - {root}, c, maxSize, -1) && Chain(t - {root}, leaves) && Holds(t - {root}, contents)
  {
    assert t[root].Ok();
    var c := t[root].Kid(0);
    var t' := t - {root};
    KidBelow(t, root, root, 0);
    DropRootShape(t, root, c);
    DropRootParents(t, root, c, par);
    assert Fits(t[c], false, maxSize);
    SameChain(t, t', leaves);
    SameHolds(t, t', contents);
  }

  lemma DropRootShape(t: Tree, root: int, c: int)
    requires Shape(t, root) && t[root].h > 0 && |t[root].rids| == 1 && |t[root].keys| == 1 && c == t[root].Kid(0)
    ensures Shape(t - {root}, c)
  {
    var t' := t - {root};
    assert KidOk(t, root, 0);
    forall x | x in t' ensures t'[x].h <= t'[c].h {
      if t[x].h == t[root].h {
        RootAlone(t, root, x);
      }
    }
    forall x, j | x in t' && t'[x].h > 0 && 0 <= j < |t'[x].rids|
      && |t'[x].keys| == |t'[x].rids| ensures KidOk(t', x, j) {
      assert KidOk(t, x, j);
      KidBelowRoot(t, root, x, j);
    }
  }

  lemma DropRootParents(t: Tree, root: int, c: int, par: map<int, int>)
    requires Shape(t, root) && Parents(t, root, par) && t[root].h > 0 && |t[root].rids| == 1 && |t[root].keys| == 1
      && c == t[root].Kid(0)
    ensures Parents(t - {root}, c, par[c := -1])
  {
    KidBelow(t, root, root, 0);
    hide Shape, IsKid, Parents;
    ParentKnown(t, root, par, root, 0);
    var t' := t - {root};
    forall x, j | x in t' && t'[x].h > 0 && 0 <= j < |t'[x].rids|
      ensures t'[x].Kid(j) in par && par[t'[x].Kid(j)] == x && t'[x].Kid(j) != c
    {
      ParentKnown(t, root, par, x, j);
    }
    forall y {:trigger par[y]} | y in t' && y != c
      ensures y in par && par[y] in t' && t'[par[y]].h > 0 && IsKid(t'[par[y]], y)
    {
      ParentAbove(t, root, par, y);
      NotDropped(t[root], c, y);
    }
    ParentsAre(t', c, par[c := -1]);
  }

  // The only kid of the old root is the new one.
  lemma NotDropped(n: TNode, c: int, y: int)
    requires |n.rids| == 1 && c == n.Kid(0) && y != c
    ensures !IsKid(n, y)
  {
  }
}
