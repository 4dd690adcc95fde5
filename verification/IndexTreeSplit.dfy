/**
 Insertion into a leaf, and the split of an overfull node under its parent or at the
 root: every invariant of IndexTree is kept.
 */
module IndexTreeSplit {
  import opened RecordIds
  import opened IndexTree

  function InsertAt<T>(s: seq<T>, i: nat, x: T): (r: seq<T>)
    requires i <= |s|
    ensures |r| == |s| + 1 && r[i] == x
    ensures forall j :: 0 <= j < |r| && j != i ==> r[j] == s[if j < i then j else j - 1]
  {
    s[..i] + [x] + s[i..]
  }

  // ---------------------------------------------------------------- insertion into a leaf

  function WithEntry(n: TNode, pos: nat, k: Key, v: Rid): TNode
    requires pos <= |n.keys| && pos <= |n.rids|
  {
    n.(keys := InsertAt(n.keys, pos, k), rids := InsertAt(n.rids, pos, v))
  }

  ghost predicate IsSlot(n: TNode, pos: nat, k: Key) {
    && n.h == 0 && pos <= |n.keys|
    && (forall i :: 0 <= i < pos ==> n.keys[i] < k)
    && (forall i :: pos <= i < |n.keys| ==> k < n.keys[i])
  }

  lemma LeafInsertOk(n: TNode, pos: nat, k: Key, v: Rid)
    requires n.Ok() && IsSlot(n, pos, k) && n.Covers(k)
    ensures WithEntry(n, pos, k, v).Ok()
  {
    var m := WithEntry(n, pos, k, v);
    assert forall i :: 0 <= i < |n.keys| ==> n.Live(i);
    assert n.lo.At? ==> pos > 0;
    forall i, j | m.Live(i) && i < j < |m.keys| ensures m.keys[i] < m.keys[j] {
    }
  }

  lemma LeafInsertShape(t: Tree, root: int, p: int, pos: nat, k: Key, v: Rid)
    requires Shape(t, root) && p in t && IsSlot(t[p], pos, k) && t[p].Covers(k)
    ensures Shape(t[p := WithEntry(t[p], pos, k, v)], root)
  {
    var t' := t[p := WithEntry(t[p], pos, k, v)];
    LeafInsertOk(t[p], pos, k, v);
    forall q, i | q in t' && t'[q].h > 0 && 0 <= i < |t'[q].rids|
      && |t'[q].keys| == |t'[q].rids| ensures KidOk(t', q, i) {
      assert KidOk(t, q, i);
    }
    forall a, b | a in t' && b in t' && a != b && t'[a].h == t'[b].h ensures Before(t'[a], t'[b]) || Before(t'[b],
      t'[a]) {
      assert Before(t[a], t[b]) || Before(t[b], t[a]);
    }
  }

  lemma LeafInsertEntries(t: Tree, p: int, pos: nat, k: Key, v: Rid, contents: map<Key, Rid>, q: int, i: nat)
    requires p in t && t[p].Ok() && IsSlot(t[p], pos, k) && k !in contents && Holds(t, contents)
    requires q in t && t[q].h == 0
    requires var t' := t[p := WithEntry(t[p], pos, k, v)]; i < |t'[q].keys| == |t'[q].rids|
    ensures EntryOk(t[p := WithEntry(t[p], pos, k, v)], contents[k := v], q, i)
  {
    if q != p {
      assert EntryOk(t, contents, q, i);
    } else if i != pos {
      assert EntryOk(t, contents, p, if i < pos then i else i - 1);
    }
  }

  lemma LeafInsertStores(t: Tree, p: int, pos: nat, k: Key, v: Rid, x: Key)
    requires p in t && t[p].Ok() && IsSlot(t[p], pos, k)
    requires x == k || Stores(t, x)
    ensures Stores(t[p := WithEntry(t[p], pos, k, v)], x)
  {
    var m := WithEntry(t[p], pos, k, v);
    var t' := t[p := m];
    if x == k {
      assert m.keys[pos] == k;
      assert k in t'[p].keys;
    } else {
      var q :| q in t && t[q].h == 0 && x in t[q].keys;
      var i :| 0 <= i < |t[q].keys| && t[q].keys[i] == x;
      if q == p {
        assert m.keys[if i < pos then i else i + 1] == x;
      }
      assert x in t'[q].keys;
    }
  }

  lemma LeafInsertHolds(t: Tree, root: int, p: int, pos: nat, k: Key, v: Rid, contents: map<Key, Rid>)
    requires Nodes(t, root) && p in t && IsSlot(t[p], pos, k) && k !in contents && Holds(t, contents)
    ensures Holds(t[p := WithEntry(t[p], pos, k, v)], contents[k := v])
  {
    var t', contents' := t[p := WithEntry(t[p], pos, k, v)], contents[k := v];
    assert t[p].Ok();
    hide Stores, IsSlot, TNode.Ok, InsertAt;
    forall q, i | q in t' && t'[q].h == 0 && 0 <= i < |t'[q].keys| && |t'[q].keys| == |t'[q].rids|
      ensures EntryOk(t', contents', q, i)
    {
      LeafInsertEntries(t, p, pos, k, v, contents, q, i);
    }
    forall x | x in contents' ensures Stores(t', x) {
      LeafInsertStores(t, p, pos, k, v, x);
    }
  }

  // ---------------------------------------------------------------- halves

  function LeftHalf(n: TNode, m: nat): TNode
    requires m < |n.keys| && m <= |n.rids|
  {
    n.(hi := At(n.keys[m]), keys := n.keys[..m], rids := n.rids[..m])
  }

  function RightHalf(n: TNode, m: nat): TNode
    requires m < |n.keys| && m <= |n.rids|
  {
    n.(lo := At(n.keys[m]), keys := n.keys[m..], rids := n.rids[m..])
  }

  lemma HalvesOk(n: TNode, m: nat)
    requires n.Ok() && 1 <= m < |n.keys|
    ensures LeftHalf(n, m).Ok() && RightHalf(n, m).Ok()
    ensures n.lo.At? ==> n.lo.key < n.keys[m]
    ensures n.hi.At? ==> n.keys[m] < n.hi.key
  {
    var r := RightHalf(n, m);
    assert n.Live(m);
    assert n.lo.At? ==> n.Live(0);
    forall i, j | r.Live(i) && i < j < |r.keys| ensures r.keys[i] < r.keys[j] {
      assert n.Live(m + i);
    }
    if n.hi.At? {
      forall i | r.Live(i) ensures r.keys[i] < n.hi.key {
        assert n.Live(m + i);
      }
    }
    var l := LeftHalf(n, m);
    forall i, j | l.Live(i) && i < j < |l.keys| ensures l.keys[i] < l.keys[j] {
      assert n.Live(i);
    }
    forall i | l.Live(i) ensures l.keys[i] < n.keys[m] {
      assert n.Live(i);
    }
  }

  // ---------------------------------------------------------------- split under a parent

  function WithKid(n: TNode, i: nat, k: Key, c: int): TNode
    requires i <= |n.keys| && i <= |n.rids|
  {
    n.(keys := InsertAt(n.keys, i, k), rids := InsertAt(n.rids, i, Rid(c, -1)))
  }

  // p, kid i of g, keeps its first m entries; the others move to the new page q.
  ghost predicate CanSplit(t: Tree, root: int, g: int, i: nat, p: int, q: int, m: nat) {
    && g in t && p in t && q !in t && q >= 2 && t[g].h > 0
    && i < |t[g].rids| && t[g].Kid(i) == p
    && 1 <= m < |t[p].keys|
  }

  function SplitUnder(t: Tree, g: int, i: nat, p: int, q: int, m: nat): Tree
    requires g in t && p in t && i < |t[g].rids| == |t[g].keys| && m < |t[p].keys| == |t[p].rids|
  {
    t[p := LeftHalf(t[p], m)][q := RightHalf(t[p], m)][g := WithKid(t[g], i + 1, t[p].keys[m], q)]
  }

  lemma WithKidOk(n: TNode, i: nat, k: Key, c: int)
    requires n.Ok() && n.h > 0 && i < |n.keys|
    requires n.Live(i) ==> n.keys[i] < k
    requires i + 1 < |n.keys| ==> k < n.keys[i + 1]
    requires n.hi.At? ==> k < n.hi.key
    ensures WithKid(n, i + 1, k, c).Ok()
  {
    var n' := WithKid(n, i + 1, k, c);
    assert forall a :: n'.Live(a) && a <= i ==> n.Live(a);
    assert forall a :: n'.Live(a) && a > i + 1 ==> n.Live(a - 1);
    forall a, b | n'.Live(a) && a < b < |n'.keys| ensures n'.keys[a] < n'.keys[b] {
      if a < i && b == i + 1 {
        assert n.Live(a) && n.keys[a] < n.keys[i];
        assert n.Live(i);
      } else if a == i + 1 && b > i + 2 {
        assert n.Live(i + 1) && n.keys[i + 1] < n.keys[b - 1];
      }
    }
  }

  lemma SplitParentOk(t: Tree, root: int, g: int, i: nat, p: int, q: int, m: nat)
    requires Shape(t, root) && CanSplit(t, root, g, i, p, q, m)
    ensures WithKid(t[g], i + 1, t[p].keys[m], q).Ok()
  {
    assert KidOk(t, g, i);
    HalvesOk(t[p], m);
    if i + 1 >= |t[g].keys| {
      assert t[p].hi == t[g].hi;
    }
    WithKidOk(t[g], i, t[p].keys[m], q);
  }

  lemma SplitNodes(t: Tree, root: int, g: int, i: nat, p: int, q: int, m: nat)
    requires Shape(t, root) && CanSplit(t, root, g, i, p, q, m)
    ensures Nodes(SplitUnder(t, g, i, p, q, m), root)
  {
    assert KidOk(t, g, i);
    HalvesOk(t[p], m);
    SplitParentOk(t, root, g, i, p, q, m);
  }

  lemma SplitOtherKid(t: Tree, root: int, g: int, i: nat, p: int, q: int, m: nat, o: nat)
    requires Shape(t, root) && CanSplit(t, root, g, i, p, q, m)
    requires o < |t[g].rids| && o != i
    ensures KidOk(SplitUnder(t, g, i, p, q, m), g, if o < i then o else o + 1)
  {
    assert KidOk(t, g, i) && KidOk(t, g, o) && t[g].Ok() && t[p].Ok();
    SiblingsDiffer(t, root, g, i, o);
    hide Shape;
    SplitLook(t, g, i, p, q, m);
    WithKidOther(t[g], i, t[p].keys[m], q, o);
    hide SplitUnder, WithKid, TNode.Ok;
  }

  // The other entries keep their kid and the ends of its interval.
  lemma WithKidOther(n: TNode, i: nat, k: Key, c: int, o: nat)
    requires |n.keys| == |n.rids| && n.h > 0 && i < |n.keys| && o < |n.keys| && o != i
    ensures var n' := WithKid(n, i + 1, k, c);
            var j := if o < i then o else o + 1;
            && |n'.keys| == |n'.rids| == |n.keys| + 1 && n'.h == n.h && n'.rids[j] == n.rids[o]
              && n'.KidLo(j) == n.KidLo(o) && n'.KidHi(j) == n.KidHi(o)
  {
  }

  lemma SplitKidsOfParent(t: Tree, root: int, g: int, i: nat, p: int, q: int, m: nat, j: nat)
    requires Shape(t, root) && CanSplit(t, root, g, i, p, q, m)
    requires j <= |t[g].rids|
    ensures KidOk(SplitUnder(t, g, i, p, q, m), g, j)
  {
    assert KidOk(t, g, i);
    if j < i {
      SplitOtherKid(t, root, g, i, p, q, m, j);
    } else if j > i + 1 {
      SplitOtherKid(t, root, g, i, p, q, m, j - 1);
    }
  }

  lemma SplitKids(t: Tree, root: int, g: int, i: nat, p: int, q: int, m: nat)
    requires Shape(t, root) && CanSplit(t, root, g, i, p, q, m)
    ensures Kids(SplitUnder(t, g, i, p, q, m))
  {
    var t' := SplitUnder(t, g, i, p, q, m);
    assert KidOk(t, g, i);
    forall x, j | x in t' && t'[x].h > 0 && 0 <= j < |t'[x].rids|
      && |t'[x].keys| == |t'[x].rids| ensures KidOk(t', x, j) {
      if x == g {
        SplitKidsOfParent(t, root, g, i, p, q, m, j);
      } else if x == p {
        assert KidOk(t, p, j);
      } else if x == q {
        assert KidOk(t, p, m + j);
      } else {
        assert KidOk(t, x, j);
        if t[x].Kid(j) == p {
          OneParent(t, root, x, j, g, i);
        }
      }
    }
  }

  lemma SiblingsDiffer(t: Tree, root: int, g: int, i: nat, j: nat)
    requires Shape(t, root) && g in t && t[g].h > 0 && i < |t[g].rids| && j < |t[g].rids| && i != j
    ensures t[g].Kid(i) != t[g].Kid(j)
  {
    assert KidOk(t, g, i) && KidOk(t, g, j);
    var a, b := if i < j then i else j, if i < j then j else i;
    assert a == 0 && t[g].lo.At? ==> t[g].Live(0);
    assert a > 0 ==> t[g].Live(a);
  }

  // A page is the kid of one node only.
  lemma OneParent(t: Tree, root: int, g: int, i: nat, x: int, j: nat)
    requires Shape(t, root) && g in t && x in t && t[g].h > 0 && t[x].h > 0
    requires i < |t[g].rids| && j < |t[x].rids| && t[g].Kid(i) == t[x].Kid(j)
    ensures g == x
  {
    assert KidOk(t, g, i) && KidOk(t, x, j);
    KidInside(t, root, g, i);
    KidInside(t, root, x, j);
  }

  // The interval of a kid is not empty and lies inside its parent's.
  lemma KidInside(t: Tree, root: int, g: int, i: nat)
    requires Shape(t, root) && g in t && t[g].h > 0 && i < |t[g].rids|
    ensures var c := t[g].Kid(i);
            && c in t
            && (t[g].lo.At? ==> t[c].lo.At? && t[g].lo.key <= t[c].lo.key)
            && (t[g].hi.At? ==> t[c].hi.At? && t[c].hi.key <= t[g].hi.key)
            && (t[c].lo.At? && t[c].hi.At? ==> t[c].lo.key < t[c].hi.key)
            && (t[c].lo.At? && t[g].hi.At? ==> t[c].lo.key < t[g].hi.key)
            && (t[g].lo.At? && t[c].hi.At? ==> t[g].lo.key < t[c].hi.key)
  {
    assert KidOk(t, g, i);
    var c := t[g].Kid(i);
    if t[g].lo.At? { assert t[g].Live(0); }
    if i > 0 { assert t[g].Live(i); }
    if i + 1 < |t[g].keys| { assert t[g].Live(i + 1); }
    if t[c].lo.At? { assert t[c].Live(0); }
  }

  lemma SplitLevels(t: Tree, root: int, g: int, i: nat, p: int, q: int, m: nat)
    requires Shape(t, root) && CanSplit(t, root, g, i, p, q, m)
    ensures Levels(SplitUnder(t, g, i, p, q, m))
  {
    var t' := SplitUnder(t, g, i, p, q, m);
    assert KidOk(t, g, i);
    HalvesOk(t[p], m);
    forall a, b | a in t' && b in t' && a != b && t'[a].h == t'[b].h ensures Before(t'[a], t'[b]) || Before(t'[b],
      t'[a]) {
      var a0, b0 := if a == q then p else a, if b == q then p else b;
      if a0 != b0 {
        assert Before(t[a0], t[b0]) || Before(t[b0], t[a0]);
      }
    }
  }

  lemma SplitShape(t: Tree, root: int, g: int, i: nat, p: int, q: int, m: nat)
    requires Shape(t, root) && CanSplit(t, root, g, i, p, q, m)
    ensures KidOk(t, g, i)
    ensures Shape(SplitUnder(t, g, i, p, q, m), root)
  {
    SplitNodes(t, root, g, i, p, q, m);
    SplitKids(t, root, g, i, p, q, m);
    SplitLevels(t, root, g, i, p, q, m);
    assert KidOk(t, g, i);
  }

  // ---------------------------------------------------------------- parent pointers

  ghost predicate Names(rids: seq<Rid>, c: int) {
    exists i :: 0 <= i < |rids| && rids[i].pageNo == c
  }

  // The kids named by rids get the new parent q.
  ghost function Adopt(par: map<int, int>, rids: seq<Rid>, q: int): map<int, int> {
    map c | c in par :: if Names(rids, c) then q else par[c]
  }

  function MovedKids(n: TNode, m: nat): seq<Rid>
    requires m <= |n.rids|
  {
    if n.h > 0 then n.rids[m..] else []
  }

  lemma NamedKid(t: Tree, root: int, p: int, m: nat, c: int)
    requires Shape(t, root) && p in t && m <= |t[p].rids| && Names(MovedKids(t[p], m), c)
    ensures t[p].h > 0 && exists j :: m <= j < |t[p].rids| && t[p].Kid(j) == c
  {
    var i :| 0 <= i < |MovedKids(t[p], m)| && MovedKids(t[p], m)[i].pageNo == c;
    assert t[p].Kid(m + i) == c;
  }

  // Whoever is among the moved kids of p is no kid of another node and not kept by p.
  lemma OnlyMoved(t: Tree, root: int, p: int, m: nat, x: int, j: nat)
    requires Shape(t, root) && p in t && m <= |t[p].rids| && x in t && t[x].h > 0 && j < |t[x].rids|
    ensures Names(MovedKids(t[p], m), t[x].Kid(j)) <==> x == p && j >= m
  {
    var c := t[x].Kid(j);
    if Names(MovedKids(t[p], m), c) {
      NamedKid(t, root, p, m, c);
      var o :| m <= o < |t[p].rids| && t[p].Kid(o) == c;
      OneParent(t, root, p, o, x, j);
      if o != j {
        SiblingsDiffer(t, root, p, o, j);
      }
    }
    if x == p && j >= m {
      assert MovedKids(t[p], m)[j - m].pageNo == c;
    }
  }

  lemma KidAt(n: TNode, i: nat)
    requires i < |n.rids|
    ensures IsKid(n, n.Kid(i))
  {
  }

  lemma SplitLook(t: Tree, g: int, i: nat, p: int, q: int, m: nat)
    requires g in t && p in t && q !in t && g != p && i < |t[g].rids| == |t[g].keys| && m < |t[p].keys| == |t[p].rids|
    ensures var t' := SplitUnder(t, g, i, p, q, m);
            && g in t' && t'[g] == WithKid(t[g], i + 1, t[p].keys[m], q)
            && p in t' && t'[p] == LeftHalf(t[p], m) && q in t' && t'[q] == RightHalf(t[p], m)
            && (forall x :: x in t && x != g && x != p ==> x in t' && t'[x] == t[x])
            && (forall x :: x in t' ==> x == q || x in t)
  {
  }

  lemma SplitParentsDown(t: Tree, root: int, g: int, i: nat, p: int, q: int, m: nat, par: map<int, int>, x: int, j: nat)
    requires Shape(t, root) && CanSplit(t, root, g, i, p, q, m) && Parents(t, root, par)
    requires KidOk(t, g, i) && t[g].Ok() && t[p].Ok()
    requires var t' := SplitUnder(t, g, i, p, q, m); x in t' && t'[x].h > 0 && j < |t'[x].rids|
    ensures var t' := SplitUnder(t, g, i, p, q, m);
            var par' := Adopt(par, MovedKids(t[p], m), q)[q := g];
            t'[x].Kid(j) in par' && par'[t'[x].Kid(j)] == x
  {
    SplitLook(t, g, i, p, q, m);
    hide SplitUnder;
    var x0 := if x == q then p else x;
    var j0 := if x == q then m + j else if x == g && j > i then j - 1 else j;
    if x == g && j == i + 1 {
    } else {
      KidBelow(t, root, x0, j0);
      OnlyMoved(t, root, p, m, x0, j0);
      hide Shape;
      assert t[x0].Kid(j0) in par && par[t[x0].Kid(j0)] == x0;
    }
  }

  lemma KidBelow(t: Tree, root: int, x: int, j: nat)
    requires Shape(t, root) && x in t && t[x].h > 0 && j < |t[x].rids|
    ensures var c := t[x].Kid(j); c in t && t[c].h + 1 == t[x].h
  {
    assert KidOk(t, x, j);
  }

  // Where kid j of x is found after the split.
  lemma SplitKidStays(t: Tree, g: int, i: nat, p: int, q: int, m: nat, x: int, j: nat)
    requires g in t && p in t && q !in t && g != p && i < |t[g].rids| == |t[g].keys| && m < |t[p].keys| == |t[p].rids|
    requires x in t && t[x].h > 0 && j < |t[x].rids|
    ensures var t' := SplitUnder(t, g, i, p, q, m);
            var x' := if x == p && j >= m then q else x;
            x' in t' && t'[x'].h > 0 && IsKid(t'[x'], t[x].Kid(j))
  {
    SplitLook(t, g, i, p, q, m);
    var t' := SplitUnder(t, g, i, p, q, m);
    hide SplitUnder;
    if x == p && j >= m {
      KidAt(t'[q], j - m);
    } else {
      KidAt(t'[x], if x == g && j > i then j + 1 else j);
    }
  }

  lemma SplitParentsUp(t: Tree, root: int, g: int, i: nat, p: int, q: int, m: nat, par: map<int, int>, c: int)
    requires Shape(t, root) && CanSplit(t, root, g, i, p, q, m) && Parents(t, root, par)
    requires KidOk(t, g, i) && t[g].Ok() && t[p].Ok()
    requires var t' := SplitUnder(t, g, i, p, q, m); c in t' && c != root
    ensures var t' := SplitUnder(t, g, i, p, q, m);
            var par' := Adopt(par, MovedKids(t[p], m), q)[q := g];
            c in par' && par'[c] in t' && t'[par'[c]].h > 0 && IsKid(t'[par'[c]], c)
  {
    SplitLook(t, g, i, p, q, m);
    var t' := SplitUnder(t, g, i, p, q, m);
    hide SplitUnder;
    if c == q {
      KidAt(t'[g], i + 1);
    } else {
      var x := par[c];
      var j :| 0 <= j < |t[x].rids| && t[x].Kid(j) == c;
      OnlyMoved(t, root, p, m, x, j);
      hide Shape, Parents, KidOk;
      SplitKidStays(t, g, i, p, q, m, x, j);
    }
  }

  lemma SplitParents(t: Tree, root: int, g: int, i: nat, p: int, q: int, m: nat, par: map<int, int>)
    requires Shape(t, root) && CanSplit(t, root, g, i, p, q, m) && Parents(t, root, par)
    requires KidOk(t, g, i) && t[g].Ok() && t[p].Ok()
    ensures Parents(SplitUnder(t, g, i, p, q, m), root, Adopt(par, MovedKids(t[p], m), q)[q := g])
  {
    var t' := SplitUnder(t, g, i, p, q, m);
    var par' := Adopt(par, MovedKids(t[p], m), q)[q := g];
    forall x, j | x in t' && t'[x].h > 0 && 0 <= j < |t'[x].rids| ensures t'[x].Kid(j) in par'
      && par'[t'[x].Kid(j)] == x {
      SplitParentsDown(t, root, g, i, p, q, m, par, x, j);
    }
    forall c | c in t' && c != root ensures c in par' && par'[c] in t' && t'[par'[c]].h > 0 && IsKid(t'[par'[c]], c) {
      SplitParentsUp(t, root, g, i, p, q, m, par, c);
    }
    RootUnnamed(t, root, p, m);
  }

  lemma RootUnnamed(t: Tree, root: int, p: int, m: nat)
    requires Shape(t, root) && p in t && m <= |t[p].rids|
    ensures !Names(MovedKids(t[p], m), root)
  {
    if Names(MovedKids(t[p], m), root) {
      NamedKid(t, root, p, m, root);
      var j :| m <= j < |t[p].rids| && t[p].Kid(j) == root;
      KidBelowRoot(t, root, p, j);
      assert false;
    }
  }

  lemma KidBelowRoot(t: Tree, root: int, p: int, j: nat)
    requires Shape(t, root) && p in t && t[p].h > 0 && j < |t[p].rids|
    ensures t[p].Kid(j) != root
  {
    assert KidOk(t, p, j);
  }

  // ---------------------------------------------------------------- sizes, leaf order, entries

  lemma SplitSized(t: Tree, root: int, g: int, i: nat, p: int, q: int, m: nat, maxSize: nat)
    requires Shape(t, root) && CanSplit(t, root, g, i, p, q, m) && KidOk(t, g, i)
    requires Sized(t, root, maxSize, p) && |t[p].keys| == maxSize && m == maxSize / 2
    ensures Sized(SplitUnder(t, g, i, p, q, m), root, maxSize, g)
    ensures |WithKid(t[g], i + 1, t[p].keys[m], q).keys| <= maxSize
    ensures |WithKid(t[g], i + 1, t[p].keys[m], q).keys| < maxSize ==> Sized(SplitUnder(t, g, i, p, q, m), root,
      maxSize, -1)
  {
    assert g != p && p != root;
    assert Fits(t[g], g == root, maxSize);
  }

  lemma SplitChain(t: Tree, root: int, g: int, i: nat, p: int, q: int, m: nat, leaves: seq<int>, at: nat)
    requires Shape(t, root) && CanSplit(t, root, g, i, p, q, m) && KidOk(t, g, i)
    requires Chain(t, leaves)
    requires t[p].h == 0 ==> at < |leaves| && leaves[at] == p
    ensures Chain(SplitUnder(t, g, i, p, q, m), if t[p].h == 0 then InsertAt(leaves, at + 1, q) else leaves)
  {
    assert t[p].Ok() && t[g].Ok();
    SplitLook(t, g, i, p, q, m);
    var t' := SplitUnder(t, g, i, p, q, m);
    hide SplitUnder, Shape, Chain;
    if t[p].h == 0 {
      HalfChain(t, t', p, q, m, leaves, at);
    } else {
      SameChain(t, t', leaves);
    }
  }

  lemma SameChain(t: Tree, t': Tree, leaves: seq<int>)
    requires Chain(t, leaves)
    requires forall x :: x in t && t[x].h == 0 ==> x in t' && t'[x] == t[x]
    requires forall x :: x in t' && t'[x].h == 0 ==> x in t && t[x].h == 0
    ensures Chain(t', leaves)
  {
  }

  // A leaf split in place: the order of the leaves gains q right after p.
  ghost predicate Halved(t: Tree, t': Tree, p: int, q: int, m: nat) {
    && p in t && t[p].h == 0 && q !in t && m < |t[p].keys| && |t[p].keys| == |t[p].rids|
    && p in t' && t'[p] == LeftHalf(t[p], m) && q in t' && t'[q] == RightHalf(t[p], m)
    && (forall x :: x in t && x != p && t[x].h == 0 ==> x in t' && t'[x] == t[x])
    && (forall x :: x in t' && t'[x].h == 0 ==> x == q || (x in t && t[x].h == 0))
  }

  lemma HalfRoll(t: Tree, t': Tree, p: int, q: int, m: nat, leaves: seq<int>, at: nat)
    requires Roll(t, leaves) && Halved(t, t', p, q, m) && at < |leaves| && leaves[at] == p
    ensures Roll(t', InsertAt(leaves, at + 1, q))
  {
    var l' := InsertAt(leaves, at + 1, q);
    forall x | x in t' && t'[x].h == 0 ensures x in l' {
      if x != q {
        var j :| 0 <= j < |leaves| && leaves[j] == x;
        assert l'[if j <= at then j else j + 1] == x;
      } else {
        assert l'[at + 1] == q;
      }
    }
  }

  lemma HalfAdjoin(t: Tree, t': Tree, p: int, q: int, m: nat, leaves: seq<int>, at: nat)
    requires Roll(t, leaves) && Adjoin(t, leaves) && Halved(t, t', p, q, m) && at < |leaves| && leaves[at] == p
    ensures Adjoin(t', InsertAt(leaves, at + 1, q))
  {
    var l' := InsertAt(leaves, at + 1, q);
    forall i, j | 0 <= i && j == i + 1 && j < |l'| ensures t'[l'[i]].hi == t'[l'[j]].lo {
      if i < at {
        assert t[leaves[i]].hi == t[leaves[j]].lo;
      } else if i > at {
        assert i == at + 1 || t[leaves[i - 1]].hi == t[leaves[j - 1]].lo;
      }
    }
  }

  lemma HalfChain(t: Tree, t': Tree, p: int, q: int, m: nat, leaves: seq<int>, at: nat)
    requires Chain(t, leaves) && Halved(t, t', p, q, m) && at < |leaves| && leaves[at] == p
    ensures Chain(t', InsertAt(leaves, at + 1, q))
  {
    HalfRoll(t, t', p, q, m, leaves, at);
    HalfAdjoin(t, t', p, q, m, leaves, at);
  }

  // The entries of p are shared out between p and q.
  lemma HalfHolds(t: Tree, t': Tree, p: int, q: int, m: nat, contents: map<Key, Rid>)
    requires Holds(t, contents) && p in t && q !in t && m < |t[p].keys| == |t[p].rids|
    requires p in t' && t'[p] == LeftHalf(t[p], m) && q in t' && t'[q] == RightHalf(t[p], m)
    requires forall x :: x in t && x != p && t[x].h == 0 ==> x in t' && t'[x] == t[x]
    requires forall x :: x in t' && x != p && x != q && t'[x].h == 0 ==> x in t && t'[x] == t[x]
    ensures Holds(t', contents)
  {
    forall x, j | x in t' && t'[x].h == 0 && 0 <= j < |t'[x].keys|
      && |t'[x].keys| == |t'[x].rids| ensures EntryOk(t', contents, x, j) {
      assert EntryOk(t, contents, if x == q then p else x, if x == q then m + j else j);
    }
    forall k | k in contents ensures Stores(t', k) {
      assert Stores(t, k);
      var x :| x in t && t[x].h == 0 && k in t[x].keys;
      if x == p {
        var j :| 0 <= j < |t[p].keys| && t[p].keys[j] == k;
        assert if j < m then t'[p].keys[j] == k else t'[q].keys[j - m] == k;
        assert k in t'[if j < m then p else q].keys;
      } else {
        assert k in t'[x].keys;
      }
    }
  }

  lemma SplitHolds(t: Tree, root: int, g: int, i: nat, p: int, q: int, m: nat, contents: map<Key, Rid>)
    requires Shape(t, root) && CanSplit(t, root, g, i, p, q, m) && KidOk(t, g, i) && Holds(t, contents)
    ensures Holds(SplitUnder(t, g, i, p, q, m), contents)
  {
    HalfHolds(t, SplitUnder(t, g, i, p, q, m), p, q, m, contents);
  }

  // ---------------------------------------------------------------- split of the root

  function NewRoot(n: TNode, p: int, q: int, m: nat): TNode
    requires 0 < m < |n.keys|
  {
    TNode(n.h + 1, Open, Open, [n.keys[0], n.keys[m]], [Rid(p, -1), Rid(q, -1)])
  }

  function SplitRoot(t: Tree, p: int, q: int, r: int, m: nat): Tree
    requires p in t && 0 < m < |t[p].keys| == |t[p].rids|
  {
    t[p := LeftHalf(t[p], m)][q := RightHalf(t[p], m)][r := NewRoot(t[p], p, q, m)]
  }

  ghost predicate CanSplitRoot(t: Tree, p: int, q: int, r: int, m: nat) {
    p in t && q !in t && r !in t && q != r && q >= 2 && r >= 2 && 1 <= m < |t[p].keys|
  }

  // The root is alone on its level.
  lemma RootAlone(t: Tree, root: int, x: int)
    requires Shape(t, root) && x in t && t[x].h == t[root].h
    ensures x == root
  {
  }

  lemma SplitRootLook(t: Tree, p: int, q: int, r: int, m: nat)
    requires CanSplitRoot(t, p, q, r, m) && |t[p].keys| == |t[p].rids|
    ensures var t' := SplitRoot(t, p, q, r, m);
            && p in t' && t'[p] == LeftHalf(t[p], m) && q in t' && t'[q] == RightHalf(t[p], m) && r in t'
              && t'[r] == NewRoot(t[p], p, q, m)
            && (forall x :: x in t && x != p ==> x in t' && t'[x] == t[x])
            && (forall x :: x in t' ==> x == q || x == r || x in t)
  {
  }

  lemma SplitRootKid(t: Tree, p: int, q: int, r: int, m: nat, x: int, j: nat)
    requires Shape(t, p) && CanSplitRoot(t, p, q, r, m) && |t[p].keys| == |t[p].rids|
    requires var t' := SplitRoot(t, p, q, r, m);
      x in t' && t'[x].h > 0 && j < |t'[x].rids| && |t'[x].keys| == |t'[x].rids|
    ensures KidOk(SplitRoot(t, p, q, r, m), x, j)
  {
    SplitRootLook(t, p, q, r, m);
    hide SplitRoot;
    if x != r {
      var x0, j0 := if x == q then p else x, if x == q then m + j else j;
      KidBelowRoot(t, p, x0, j0);
      assert KidOk(t, x0, j0);
      hide Shape;
    }
  }

  lemma SplitRootLevels(t: Tree, p: int, q: int, r: int, m: nat)
    requires Shape(t, p) && CanSplitRoot(t, p, q, r, m) && |t[p].keys| == |t[p].rids|
    ensures Levels(SplitRoot(t, p, q, r, m))
  {
    SplitRootLook(t, p, q, r, m);
    HalvesOk(t[p], m);
    var t' := SplitRoot(t, p, q, r, m);
    hide SplitRoot;
    forall a, b | a in t' && b in t' && a != b && t'[a].h == t'[b].h ensures Before(t'[a], t'[b]) || Before(t'[b],
      t'[a]) {
      if a != r && b != r {
        var a0, b0 := if a == q then p else a, if b == q then p else b;
        if a0 != b0 {
          assert Before(t[a0], t[b0]) || Before(t[b0], t[a0]);
        }
      }
    }
  }

  lemma SplitRootShape(t: Tree, p: int, q: int, r: int, m: nat)
    requires Shape(t, p) && CanSplitRoot(t, p, q, r, m)
    ensures Shape(SplitRoot(t, p, q, r, m), r)
  {
    var t' := SplitRoot(t, p, q, r, m);
    HalvesOk(t[p], m);
    SplitRootLook(t, p, q, r, m);
    assert Nodes(t', r);
    hide SplitRoot, Nodes;
    forall x, j | x in t' && t'[x].h > 0 && 0 <= j < |t'[x].rids|
      && |t'[x].keys| == |t'[x].rids| ensures KidOk(t', x, j) {
      SplitRootKid(t, p, q, r, m, x, j);
    }
    SplitRootLevels(t, p, q, r, m);
  }

  lemma SplitRootParentsDown(t: Tree, p: int, q: int, r: int, m: nat, par: map<int, int>, x: int, j: nat)
    requires Shape(t, p) && CanSplitRoot(t, p, q, r, m) && Parents(t, p, par) && t[p].Ok()
    requires var t' := SplitRoot(t, p, q, r, m); x in t' && t'[x].h > 0 && j < |t'[x].rids|
    ensures var t' := SplitRoot(t, p, q, r, m);
            var par' := Adopt(par, MovedKids(t[p], m), q)[q := r][p := r][r := -1];
            t'[x].Kid(j) in par' && par'[t'[x].Kid(j)] == x
  {
    SplitRootLook(t, p, q, r, m);
    hide SplitRoot;
    if x != r {
      var x0, j0 := if x == q then p else x, if x == q then m + j else j;
      OnlyMoved(t, p, p, m, x0, j0);
      KidBelowRoot(t, p, x0, j0);
      KidBelow(t, p, x0, j0);
      hide Shape;
      assert t[x0].Kid(j0) in par && par[t[x0].Kid(j0)] == x0;
    }
  }

  lemma SplitRootParentsUp(t: Tree, p: int, q: int, r: int, m: nat, par: map<int, int>, c: int)
    requires Shape(t, p) && CanSplitRoot(t, p, q, r, m) && Parents(t, p, par) && t[p].Ok()
    requires c in SplitRoot(t, p, q, r, m) && c != r
    ensures var t' := SplitRoot(t, p, q, r, m);
            var par' := Adopt(par, MovedKids(t[p], m), q)[q := r][p := r][r := -1];
            c in par' && par'[c] in t' && t'[par'[c]].h > 0 && IsKid(t'[par'[c]], c)
  {
    SplitRootLook(t, p, q, r, m);
    var t' := SplitRoot(t, p, q, r, m);
    hide SplitRoot;
    if c == p || c == q {
      KidAt(t'[r], if c == p then 0 else 1);
    } else {
      var x := par[c];
      var j :| 0 <= j < |t[x].rids| && t[x].Kid(j) == c;
      OnlyMoved(t, p, p, m, x, j);
      hide Shape, Parents;
      if x == p && j >= m {
        KidAt(t'[q], j - m);
      } else {
        KidAt(t'[x], j);
      }
    }
  }

  lemma SplitRootParents(t: Tree, p: int, q: int, r: int, m: nat, par: map<int, int>)
    requires Shape(t, p) && CanSplitRoot(t, p, q, r, m) && Parents(t, p, par)
    requires t[p].Ok()
    ensures Parents(SplitRoot(t, p, q, r, m), r, Adopt(par, MovedKids(t[p], m), q)[q := r][p := r][r := -1])
  {
    var t' := SplitRoot(t, p, q, r, m);
    var par' := Adopt(par, MovedKids(t[p], m), q)[q := r][p := r][r := -1];
    assert |t[p].rids| >= m;
    hide SplitRoot, Shape, TNode.Ok, Adopt, MovedKids;
    forall x, j | x in t' && t'[x].h > 0 && 0 <= j < |t'[x].rids| ensures t'[x].Kid(j) in par'
      && par'[t'[x].Kid(j)] == x {
      SplitRootParentsDown(t, p, q, r, m, par, x, j);
    }
    forall c | c in t' && c != r ensures c in par' && par'[c] in t' && t'[par'[c]].h > 0 && IsKid(t'[par'[c]], c) {
      SplitRootParentsUp(t, p, q, r, m, par, c);
    }
  }

  lemma SplitRootSized(t: Tree, p: int, q: int, r: int, m: nat, maxSize: nat)
    requires Shape(t, p) && CanSplitRoot(t, p, q, r, m) && t[p].Ok()
    requires Sized(t, p, maxSize, p) && |t[p].keys| == maxSize && m == maxSize / 2 && maxSize >= 4
    ensures Sized(SplitRoot(t, p, q, r, m), r, maxSize, -1)
  {
    SplitRootLook(t, p, q, r, m);
    hide SplitRoot, Shape;
  }

  lemma SplitRootChain(t: Tree, p: int, q: int, r: int, m: nat, leaves: seq<int>, at: nat)
    requires Shape(t, p) && CanSplitRoot(t, p, q, r, m) && t[p].Ok() && Chain(t, leaves)
    requires t[p].h == 0 ==> at < |leaves| && leaves[at] == p
    ensures Chain(SplitRoot(t, p, q, r, m), if t[p].h == 0 then InsertAt(leaves, at + 1, q) else leaves)
  {
    SplitRootLook(t, p, q, r, m);
    var t' := SplitRoot(t, p, q, r, m);
    hide SplitRoot, Shape, Chain, TNode.Ok;
    if t[p].h == 0 {
      HalfChain(t, t', p, q, m, leaves, at);
    } else {
      SameChain(t, t', leaves);
    }
  }

  lemma SplitRootHolds(t: Tree, p: int, q: int, r: int, m: nat, contents: map<Key, Rid>)
    requires Shape(t, p) && CanSplitRoot(t, p, q, r, m) && t[p].Ok() && Holds(t, contents)
    ensures Holds(SplitRoot(t, p, q, r, m), contents)
  {
    SplitRootLook(t, p, q, r, m);
    var t' := SplitRoot(t, p, q, r, m);
    hide SplitRoot, Shape, Holds, TNode.Ok;
    HalfHolds(t, t', p, q, m, contents);
  }
}
