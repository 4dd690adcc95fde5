/**
 Deletion from a leaf, the merge of two neighbouring kids, the move of a separator
 between them and the removal of a root with a single kid.
 */
module IndexTreeMerge {
  import opened RecordIds
  import opened IndexTree
  import opened IndexTreeSplit

  function RemoveAt<T>(s: seq<T>, i: nat): (r: seq<T>)
    requires i < |s|
    ensures |r| == |s| - 1
    ensures forall j :: 0 <= j < |r| ==> r[j] == s[if j < i then j else j + 1]
  {
    s[..i] + s[i + 1..]
  }

  // ---------------------------------------------------------------- merge of kids i and i + 1 of g

  function Joined(l: TNode, r: TNode): TNode {
    TNode(l.h, l.lo, r.hi, l.keys + r.keys, l.rids + r.rids)
  }

  // Entries i and i + 1 become the single entry (k0, kid c).
  function OneKid(n: TNode, i: nat, k0: Key, c: int): TNode
    requires i + 1 < |n.keys| && |n.keys| == |n.rids|
  {
    n.(keys := RemoveAt(n.keys, i + 1)[i := k0], rids := RemoveAt(n.rids, i + 1)[i := Rid(c, -1)])
  }

  ghost predicate CanMerge(t: Tree, g: int, i: nat, l: int, r: int, k0: Key, keep: int) {
    && g in t && t[g].h > 0 && i + 1 < |t[g].rids| && t[g].Kid(i) == l && t[g].Kid(i + 1) == r
    && |t[g].rids| == |t[g].keys| && (keep == l || keep == r)
    && l in t && r in t && |t[l].keys| > 0
    && (t[g].Live(i) ==> k0 == t[g].keys[i])
  }

  function Merge(t: Tree, g: int, i: nat, l: int, r: int, k0: Key, keep: int): Tree
    requires g in t && l in t && r in t && i + 1 < |t[g].keys| && |t[g].keys| == |t[g].rids|
  {
    (t - {if keep == l then r else l})[keep := Joined(t[l], t[r])][g := OneKid(t[g], i, k0, keep)]
  }

  // What two neighbouring kids know of each other.
  lemma Neighbours(t: Tree, root: int, g: int, i: nat)
    requires Shape(t, root) && g in t && t[g].h > 0 && i + 1 < |t[g].rids|
    ensures var l, r := t[g].Kid(i), t[g].Kid(i + 1);
            && l in t && r in t && l != r && l != g && r != g && l != root && r != root
            && t[l].Ok() && t[r].Ok() && t[g].Ok()
            && KidOk(t, g, i) && KidOk(t, g, i + 1)
            && t[l].h == t[r].h && t[l].h + 1 == t[g].h
            && t[l].hi == t[r].lo == At(t[g].keys[i + 1]) && t[r].keys[0] == t[g].keys[i + 1]
            && (t[l].lo.At? ==> t[l].lo.key < t[g].keys[i + 1])
            && (t[r].hi.At? ==> t[g].keys[i + 1] < t[r].hi.key)
  {
    assert KidOk(t, g, i) && KidOk(t, g, i + 1);
    KidInside(t, root, g, i);
    KidInside(t, root, g, i + 1);
    SiblingsDiffer(t, root, g, i, i + 1);
  }

  lemma JoinedOk(l: TNode, r: TNode)
    requires l.Ok() && r.Ok() && l.h == r.h && l.hi == r.lo && r.lo.At?
    requires l.lo.At? ==> l.lo.key < r.lo.key
    requires r.hi.At? ==> r.lo.key < r.hi.key
    requires l.h > 0 || |l.keys| > 0
    ensures Joined(l, r).Ok()
  {
    var n := Joined(l, r);
    var m := |l.keys|;
    assert r.Live(0);
    assert forall i :: n.Live(i) && i < m ==> l.Live(i);
    assert forall i :: n.Live(i) && i >= m ==> r.Live(i - m);
    forall i, j | n.Live(i) && i < j < |n.keys| ensures n.keys[i] < n.keys[j] {
      if i < m && j > m {
        assert l.Live(i) && r.keys[0] < r.keys[j - m];
      }
    }
  }

  lemma OneKidOk(n: TNode, i: nat, k0: Key, c: int)
    requires n.Ok() && n.h > 0 && i + 1 < |n.keys| && (n.Live(i) ==> k0 == n.keys[i])
    ensures OneKid(n, i, k0, c).Ok()
  {
    var n' := OneKid(n, i, k0, c);
    assert n.lo.At? ==> n.Live(0);
    assert forall a :: n'.Live(a) ==>
      n.Live(if a <= i then a else a + 1) && n'.keys[a] == n.keys[if a <= i then a else a + 1];
  }

  lemma MergeNodes(t: Tree, root: int, g: int, i: nat, l: int, r: int, k0: Key, keep: int)
    requires Shape(t, root) && CanMerge(t, g, i, l, r, k0, keep)
    ensures Nodes(Merge(t, g, i, l, r, k0, keep), root)
  {
    Neighbours(t, root, g, i);
    JoinedOk(t[l], t[r]);
    OneKidOk(t[g], i, k0, keep);
  }

  lemma MergeLook(t: Tree, g: int, i: nat, l: int, r: int, k0: Key, keep: int)
    requires CanMerge(t, g, i, l, r, k0, keep) && l != g && r != g && l != r
    ensures var t' := Merge(t, g, i, l, r, k0, keep);
            && g in t' && t'[g] == OneKid(t[g], i, k0, keep)
            && keep in t' && t'[keep] == Joined(t[l], t[r])
            && (forall x :: x in t && x != g && x != l && x != r ==> x in t' && t'[x] == t[x])
            && (forall x :: x in t' ==> x == keep || (x in t && x != l && x != r))
  {
  }

  lemma MergeTheKid(t: Tree, root: int, g: int, i: nat, l: int, r: int, k0: Key, keep: int)
    requires Shape(t, root) && CanMerge(t, g, i, l, r, k0, keep)
    ensures var t' := Merge(t, g, i, l, r, k0, keep); |t'[g].keys| == |t'[g].rids| && KidOk(t', g, i)
  {
    Neighbours(t, root, g, i);
    MergeLook(t, g, i, l, r, k0, keep);
    hide Shape, Merge;
  }

  lemma MergeOtherKid(t: Tree, root: int, g: int, i: nat, l: int, r: int, k0: Key, keep: int, o: nat)
    requires Shape(t, root) && CanMerge(t, g, i, l, r, k0, keep)
    requires o < |t[g].rids| && o != i && o != i + 1
    ensures var t' := Merge(t, g, i, l, r, k0, keep);
      |t'[g].keys| == |t'[g].rids| && KidOk(t', g, if o <= i then o else o - 1)
  {
    Neighbours(t, root, g, i);
    assert KidOk(t, g, o);
    SiblingsDiffer(t, root, g, i, o);
    SiblingsDiffer(t, root, g, i + 1, o);
    hide Shape;
    MergeLook(t, g, i, l, r, k0, keep);
    OneKidOther(t[g], i, k0, keep, o);
    hide Merge, TNode.Ok, OneKid;
  }

  // The other entries keep their kid and the ends of its interval.
  lemma OneKidOther(n: TNode, i: nat, k0: Key, c: int, o: nat)
    requires n.Ok() && n.h > 0 && i + 1 < |n.keys| && (n.Live(i) ==> k0 == n.keys[i]) && o < |n.keys| && o != i
      && o != i + 1
    ensures var n' := OneKid(n, i, k0, c);
            var j := if o <= i then o else o - 1;
            && |n'.keys| == |n'.rids| == |n.keys| - 1 && n'.h == n.h && n'.rids[j] == n.rids[o]
              && n'.KidLo(j) == n.KidLo(o) && n'.KidHi(j) == n.KidHi(o)
  {
    assert n.lo.At? ==> n.Live(0);
  }

  lemma MergeKidsOfOther(t: Tree, root: int, g: int, i: nat, l: int, r: int, k0: Key, keep: int, x: int, j: nat)
    requires Shape(t, root) && CanMerge(t, g, i, l, r, k0, keep)
    requires x in t && x != g && t[x].h > 0 && j < |t[x].rids|
    ensures |t[x].keys| == |t[x].rids| && KidOk(t, x, j) && t[x].Kid(j) != l && t[x].Kid(j) != r
  {
    Neighbours(t, root, g, i);
    assert KidOk(t, x, j);
    var c := t[x].Kid(j);
    if c == l {
      OneParent(t, root, x, j, g, i);
    }
    if c == r {
      OneParent(t, root, x, j, g, i + 1);
    }
  }

  lemma MergeKeptKid(t: Tree, root: int, g: int, i: nat, l: int, r: int, k0: Key, keep: int, j: nat)
    requires Shape(t, root) && CanMerge(t, g, i, l, r, k0, keep) && t[l].h > 0 && t[r].h > 0
    requires j < |t[l].rids| + |t[r].rids|
    ensures var t' := Merge(t, g, i, l, r, k0, keep);
      |t'[keep].keys| == |t'[keep].rids| && j < |t'[keep].rids| && KidOk(t', keep, j)
  {
    Neighbours(t, root, g, i);
    var m := |t[l].keys|;
    MergeKidsOfOther(t, root, g, i, l, r, k0, keep, if j < m then l else r, if j < m then j else j - m);
    KidBelow(t, root, if j < m then l else r, if j < m then j else j - m);
    MergeLook(t, g, i, l, r, k0, keep);
    hide Shape, Merge;
  }

  lemma MergeKids(t: Tree, root: int, g: int, i: nat, l: int, r: int, k0: Key, keep: int, x: int, j: nat)
    requires Shape(t, root) && CanMerge(t, g, i, l, r, k0, keep)
    requires var t' := Merge(t, g, i, l, r, k0, keep); x in t' && t'[x].h > 0 && j < |t'[x].rids|
    ensures var t' := Merge(t, g, i, l, r, k0, keep); |t'[x].keys| == |t'[x].rids| && KidOk(t', x, j)
  {
    Neighbours(t, root, g, i);
    MergeLook(t, g, i, l, r, k0, keep);
    hide Shape, Merge;
    if x == g {
      if j == i {
        MergeTheKid(t, root, g, i, l, r, k0, keep);
      } else {
        MergeOtherKid(t, root, g, i, l, r, k0, keep, if j < i then j else j + 1);
      }
    } else if x == keep {
      MergeKeptKid(t, root, g, i, l, r, k0, keep, j);
    } else {
      MergeStrangerKid(t, root, g, i, l, r, k0, keep, x, j);
    }
  }

  lemma MergeStrangerKid(t: Tree, root: int, g: int, i: nat, l: int, r: int, k0: Key, keep: int, x: int, j: nat)
    requires Shape(t, root) && CanMerge(t, g, i, l, r, k0, keep)
    requires x in t && x != g && x != l && x != r && t[x].h > 0 && j < |t[x].rids|
    ensures var t' := Merge(t, g, i, l, r, k0, keep);
            x in t' && t'[x] == t[x] && |t[x].keys| == |t[x].rids| && KidOk(t', x, j)
  {
    Neighbours(t, root, g, i);
    MergeKidsOfOther(t, root, g, i, l, r, k0, keep, x, j);
    MergeLook(t, g, i, l, r, k0, keep);
    hide Shape, Merge;
    if t[x].Kid(j) == g {
      assert KidOk(t, x, j);
    }
  }

  lemma MergeLevels(t: Tree, root: int, g: int, i: nat, l: int, r: int, k0: Key, keep: int)
    requires Shape(t, root) && CanMerge(t, g, i, l, r, k0, keep)
    ensures Levels(Merge(t, g, i, l, r, k0, keep))
  {
    var t' := Merge(t, g, i, l, r, k0, keep);
    Neighbours(t, root, g, i);
    forall a, b | a in t' && b in t' && a != b && t'[a].h == t'[b].h ensures Before(t'[a], t'[b]) || Before(t'[b],
      t'[a]) {
      if a == keep || b == keep {
        var o := if a == keep then b else a;
        assert o != l && o != r;
        assert Before(t[o], t[l]) || Before(t[l], t[o]);
        assert Before(t[o], t[r]) || Before(t[r], t[o]);
        IntervalOk(t[o]);
      } else {
        assert Before(t[a], t[b]) || Before(t[b], t[a]);
      }
    }
  }

  lemma IntervalOk(n: TNode)
    requires n.Ok()
    ensures n.lo.At? && n.hi.At? ==> n.lo.key < n.hi.key
  {
    if n.lo.At? { assert n.Live(0); }
  }

  lemma MergeShape(t: Tree, root: int, g: int, i: nat, l: int, r: int, k0: Key, keep: int)
    requires Shape(t, root) && CanMerge(t, g, i, l, r, k0, keep)
    ensures Shape(Merge(t, g, i, l, r, k0, keep), root)
  {
    var t' := Merge(t, g, i, l, r, k0, keep);
    MergeNodes(t, root, g, i, l, r, k0, keep);
    forall x, j | x in t' && t'[x].h > 0 && 0 <= j < |t'[x].rids|
      && |t'[x].keys| == |t'[x].rids| ensures KidOk(t', x, j) {
      MergeKids(t, root, g, i, l, r, k0, keep, x, j);
    }
    MergeLevels(t, root, g, i, l, r, k0, keep);
  }

  // ---------------------------------------------------------------- merge: parents, sizes, leaf order, entries

  lemma MergeParents(t: Tree, root: int, g: int, i: nat, l: int, r: int, k0: Key, keep: int, par: map<int, int>)
    requires Shape(t, root) && CanMerge(t, g, i, l, r, k0, keep) && Parents(t, root, par)
    ensures var drop := if keep == l then r else l;
            Parents(Merge(t, g, i, l, r, k0, keep), root, Adopt(par, MovedKids(t[drop], 0), keep))
  {
    var t' := Merge(t, g, i, l, r, k0, keep);
    var drop := if keep == l then r else l;
    var par' := Adopt(par, MovedKids(t[drop], 0), keep);
    Neighbours(t, root, g, i);
    MergeLook(t, g, i, l, r, k0, keep);
    RootUnnamed(t, root, drop, 0);
    forall x, j | x in t' && t'[x].h > 0 && 0 <= j < |t'[x].rids| ensures t'[x].Kid(j) in par'
      && par'[t'[x].Kid(j)] == x {
      MergeParentsDown(t, root, g, i, l, r, k0, keep, par, x, j);
    }
    forall c | c in t' && c != root ensures c in par' && par'[c] in t' && t'[par'[c]].h > 0 && IsKid(t'[par'[c]], c) {
      MergeParentsUp(t, root, g, i, l, r, k0, keep, par, c);
    }
  }

  lemma MergeParentsDown(t: Tree, root: int, g: int, i: nat, l: int, r: int, k0: Key, keep: int, par: map<int, int>,
          x: int, j: nat)
    requires Shape(t, root) && CanMerge(t, g, i, l, r, k0, keep) && Parents(t, root, par)
    requires var t' := Merge(t, g, i, l, r, k0, keep); x in t' && t'[x].h > 0 && j < |t'[x].rids|
    ensures var t' := Merge(t, g, i, l, r, k0, keep);
            var par' := Adopt(par, MovedKids(t[if keep == l then r else l], 0), keep);
            t'[x].Kid(j) in par' && par'[t'[x].Kid(j)] == x
  {
    hide Merge, Shape, Parents;
    Neighbours(t, root, g, i);
    MergeLook(t, g, i, l, r, k0, keep);
    var drop := if keep == l then r else l;
    var m := |t[l].rids|;
    if x == g {
      var j0 := if j < i then j else if j > i then j + 1 else if keep == l then i else i + 1;
      OnlyMoved(t, root, drop, 0, g, j0);
      ParentKnown(t, root, par, g, j0);
    } else {
      var x0 := if x != keep then x else if j < m then l else r;
      var j0 := if x != keep || j < m then j else j - m;
      OnlyMoved(t, root, drop, 0, x0, j0);
      ParentKnown(t, root, par, x0, j0);
    }
  }

  lemma OneKidHas(n: TNode, i: nat, k0: Key, c: int, j: nat)
    requires i + 1 < |n.keys| && |n.keys| == |n.rids| && j < |n.rids|
    requires j == i || j == i + 1 ==> n.Kid(j) == c
    ensures IsKid(OneKid(n, i, k0, c), n.Kid(j))
  {
    KidAt(OneKid(n, i, k0, c), if j <= i then j else j - 1);
  }

  lemma JoinedHas(l: TNode, r: TNode, left: bool, j: nat)
    requires j < |(if left then l else r).rids|
    ensures IsKid(Joined(l, r), (if left then l else r).Kid(j))
  {
    KidAt(Joined(l, r), if left then j else |l.rids| + j);
  }

  // Where kid j of x (other than the dropped page) is found after the merge.
  lemma MergeKidStays(t: Tree, root: int, g: int, i: nat, l: int, r: int, k0: Key, keep: int, x: int, j: nat)
    requires Shape(t, root) && CanMerge(t, g, i, l, r, k0, keep)
    requires x in t && t[x].h > 0 && j < |t[x].rids|
    requires t[x].Kid(j) != (if keep == l then r else l)
    ensures var t' := Merge(t, g, i, l, r, k0, keep);
            var x' := if x == l || x == r then keep else x;
            x' in t' && t'[x'].h > 0 && IsKid(t'[x'], t[x].Kid(j))
  {
    Neighbours(t, root, g, i);
    MergeLook(t, g, i, l, r, k0, keep);
    var t' := Merge(t, g, i, l, r, k0, keep);
    hide Shape, Merge;
    if x == g {
      OneKidHas(t[g], i, k0, keep, j);
    } else if x == l || x == r {
      JoinedHas(t[l], t[r], x == l, j);
    } else {
      KidAt(t[x], j);
    }
  }

  lemma MergeParentsUp(t: Tree, root: int, g: int, i: nat, l: int, r: int, k0: Key, keep: int, par: map<int, int>,
          c: int)
    requires Shape(t, root) && CanMerge(t, g, i, l, r, k0, keep) && Parents(t, root, par)
    requires c in Merge(t, g, i, l, r, k0, keep) && c != root
    ensures var t' := Merge(t, g, i, l, r, k0, keep);
            var par' := Adopt(par, MovedKids(t[if keep == l then r else l], 0), keep);
            c in par' && par'[c] in t' && t'[par'[c]].h > 0 && IsKid(t'[par'[c]], c)
  {
    Neighbours(t, root, g, i);
    MergeLook(t, g, i, l, r, k0, keep);
    hide Merge;
    var x := par[c];
    var j :| 0 <= j < |t[x].rids| && t[x].Kid(j) == c;
    OnlyMoved(t, root, if keep == l then r else l, 0, x, j);
    MergeKidStays(t, root, g, i, l, r, k0, keep, x, j);
  }

  lemma MergeSized(t: Tree, root: int, g: int, i: nat, l: int, r: int, k0: Key, keep: int, maxSize: nat, exc: int)
    requires Shape(t, root) && CanMerge(t, g, i, l, r, k0, keep)
    requires Sized(t, root, maxSize, exc) && (exc == l || exc == r)
    requires |t[l].keys| + |t[r].keys| < maxSize
    ensures Sized(Merge(t, g, i, l, r, k0, keep), root, maxSize, g)
    ensures |OneKid(t[g], i, k0, keep).keys| == |t[g].keys| - 1 && Fits(t[g], g == root, maxSize)
  {
    Neighbours(t, root, g, i);
    MergeLook(t, g, i, l, r, k0, keep);
    assert Fits(t[g], g == root, maxSize);
    var o := if exc == l then r else l;
    assert Fits(t[o], o == root, maxSize);
    hide Merge, Shape;
  }

  // The right neighbour of a leaf is the next leaf.
  lemma NextLeaf(t: Tree, root: int, g: int, i: nat, leaves: seq<int>, at: nat)
    requires Shape(t, root) && g in t && t[g].h > 0 && i + 1 < |t[g].rids|
    requires t[g].h == 1 && Chain(t, leaves) && at < |leaves| && leaves[at] == t[g].Kid(i)
    ensures at + 1 < |leaves| && leaves[at + 1] == t[g].Kid(i + 1)
  {
    Neighbours(t, root, g, i);
    var l, r := t[g].Kid(i), t[g].Kid(i + 1);
    assert at + 1 < |leaves|;
    var n := leaves[at + 1];
    assert t[l].hi == t[n].lo;
    IntervalOk(t[n]);
    IntervalOk(t[r]);
    OneCover(t, root, n, r, t[r].lo.key);
  }

  lemma MergeChain(t: Tree, root: int, g: int, i: nat, l: int, r: int, k0: Key, keep: int, leaves: seq<int>, at: nat)
    requires Shape(t, root) && CanMerge(t, g, i, l, r, k0, keep) && Chain(t, leaves)
    requires t[l].h == 0 ==> at + 1 < |leaves| && leaves[at] == l && leaves[at + 1] == r
    ensures Chain(Merge(t, g, i, l, r, k0, keep), if t[l].h == 0
      then RemoveAt(leaves, if keep == l then at + 1 else at) else leaves)
  {
    var t' := Merge(t, g, i, l, r, k0, keep);
    Neighbours(t, root, g, i);
    MergeLook(t, g, i, l, r, k0, keep);
    hide Merge, Shape;
    if t[l].h == 0 {
      JoinRoll(t, t', l, r, keep, leaves, at);
      JoinAdjoin(t, t', l, r, keep, leaves, at);
    } else {
      SameChain(t, t', leaves);
    }
  }

  ghost predicate JoinedLeaves(t: Tree, t': Tree, l: int, r: int, keep: int) {
    && l in t && r in t && l != r && (keep == l || keep == r) && t[l].h == 0 && t[r].h == 0
    && keep in t' && t'[keep] == Joined(t[l], t[r])
    && (forall x :: x in t && x != l && x != r && t[x].h == 0 ==> x in t' && t'[x] == t[x])
    && (forall x :: x in t' && t'[x].h == 0 ==> x == keep || (x in t && x != l && x != r && t[x].h == 0))
  }

  lemma JoinRoll(t: Tree, t': Tree, l: int, r: int, keep: int, leaves: seq<int>, at: nat)
    requires Roll(t, leaves) && JoinedLeaves(t, t', l, r, keep)
    requires at + 1 < |leaves| && leaves[at] == l && leaves[at + 1] == r
    ensures Roll(t', RemoveAt(leaves, if keep == l then at + 1 else at))
  {
    var l' := RemoveAt(leaves, if keep == l then at + 1 else at);
    assert l'[at] == keep;
    forall x | x in t' && t'[x].h == 0 ensures x in l' {
      if x != keep {
        var j :| 0 <= j < |leaves| && leaves[j] == x;
        assert l'[if j < at then j else j - 1] == x;
      }
    }
    forall j | 0 <= j < |l'| ensures l'[j] in t' && t'[l'[j]].h == 0 {
      if j != at {
        assert l'[j] == leaves[if j < at then j else j + 1];
      }
    }
  }

  lemma JoinAdjoin(t: Tree, t': Tree, l: int, r: int, keep: int, leaves: seq<int>, at: nat)
    requires Roll(t, leaves) && Adjoin(t, leaves) && JoinedLeaves(t, t', l, r, keep)
    requires at + 1 < |leaves| && leaves[at] == l && leaves[at + 1] == r
    ensures Adjoin(t', RemoveAt(leaves, if keep == l then at + 1 else at))
  {
    var l' := RemoveAt(leaves, if keep == l then at + 1 else at);
    assert l'[at] == keep;
    forall j | 0 <= j < |l'| ensures l'[j] in t' && (j != at ==> t'[l'[j]] == t[leaves[if j < at then j else j + 1]]) {
      if j != at {
        var x := leaves[if j < at then j else j + 1];
        assert l'[j] == x && x != l && x != r;
      }
    }
    forall a, b | 0 <= a && b == a + 1 && b < |l'| ensures t'[l'[a]].hi == t'[l'[b]].lo {
      var a0 := if a < at then a else a + 1;
      assert t[leaves[a0]].hi == t[leaves[a0 + 1]].lo;
    }
  }

  lemma JoinHolds(t: Tree, t': Tree, l: int, r: int, keep: int, contents: map<Key, Rid>)
    requires Holds(t, contents) && JoinedLeaves(t, t', l, r, keep) && t[l].Ok() && t[r].Ok()
    requires forall x :: x in t' && x != keep && t'[x].h == 0 ==> x in t && t'[x] == t[x]
    ensures Holds(t', contents)
  {
    var m := |t[l].keys|;
    forall x, j | x in t' && t'[x].h == 0 && 0 <= j < |t'[x].keys|
      && |t'[x].keys| == |t'[x].rids| ensures EntryOk(t', contents, x, j) {
      assert EntryOk(t, contents, if x != keep then x else if j < m then l else r, if x != keep || j < m then j
        else j - m);
    }
    forall k | k in contents ensures Stores(t', k) {
      assert Stores(t, k);
      var x :| x in t && t[x].h == 0 && k in t[x].keys;
      assert k in t'[if x == l || x == r then keep else x].keys;
    }
  }

  lemma MergeHolds(t: Tree, root: int, g: int, i: nat, l: int, r: int, k0: Key, keep: int, contents: map<Key, Rid>)
    requires Shape(t, root) && CanMerge(t, g, i, l, r, k0, keep) && Holds(t, contents)
    ensures Holds(Merge(t, g, i, l, r, k0, keep), contents)
  {
    var t' := Merge(t, g, i, l, r, k0, keep);
    Neighbours(t, root, g, i);
    MergeLook(t, g, i, l, r, k0, keep);
    hide Merge, Shape;
    if t[l].h == 0 {
      JoinHolds(t, t', l, r, keep, contents);
    } else {
      SameHolds(t, t', contents);
    }
  }

  lemma SameHolds(t: Tree, t': Tree, contents: map<Key, Rid>)
    requires Holds(t, contents)
    requires forall x :: x in t && t[x].h == 0 ==> x in t' && t'[x] == t[x]
    requires forall x :: x in t' && t'[x].h == 0 ==> x in t && t[x] == t'[x]
    ensures Holds(t', contents)
  {
    forall x, j | x in t' && t'[x].h == 0 && 0 <= j < |t'[x].keys|
      && |t'[x].keys| == |t'[x].rids| ensures EntryOk(t', contents, x, j) {
      assert EntryOk(t, contents, x, j);
    }
    forall k | k in contents ensures Stores(t', k) {
      assert Stores(t, k);
      var x :| x in t && t[x].h == 0 && k in t[x].keys;
      assert k in t'[x].keys;
    }
  }
}
