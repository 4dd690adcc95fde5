/**
 Redistribution between two neighbouring kids, as a merge followed by a split at
 another place.
 */
module IndexTreeBalance {
  import opened RecordIds
  import opened IndexTree
  import opened IndexTreeSplit
  import opened IndexTreeMerge

  // Kids l and r (entries i and i + 1 of g) share their entries out anew: l gets the first m.
  function Rebalance(t: Tree, g: int, i: nat, l: int, r: int, m: nat): Tree
    requires l in t && r in t && g in t && i + 1 < |t[g].keys|
    requires |t[l].keys| == |t[l].rids| && |t[r].keys| == |t[r].rids| && m < |t[l].keys| + |t[r].keys|
  {
    var n := Joined(t[l], t[r]);
    t[l := LeftHalf(n, m)][r := RightHalf(n, m)][g := t[g].(keys := t[g].keys[i + 1 := n.keys[m]])]
  }

  ghost predicate CanBalance(t: Tree, root: int, g: int, i: nat, l: int, r: int, m: nat) {
    && g in t && t[g].h > 0 && i + 1 < |t[g].rids| && |t[g].keys| == |t[g].rids|
    && CanMerge(t, g, i, l, r, t[g].keys[i], l) && t[l].Ok() && t[r].Ok()
    && 1 <= m < |t[l].keys| + |t[r].keys|
  }

  lemma RebalanceParent(t: Tree, root: int, g: int, i: nat, l: int, r: int, m: nat)
    requires Shape(t, root) && CanBalance(t, root, g, i, l, r, m)
    ensures var n := Joined(t[l], t[r]);
            WithKid(OneKid(t[g], i, t[g].keys[i], l), i + 1, n.keys[m],
              r) == t[g].(keys := t[g].keys[i + 1 := n.keys[m]])
  {
    hide Shape;
    var n := Joined(t[l], t[r]);
    Neighbours(t, root, g, i);
    var g2 := WithKid(OneKid(t[g], i, t[g].keys[i], l), i + 1, n.keys[m], r);
    assert g2.keys == t[g].keys[i + 1 := n.keys[m]];
    assert t[g].rids[i] == Rid(l, -1) && t[g].rids[i + 1] == Rid(r, -1);
    assert g2.rids == t[g].rids;
  }

  lemma RebalanceIsMergeSplit(t: Tree, root: int, g: int, i: nat, l: int, r: int, m: nat)
    requires Shape(t, root) && CanBalance(t, root, g, i, l, r, m)
    ensures var t1 := Merge(t, g, i, l, r, t[g].keys[i], l);
            && CanSplit(t1, root, g, i, l, r, m) && |t1[g].keys| == |t1[g].rids|
            && |t1[l].keys| == |t1[l].rids| && t1[l] == Joined(t[l], t[r])
            && SplitUnder(t1, g, i, l, r, m) == Rebalance(t, g, i, l, r, m)
  {
    assert r >= 2;
    hide Shape, WithKid, TNode.Ok;
    Neighbours(t, root, g, i);
    RebalanceParent(t, root, g, i, l, r, m);
    var t1 := Merge(t, g, i, l, r, t[g].keys[i], l);
    var n := Joined(t[l], t[r]);
    assert r !in t1;
    assert t1[l] == n;
    assert t1[g] == OneKid(t[g], i, t[g].keys[i], l);
    assert SplitUnder(t1, g, i, l, r, m) == Rebalance(t, g, i, l, r, m);
  }

  lemma RebalanceShape(t: Tree, root: int, g: int, i: nat, l: int, r: int, m: nat)
    requires Shape(t, root) && CanBalance(t, root, g, i, l, r, m)
    ensures Shape(Rebalance(t, g, i, l, r, m), root)
  {
    RebalanceIsMergeSplit(t, root, g, i, l, r, m);
    MergeShape(t, root, g, i, l, r, t[g].keys[i], l);
    hide Merge, Rebalance, SplitUnder, Shape;
    SplitShape(Merge(t, g, i, l, r, t[g].keys[i], l), root, g, i, l, r, m);
  }

  lemma RebalanceHolds(t: Tree, root: int, g: int, i: nat, l: int, r: int, m: nat, contents: map<Key, Rid>)
    requires Shape(t, root) && CanBalance(t, root, g, i, l, r, m) && Holds(t, contents)
    ensures Holds(Rebalance(t, g, i, l, r, m), contents)
  {
    RebalanceIsMergeSplit(t, root, g, i, l, r, m);
    MergeShape(t, root, g, i, l, r, t[g].keys[i], l);
    MergeHolds(t, root, g, i, l, r, t[g].keys[i], l, contents);
    hide Merge, Rebalance, SplitUnder, Shape, Holds;
    var t1 := Merge(t, g, i, l, r, t[g].keys[i], l);
    SplitShape(t1, root, g, i, l, r, m);
    SplitHolds(t1, root, g, i, l, r, m, contents);
  }

  lemma OutAndIn(s: seq<int>, i: nat)
    requires i < |s|
    ensures InsertAt(RemoveAt(s, i), i, s[i]) == s
    ensures forall j :: 0 <= j < i ==> RemoveAt(s, i)[j] == s[j]
  {
    assert s == s[..i] + ([s[i]] + s[i + 1..]);
  }

  lemma BalanceParts(t: Tree, root: int, g: int, i: nat, l: int, r: int, m: nat)
    requires CanBalance(t, root, g, i, l, r, m)
    ensures CanMerge(t, g, i, l, r, t[g].keys[i], l) && |t[l].keys| == |t[l].rids| && |t[r].keys| == |t[r].rids|
  {
  }

  lemma RebalanceChainVia(t: Tree, root: int, g: int, i: nat, l: int, r: int, m: nat, leaves: seq<int>,
          leaves1: seq<int>, at: nat)
    requires CanBalance(t, root, g, i, l, r, m)
    requires if t[l].h == 0 then at < |leaves1| && leaves1[at] == l
      && InsertAt(leaves1, at + 1, r) == leaves else leaves1 == leaves
    requires Chain(Merge(t, g, i, l, r, t[g].keys[i], l), leaves1)
    requires Shape(t, root)
    ensures Chain(Rebalance(t, g, i, l, r, m), leaves)
  {
    hide Shape, Chain, Merge, Rebalance, InsertAt, CanMerge, TNode.Ok;
    assert CanMerge(t, g, i, l, r, t[g].keys[i], l) && l in t && r in t && |t[l].keys| == |t[l].rids| by {
      BalanceParts(t, root, g, i, l, r, m);
    }
    hide *;
    var t1 := Merge(t, g, i, l, r, t[g].keys[i], l);
    RebalanceIsMergeSplit(t, root, g, i, l, r, m);
    MergeShape(t, root, g, i, l, r, t[g].keys[i], l);
    SplitShape(t1, root, g, i, l, r, m);
    JoinedHeight(t[l], t[r]);
    SplitChain(t1, root, g, i, l, r, m, leaves1, at);
  }

  lemma RebalanceChain(t: Tree, root: int, g: int, i: nat, l: int, r: int, m: nat, leaves: seq<int>, at: nat)
    requires Shape(t, root) && CanBalance(t, root, g, i, l, r, m) && Chain(t, leaves)
    requires t[l].h == 0 ==> at < |leaves| && leaves[at] == l
    ensures Chain(Rebalance(t, g, i, l, r, m), leaves)
  {
    Neighbours(t, root, g, i);
    if t[l].h == 0 {
      NextLeaf(t, root, g, i, leaves, at);
    }
    hide *;
    RebalanceIsMergeSplit(t, root, g, i, l, r, m);
    MergeChain(t, root, g, i, l, r, t[g].keys[i], l, leaves, at);
    if t[l].h == 0 {
      OutAndIn(leaves, at + 1);
      var leaves1 := RemoveAt(leaves, at + 1);
      RebalanceChainVia(t, root, g, i, l, r, m, leaves, leaves1, at);
    } else {
      RebalanceChainVia(t, root, g, i, l, r, m, leaves, leaves, at);
    }
  }

  lemma JoinedHeight(l: TNode, r: TNode)
    ensures Joined(l, r).h == l.h
  {
  }

  lemma RebalanceSized(t: Tree, root: int, g: int, i: nat, l: int, r: int, m: nat, maxSize: nat, exc: int)
    requires Shape(t, root) && CanBalance(t, root, g, i, l, r, m)
    requires Sized(t, root, maxSize, exc) && (exc == l || exc == r)
    requires maxSize / 2 <= m < maxSize && maxSize / 2 <= |t[l].keys| + |t[r].keys| - m < maxSize && maxSize >= 4
    ensures Sized(Rebalance(t, g, i, l, r, m), root, maxSize, -1)
  {
    Neighbours(t, root, g, i);
    hide Shape;
    var t' := Rebalance(t, g, i, l, r, m);
    forall x | x in t' ensures Fits(t'[x], x == root, maxSize) {
      if x != l && x != r {
        assert Fits(t[x], x == root, maxSize);
      }
    }
  }

  // The one kid that changes hands.
  function MovedKid(l: TNode, r: TNode, toLeft: bool): int
    requires |l.rids| > 0 && |r.rids| > 0
  {
    if toLeft then r.Kid(0) else l.Kid(|l.rids| - 1)
  }

  function NewBorder(l: TNode, toLeft: bool): nat
    requires |l.keys| > 0
  {
    if toLeft then |l.keys| + 1 else |l.keys| - 1
  }

  // Entry j of l or r, in the joined sequence of their kids, has the right parent afterwards.
  lemma RebalanceKidParent(t: Tree, root: int, g: int, i: nat, l: int, r: int, toLeft: bool, par: map<int, int>, j: nat)
    requires Shape(t, root) && Parents(t, root, par) && g in t && l in t && |t[l].keys| > 0
    requires CanBalance(t, root, g, i, l, r, NewBorder(t[l], toLeft)) && t[l].h > 0 && t[r].h > 0
    requires |t[l].rids| == |t[l].keys| && |t[r].rids| == |t[r].keys| > 0 && l != r
    requires j < |t[l].rids| + |t[r].rids|
    ensures var par' := par[MovedKid(t[l], t[r], toLeft) := if toLeft then l else r];
            var c := Joined(t[l], t[r]).Kid(j);
            c in par' && par'[c] == if j < NewBorder(t[l], toLeft) then l else r
  {
    hide Shape, Parents;
    var h := |t[l].rids|;
    var x, o := if j < h then l else r, if j < h then j else j - h;
    ParentKnown(t, root, par, x, o);
    if toLeft {
      ParentKnown(t, root, par, r, 0);
      if x == r && o > 0 { SiblingsDiffer(t, root, r, 0, o); }
    } else {
      ParentKnown(t, root, par, l, h - 1);
      if x == l && o < h - 1 { SiblingsDiffer(t, root, l, h - 1, o); }
    }
  }

  lemma RebalanceRoot(t: Tree, root: int, g: int, i: nat, l: int, r: int, toLeft: bool, par: map<int, int>)
    requires Shape(t, root) && Parents(t, root, par) && g in t && l in t && |t[l].keys| > 0
    requires CanBalance(t, root, g, i, l, r, NewBorder(t[l], toLeft)) && |t[r].rids| > 0 && |t[l].rids| > 0
    ensures var t' := Rebalance(t, g, i, l, r, NewBorder(t[l], toLeft));
            var par' := if t[l].h == 0 then par else par[MovedKid(t[l], t[r], toLeft) := if toLeft then l else r];
            root in par' && par'[root] == -1 && t'.Keys == t.Keys
  {
    Neighbours(t, root, g, i);
    if t[l].h > 0 {
      KidBelowRoot(t, root, if toLeft then r else l, if toLeft then 0 else |t[l].rids| - 1);
    }
  }

  lemma RebalanceParents(t: Tree, root: int, g: int, i: nat, l: int, r: int, toLeft: bool, par: map<int, int>)
    requires Shape(t, root) && Parents(t, root, par) && g in t && l in t && |t[l].keys| > 0
    requires CanBalance(t, root, g, i, l, r, NewBorder(t[l], toLeft)) && |t[r].rids| > 0
    ensures |t[l].rids| > 0
    ensures var par' := if t[l].h == 0 then par else par[MovedKid(t[l], t[r], toLeft) := if toLeft then l else r];
            Parents(Rebalance(t, g, i, l, r, NewBorder(t[l], toLeft)), root, par')
  {
    var t' := Rebalance(t, g, i, l, r, NewBorder(t[l], toLeft));
    var par' := if t[l].h == 0 then par else par[MovedKid(t[l], t[r], toLeft) := if toLeft then l else r];
    RebalanceRoot(t, root, g, i, l, r, toLeft, par);
    hide Rebalance, Shape, CanBalance, TNode.Ok, MovedKid, NewBorder, Parents;
    forall x, j | x in t' && t'[x].h > 0 && 0 <= j < |t'[x].rids| ensures t'[x].Kid(j) in par'
      && par'[t'[x].Kid(j)] == x {
      RebalanceDown(t, root, g, i, l, r, toLeft, par, x, j);
    }
    hide IsKid;
    forall c | c in t' && c != root ensures c in par' && par'[c] in t' && t'[par'[c]].h > 0 && IsKid(t'[par'[c]], c) {
      RebalanceUp(t, root, g, i, l, r, toLeft, par, c);
    }
    ParentsAre(t', root, par');
  }

  lemma RebalanceDown(t: Tree, root: int, g: int, i: nat, l: int, r: int, toLeft: bool, par: map<int, int>, x: int,
          j: nat)
    requires Shape(t, root) && Parents(t, root, par) && g in t && l in t && |t[l].keys| > 0
    requires CanBalance(t, root, g, i, l, r, NewBorder(t[l], toLeft)) && |t[r].rids| > 0 && |t[l].rids| > 0
    requires var t' := Rebalance(t, g, i, l, r, NewBorder(t[l], toLeft)); x in t' && t'[x].h > 0 && j < |t'[x].rids|
    ensures var t' := Rebalance(t, g, i, l, r, NewBorder(t[l], toLeft));
            var par' := if t[l].h == 0 then par else par[MovedKid(t[l], t[r], toLeft) := if toLeft then l else r];
            t'[x].Kid(j) in par' && par'[t'[x].Kid(j)] == x
  {
    hide Shape, Parents;
    Neighbours(t, root, g, i);
    var m := NewBorder(t[l], toLeft);
    var t' := Rebalance(t, g, i, l, r, m);
    if x == l || x == r {
      RebalanceKidParent(t, root, g, i, l, r, toLeft, par, if x == l then j else m + j);
    } else {
      assert t'[x].rids == t[x].rids;
      ParentKnown(t, root, par, x, j);
      if t[l].h > 0 {
        var from := if toLeft then r else l;
        ParentKnown(t, root, par, from, if toLeft then 0 else |t[l].rids| - 1);
      }
    }
  }

  lemma RebalanceLook(t: Tree, g: int, i: nat, l: int, r: int, m: nat)
    requires l in t && r in t && g in t && i + 1 < |t[g].keys| && l != g && r != g && l != r
    requires |t[l].keys| == |t[l].rids| && |t[r].keys| == |t[r].rids| && m < |t[l].keys| + |t[r].keys|
    ensures var t' := Rebalance(t, g, i, l, r, m);
            var n := Joined(t[l], t[r]);
            && t'.Keys == t.Keys && t'[l] == LeftHalf(n, m) && t'[r] == RightHalf(n, m)
            && t'[g].rids == t[g].rids && t'[g].h == t[g].h
            && forall x :: x in t && x != l && x != r && x != g ==> t'[x] == t[x]
  {
  }

  lemma RebalanceUp(t: Tree, root: int, g: int, i: nat, l: int, r: int, toLeft: bool, par: map<int, int>, c: int)
    requires Shape(t, root) && Parents(t, root, par) && g in t && l in t && |t[l].keys| > 0
    requires CanBalance(t, root, g, i, l, r, NewBorder(t[l], toLeft)) && |t[r].rids| > 0 && |t[l].rids| > 0
    requires c in t && c != root
    ensures var t' := Rebalance(t, g, i, l, r, NewBorder(t[l], toLeft));
            var par' := if t[l].h == 0 then par else par[MovedKid(t[l], t[r], toLeft) := if toLeft then l else r];
            c in par' && par'[c] in t' && t'[par'[c]].h > 0 && IsKid(t'[par'[c]], c)
  {
    Neighbours(t, root, g, i);
    var x := par[c];
    var j :| 0 <= j < |t[x].rids| && t[x].Kid(j) == c;
    RebalanceKidStays(t, g, i, l, r, NewBorder(t[l], toLeft), x, j);
    hide Rebalance, IsKid;
    if x == l || x == r {
      RebalanceKidParent(t, root, g, i, l, r, toLeft, par, if x == l then j else |t[l].rids| + j);
    } else if t[l].h > 0 {
      ParentKnown(t, root, par, if toLeft then r else l, if toLeft then 0 else |t[l].rids| - 1);
    }
  }

  // Where kid j of x is found after the redistribution.
  lemma RebalanceKidStays(t: Tree, g: int, i: nat, l: int, r: int, m: nat, x: int, j: nat)
    requires l in t && r in t && g in t && i + 1 < |t[g].keys| && l != g && r != g && l != r && t[l].h == t[r].h
    requires |t[l].keys| == |t[l].rids| && |t[r].keys| == |t[r].rids| && m < |t[l].keys| + |t[r].keys|
    requires x in t && t[x].h > 0 && j < |t[x].rids|
    ensures var t' := Rebalance(t, g, i, l, r, m);
            var o := if x == r then |t[l].rids| + j else j;
            var x' := if x != l && x != r then x else if o < m then l else r;
            && x' in t' && t'[x'].h > 0 && IsKid(t'[x'], t[x].Kid(j)) && t'.Keys == t.Keys
            && (x == l || x == r ==> o < |Joined(t[l], t[r]).rids| && Joined(t[l], t[r]).Kid(o) == t[x].Kid(j))
  {
    RebalanceLook(t, g, i, l, r, m);
    var t' := Rebalance(t, g, i, l, r, m);
    hide Rebalance;
    if x == l || x == r {
      var o := if x == r then |t[l].rids| + j else j;
      KidAt(t'[if o < m then l else r], if o < m then o else o - m);
    } else {
      KidAt(t'[x], j);
    }
  }
}
