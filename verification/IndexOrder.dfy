/** The entries of an index in leaf-list order: sorted, complete, and addressed by leaf and slot. */
module IndexOrder {
  import opened RecordIds
  import opened IndexTree
  import opened IndexTreeSplit
  import opened IndexTreeMerge
  import opened IndexTreeErase
  import opened IndexPages
  import opened IndexState

  datatype Iid = Iid(pageNo: int, slotNo: int)

  // The keys, and the rids, of the first n leaves.
  ghost function FlatKeys(t: Tree, leaves: seq<int>, n: nat): seq<Key>
    requires n <= |leaves| && forall i :: 0 <= i < n ==> leaves[i] in t
  {
    if n == 0 then [] else FlatKeys(t, leaves, n - 1) + t[leaves[n - 1]].keys
  }

  ghost function FlatRids(t: Tree, leaves: seq<int>, n: nat): seq<Rid>
    requires n <= |leaves| && forall i :: 0 <= i < n ==> leaves[i] in t
  {
    if n == 0 then [] else FlatRids(t, leaves, n - 1) + t[leaves[n - 1]].rids
  }

  predicate Ascending(s: seq<Key>) {
    forall i, j :: 0 <= i < j < |s| ==> s[i] < s[j]
  }

  // The leaves in order, one below the other.
  ghost predicate Row(t: Tree, leaves: seq<int>) {
    && |leaves| > 0
    && (forall i :: 0 <= i < |leaves| ==> leaves[i] in t && t[leaves[i]].h == 0 && t[leaves[i]].Ok())
    && (forall i, j :: 0 <= i && j == i + 1 && j < |leaves| ==>
      t[leaves[i]].hi.At? && t[leaves[i]].hi == t[leaves[j]].lo)
  }

  lemma RowOf(t: Tree, root: int, leaves: seq<int>)
    requires Shape(t, root) && Chain(t, leaves)
    ensures Row(t, leaves)
  {
    forall i, j | 0 <= i && j == i + 1 && j < |leaves| ensures t[leaves[i]].hi.At?
      && t[leaves[i]].hi == t[leaves[j]].lo {
      OpenOnce(t, root, leaves[0], leaves[j]);
    }
  }

  lemma OpenOnce(t: Tree, root: int, x: int, y: int)
    requires Shape(t, root) && x in t && y in t && x != y && t[x].h == t[y].h && t[x].lo == Open
    ensures t[y].lo.At?
  {
    InOrder(t, root, x, y);
  }

  lemma InOrder(t: Tree, root: int, x: int, y: int)
    requires Shape(t, root) && x in t && y in t && x != y && t[x].h == t[y].h
    ensures Before(t[x], t[y]) || Before(t[y], t[x])
  {
  }

  lemma LeafAscending(n: TNode)
    requires n.Ok() && n.h == 0
    ensures Ascending(n.keys) && |n.rids| == |n.keys|
    ensures forall i :: 0 <= i < |n.keys| ==>
      (n.lo.At? ==> n.lo.key <= n.keys[i]) && (n.hi.At? ==> n.keys[i] < n.hi.key)
  {
    forall i | 0 <= i < |n.keys| ensures (n.lo.At? ==> n.lo.key <= n.keys[i]) && (n.hi.At? ==> n.keys[i] < n.hi.key) {
      EntryCovered(n, i);
    }
    assert forall i :: 0 <= i < |n.keys| ==> n.Live(i);
  }

  // The whole list ascends.
  lemma {:induction false} FlatAscending(t: Tree, leaves: seq<int>, n: nat)
    requires Row(t, leaves) && n <= |leaves|
    ensures Ascending(FlatKeys(t, leaves, n)) && |FlatRids(t, leaves, n)| == |FlatKeys(t, leaves, n)|
    ensures n > 0 && t[leaves[n - 1]].hi.At? ==> forall i :: 0 <= i < |FlatKeys(t, leaves, n)| ==>
      FlatKeys(t, leaves, n)[i] < t[leaves[n - 1]].hi.key
  {
    if n > 0 {
      FlatAscending(t, leaves, n - 1);
      var leaf := t[leaves[n - 1]];
      LeafAscending(leaf);
      if n > 1 {
        assert t[leaves[n - 2]].hi == leaf.lo;
        IntervalOk(leaf);
      }
    }
  }

  lemma {:induction false} FlatSplit(t: Tree, leaves: seq<int>, n: nat, m: nat)
    requires n <= m <= |leaves| && forall i :: 0 <= i < |leaves| ==> leaves[i] in t
    ensures FlatKeys(t, leaves, n) <= FlatKeys(t, leaves, m) && FlatRids(t, leaves, n) <= FlatRids(t, leaves, m)
  {
    if n < m {
      FlatSplit(t, leaves, n, m - 1);
    }
  }

  lemma FlatStep(t: Tree, leaves: seq<int>, i: nat)
    requires i < |leaves| && forall k :: 0 <= k < |leaves| ==> leaves[k] in t
    ensures FlatKeys(t, leaves, i + 1) == FlatKeys(t, leaves, i) + t[leaves[i]].keys
  {
  }

  // Entry s of leaf i is entry FlatKeys(i) + s of the list.
  lemma FlatEntry(t: Tree, leaves: seq<int>, i: nat, s: nat)
    requires Row(t, leaves) && i < |leaves| && s < |t[leaves[i]].keys|
    ensures |t[leaves[i]].rids| == |t[leaves[i]].keys|
    ensures var at := |FlatKeys(t, leaves, i)| + s;
            && at < |FlatKeys(t, leaves, |leaves|)| == |FlatRids(t, leaves, |leaves|)|
            && FlatKeys(t, leaves, |leaves|)[at] == t[leaves[i]].keys[s]
            && FlatRids(t, leaves, |leaves|)[at] == t[leaves[i]].rids[s]
  {
    FlatAscending(t, leaves, |leaves|);
    FlatAscending(t, leaves, i);
    FlatSplit(t, leaves, i + 1, |leaves|);
    LeafAscending(t[leaves[i]]);
  }

  lemma {:induction false} FindEntry(t: Tree, leaves: seq<int>, n: nat, at: nat) returns (i: nat, s: nat)
    requires Row(t, leaves) && n <= |leaves| && at < |FlatKeys(t, leaves, n)|
    ensures i < n && s < |t[leaves[i]].keys| && at == |FlatKeys(t, leaves, i)| + s
  {
    if at < |FlatKeys(t, leaves, n - 1)| {
      i, s := FindEntry(t, leaves, n - 1, at);
    } else {
      i, s := n - 1, at - |FlatKeys(t, leaves, n - 1)|;
    }
  }

  // The list as a whole: the entries of the map in ascending order.
  ghost predicate Lists(keys: seq<Key>, rids: seq<Rid>, contents: map<Key, Rid>) {
    && Ascending(keys) && |rids| == |keys|
    && (forall i :: 0 <= i < |keys| ==> keys[i] in contents && contents[keys[i]] == rids[i])
    && (forall k :: k in contents ==> k in keys)
  }

  lemma ListedEntry(t: Tree, leaves: seq<int>, contents: map<Key, Rid>, at: nat)
    requires Row(t, leaves) && at < |FlatKeys(t, leaves, |leaves|)| == |FlatRids(t, leaves, |leaves|)|
    requires Holds(t, contents)
    ensures FlatKeys(t, leaves, |leaves|)[at] in contents && contents[FlatKeys(t, leaves, |leaves|)[at]] == FlatRids(t,
      leaves, |leaves|)[at]
  {
    var i, s := FindEntry(t, leaves, |leaves|, at);
    FlatEntry(t, leaves, i, s);
    assert EntryOk(t, contents, leaves[i], s);
  }

  lemma ListedKey(t: Tree, leaves: seq<int>, k: Key)
    requires Row(t, leaves) && Stores(t, k) && forall p :: p in t && t[p].h == 0 ==> p in leaves
    ensures k in FlatKeys(t, leaves, |leaves|)
  {
    var p :| p in t && t[p].h == 0 && k in t[p].keys;
    var i :| 0 <= i < |leaves| && leaves[i] == p;
    var s :| 0 <= s < |t[p].keys| && t[p].keys[s] == k;
    FlatEntry(t, leaves, i, s);
  }

  lemma FlatLists(t: Tree, root: int, leaves: seq<int>, contents: map<Key, Rid>)
    requires Shape(t, root) && Chain(t, leaves) && Holds(t, contents)
    ensures Row(t, leaves) && Lists(FlatKeys(t, leaves, |leaves|), FlatRids(t, leaves, |leaves|), contents)
  {
    RowOf(t, root, leaves);
    FlatAscending(t, leaves, |leaves|);
    assert forall p :: p in t && t[p].h == 0 ==> p in leaves;
    var keys, rids := FlatKeys(t, leaves, |leaves|), FlatRids(t, leaves, |leaves|);
    hide Shape, Chain, FlatKeys, FlatRids, Row, Stores;
    forall at | 0 <= at < |keys| ensures keys[at] in contents && contents[keys[at]] == rids[at] {
      ListedEntry(t, leaves, contents, at);
    }
    forall k | k in contents ensures k in keys {
      ListedKey(t, leaves, k);
    }
  }

  // ---------------------------------------------------------------- positions

  // The place of the n-th entry: a slot of a leaf, or the end of the last leaf.
  ghost predicate Points(t: Tree, leaves: seq<int>, iid: Iid, n: nat) {
    exists i :: 0 <= i < |leaves| && PointsAt(t, leaves, iid, n, i)
  }

  ghost predicate PointsAt(t: Tree, leaves: seq<int>, iid: Iid, n: nat, i: int) {
    && 0 <= i < |leaves| && (forall j :: 0 <= j < |leaves| ==> leaves[j] in t)
    && iid.pageNo == leaves[i] && 0 <= iid.slotNo && n == |FlatKeys(t, leaves, i)| + iid.slotNo
    && (iid.slotNo < |t[leaves[i]].keys| || (i == |leaves| - 1 && iid.slotNo == |t[leaves[i]].keys|))
  }

  lemma FlatGrows(t: Tree, leaves: seq<int>, i: nat, j: nat)
    requires i < j <= |leaves| && forall k :: 0 <= k < |leaves| ==> leaves[k] in t
    ensures |FlatKeys(t, leaves, i)| + |t[leaves[i]].keys| <= |FlatKeys(t, leaves, j)|
  {
    hide *;
    FlatStep(t, leaves, i);
    FlatSplit(t, leaves, i + 1, j);
  }

  // A place is given by its position, so scans can compare places.
  lemma PointsOnce(t: Tree, leaves: seq<int>, a: Iid, b: Iid, n: nat, m: nat)
    requires Points(t, leaves, a, n) && Points(t, leaves, b, m) && Distinct(leaves)
    ensures a == b <==> n == m
  {
    var i :| 0 <= i < |leaves| && PointsAt(t, leaves, a, n, i);
    var j :| 0 <= j < |leaves| && PointsAt(t, leaves, b, m, j);
    if i < j {
      FlatGrows(t, leaves, i, j);
    } else if j < i {
      FlatGrows(t, leaves, j, i);
    }
  }

  // What a place before the end shows.
  lemma PointsEntry(t: Tree, leaves: seq<int>, iid: Iid, n: nat)
    requires Row(t, leaves) && Points(t, leaves, iid, n)
    ensures iid.pageNo in t && t[iid.pageNo].h == 0 && n <= |FlatKeys(t, leaves, |leaves|)| == |FlatRids(t, leaves,
      |leaves|)|
    ensures n < |FlatKeys(t, leaves, |leaves|)| <==> iid.slotNo < |t[iid.pageNo].keys|
    ensures n < |FlatKeys(t, leaves, |leaves|)| ==>
      0 <= iid.slotNo < |t[iid.pageNo].rids| && FlatRids(t, leaves, |leaves|)[n] == t[iid.pageNo].rids[iid.slotNo]
  {
    var i :| 0 <= i < |leaves| && PointsAt(t, leaves, iid, n, i);
    FlatAscending(t, leaves, |leaves|);
    FlatGrows(t, leaves, i, |leaves|);
    if iid.slotNo < |t[leaves[i]].keys| {
      FlatEntry(t, leaves, i, iid.slotNo);
    } else {
      assert FlatKeys(t, leaves, |leaves|) == FlatKeys(t, leaves, i) + t[leaves[i]].keys;
    }
  }

  // No leaf but a lone root is empty.
  ghost predicate Full(t: Tree, leaves: seq<int>) {
    |leaves| > 1 ==> forall i :: 0 <= i < |leaves| ==> leaves[i] in t && |t[leaves[i]].keys| > 0
  }

  lemma FullOf(t: Tree, root: int, maxSize: nat, leaves: seq<int>, contents: map<Key, Rid>)
    requires Sound(t, root, maxSize, NO_PAGE, leaves, contents)
    ensures Full(t, leaves)
  {
    if |leaves| > 1 {
      forall i | 0 <= i < |leaves| ensures |t[leaves[i]].keys| > 0 {
        var p := leaves[i];
        if p == root {
          var q := leaves[if i == 0 then 1 else 0];
          assert q != root && t[q].h == t[root].h;
          RootAlone(t, root, q);
        }
        assert Fits(t[p], p == root, maxSize) && p != NO_PAGE;
      }
    }
  }

  // The place right behind slot s of leaf i, as the scan and the bound searches compute it.
  lemma PlaceAfter(t: Tree, leaves: seq<int>, i: nat, s: nat)
    requires Row(t, leaves) && Full(t, leaves) && i < |leaves| && s <= |t[leaves[i]].keys|
    ensures var iid := if s == |t[leaves[i]].keys| && i < |leaves| - 1 then Iid(leaves[i + 1], 0)
      else Iid(leaves[i], s);
            Points(t, leaves, iid, |FlatKeys(t, leaves, i)| + s)
  {
    if s == |t[leaves[i]].keys| && i < |leaves| - 1 {
      assert PointsAt(t, leaves, Iid(leaves[i + 1], 0), |FlatKeys(t, leaves, i)| + s, i + 1);
    } else {
      assert PointsAt(t, leaves, Iid(leaves[i], s), |FlatKeys(t, leaves, i)| + s, i);
    }
  }

  // Where k belongs in the list, given its place in the leaf responsible for it.
  ghost predicate Cuts(keys: seq<Key>, n: nat, k: Key, inclusive: bool) {
    && n <= |keys|
    && (forall i :: 0 <= i < n ==> keys[i] < k || (inclusive && keys[i] == k))
    && (forall i :: n <= i < |keys| ==> k < keys[i] || (!inclusive && keys[i] == k))
  }

  lemma CutBefore(t: Tree, leaves: seq<int>, i: nat, k: Key, a: nat)
    requires Row(t, leaves) && i < |leaves| && t[leaves[i]].Covers(k)
    requires a < |FlatKeys(t, leaves, i)|
    ensures FlatKeys(t, leaves, i)[a] < k
  {
    FlatAscending(t, leaves, i);
    assert t[leaves[i - 1]].hi == t[leaves[i]].lo;
  }

  lemma CutBehind(t: Tree, leaves: seq<int>, i: nat, k: Key, a: nat)
    requires Row(t, leaves) && i < |leaves| && t[leaves[i]].Covers(k)
    requires |FlatKeys(t, leaves, i + 1)| <= a < |FlatKeys(t, leaves, |leaves|)|
    ensures k < FlatKeys(t, leaves, |leaves|)[a]
  {
    hide FlatKeys;
    var j, s := FindEntry(t, leaves, |leaves|, a);
    if j <= i {
      FlatGrows(t, leaves, j, i + 1);
      assert false;
    }
    FlatEntry(t, leaves, j, s);
    LaterLeaf(t, leaves, i, j, s, k);
  }

  lemma RowIn(t: Tree, leaves: seq<int>)
    requires Row(t, leaves)
    ensures forall i :: 0 <= i < |leaves| ==> leaves[i] in t
  {
  }

  lemma CutInLeaf(t: Tree, leaves: seq<int>, i: nat, s: nat, k: Key, inclusive: bool)
    requires Row(t, leaves) && i < |leaves| && t[leaves[i]].Covers(k) && Cuts(t[leaves[i]].keys, s, k, inclusive)
    ensures Cuts(FlatKeys(t, leaves, |leaves|), |FlatKeys(t, leaves, i)| + s, k, inclusive)
  {
    hide FlatKeys, Row, TNode.Ok;
    RowIn(t, leaves);
    var keys := FlatKeys(t, leaves, |leaves|);
    FlatStep(t, leaves, i);
    FlatSplit(t, leaves, i, |leaves|);
    FlatSplit(t, leaves, i + 1, |leaves|);
    var base, size := |FlatKeys(t, leaves, i)|, |t[leaves[i]].keys|;
    forall a | 0 <= a < base ensures keys[a] < k {
      CutBefore(t, leaves, i, k, a);
      assert keys[a] == FlatKeys(t, leaves, i)[a];
    }
    forall a | base <= a < base + size ensures keys[a] == t[leaves[i]].keys[a - base] {
      assert keys[a] == FlatKeys(t, leaves, i + 1)[a];
    }
    forall a | base + size <= a < |keys| ensures k < keys[a] {
      CutBehind(t, leaves, i, k, a);
    }
  }

  lemma {:induction false} LaterLeaf(t: Tree, leaves: seq<int>, i: nat, j: nat, s: nat, k: Key)
    requires Row(t, leaves) && i < j < |leaves| && t[leaves[i]].Covers(k) && s < |t[leaves[j]].keys|
    ensures k < t[leaves[j]].keys[s]
  {
    LeafAscending(t[leaves[j]]);
    StartsAfter(t, leaves, i, j, k);
  }

  lemma {:induction false} StartsAfter(t: Tree, leaves: seq<int>, i: nat, j: nat, k: Key)
    requires Row(t, leaves) && i < j < |leaves| && t[leaves[i]].Covers(k)
    ensures t[leaves[j]].lo.At? && k < t[leaves[j]].lo.key
    decreases j
  {
    assert t[leaves[j - 1]].hi == t[leaves[j]].lo;
    if i < j - 1 {
      StartsAfter(t, leaves, i, j - 1, k);
      IntervalOk(t[leaves[j - 1]]);
    }
  }

  // ---------------------------------------------------------------- separators

  // A trusted separator is the least key below the kid it names.
  lemma SeparatorIsLeast(t: Tree, root: int, contents: map<Key, Rid>, p: int, i: nat)
    requires Shape(t, root) && Holds(t, contents) && p in t && t[p].h > 0 && t[p].Live(i)
    ensures i < |t[p].rids| && t[p].keys[i] in contents
    ensures var c := t[p].Kid(i);
            && c in t && t[c].Covers(t[p].keys[i])
            && forall k :: k in contents && t[c].Covers(k) ==> t[p].keys[i] <= k
  {
    assert t[p].Ok();
    KidLiveKey(t, root, p, i);
    var c := t[p].Kid(i);
    var y := StartBelow(t, root, c, t[p].keys[i], 0);
    assert t[y].Ok();
    assert EntryOk(t, contents, y, 0);
    IntervalOk(t[c]);
  }

  // ---------------------------------------------------------------- the whole index

  ghost function Keys(t: Tree, leaves: seq<int>): seq<Key> {
    if forall i :: 0 <= i < |leaves| ==> leaves[i] in t then FlatKeys(t, leaves, |leaves|) else []
  }

  ghost function Rids(t: Tree, leaves: seq<int>): seq<Rid> {
    if forall i :: 0 <= i < |leaves| ==> leaves[i] in t then FlatRids(t, leaves, |leaves|) else []
  }

  lemma WholeRow(pages: Pages, t: Tree, root: int, numPages: int, nextPageNo: int, maxSize: nat, leaves: seq<int>,
          contents: map<Key, Rid>)
    requires Whole(pages, t, root, numPages, nextPageNo, maxSize, NO_PAGE, leaves, contents)
    ensures Row(t, leaves) && Full(t, leaves) && Distinct(leaves) && Lists(Keys(t, leaves), Rids(t, leaves), contents)
    ensures forall i :: 0 <= i < |leaves| ==>
      leaves[i] in t && leaves[i] in pages && pages[leaves[i]].nextLeaf == NextOf(leaves, i)
    ensures forall i :: 0 <= i < |leaves| ==>
      pages[leaves[i]].keys == t[leaves[i]].keys && pages[leaves[i]].rids == t[leaves[i]].rids
  {
    hide Counted;
    assert Sound(t, root, maxSize, NO_PAGE, leaves, contents) && Laid(pages, t, root, leaves);
    hide Shape, Sized, Holds, Chain, Laid;
    FlatLists(t, root, leaves, contents);
    FullOf(t, root, maxSize, leaves, contents);
    LeavesPaged(pages, t, root, leaves);
    RowIn(t, leaves);
  }

  lemma LeavesPaged(pages: Pages, t: Tree, root: int, leaves: seq<int>)
    requires Shape(t, root) && Chain(t, leaves) && Laid(pages, t, root, leaves)
    ensures Distinct(leaves)
    ensures forall i :: 0 <= i < |leaves| ==>
      leaves[i] in t && leaves[i] in pages && pages[leaves[i]].nextLeaf == NextOf(leaves, i)
    ensures forall i :: 0 <= i < |leaves| ==>
      pages[leaves[i]].keys == t[leaves[i]].keys && pages[leaves[i]].rids == t[leaves[i]].rids
  {
    ChainDistinct(t, root, leaves);
    forall i | 0 <= i < |leaves|
      ensures leaves[i] in t && leaves[i] in pages && pages[leaves[i]].nextLeaf == NextOf(leaves, i)
      ensures pages[leaves[i]].keys == t[leaves[i]].keys && pages[leaves[i]].rids == t[leaves[i]].rids
    {
      NextOfLeaf(t, root, pages, leaves, i);
    }
  }

  // The place that a bound search makes of slot s of leaf p.
  function PlaceOf(pages: Pages, last: int, p: int, s: nat): Iid
    requires p in pages
  {
    if s >= |pages[p].keys| then (if p == last then Iid(p, s) else Iid(pages[p].nextLeaf, 0)) else Iid(p, s)
  }

  lemma BoundPlace(pages: Pages, t: Tree, root: int, numPages: int, nextPageNo: int, maxSize: nat, leaves: seq<int>,
          contents: map<Key, Rid>,
                   last: int, p: int, s: nat, k: Key, inclusive: bool) returns (n: nat)
    requires Whole(pages, t, root, numPages, nextPageNo, maxSize, NO_PAGE, leaves, contents)
    requires |leaves| > 0 && last == leaves[|leaves| - 1] && p in leaves && p in t && t[p].Covers(k)
      && Cuts(t[p].keys, s, k, inclusive)
    ensures p in pages
    ensures Points(t, leaves, PlaceOf(pages, last, p, s), n) && Cuts(Keys(t, leaves), n, k, inclusive)
  {
    hide *;
    WholeRow(pages, t, root, numPages, nextPageNo, maxSize, leaves, contents);
    var i :| 0 <= i < |leaves| && leaves[i] == p;
    CutInLeaf(t, leaves, i, s, k, inclusive);
    CutSize(t[p].keys, s, k, inclusive);
    LeafPlace(pages, t, leaves, last, i, s);
    n := |FlatKeys(t, leaves, i)| + s;
    KeysAre(t, leaves);
  }

  lemma CutSize(keys: seq<Key>, n: nat, k: Key, inclusive: bool)
    requires Cuts(keys, n, k, inclusive)
    ensures n <= |keys|
  {
  }

  lemma KeysAre(t: Tree, leaves: seq<int>)
    requires forall i :: 0 <= i < |leaves| ==> leaves[i] in t
    ensures Keys(t, leaves) == FlatKeys(t, leaves, |leaves|) && Rids(t, leaves) == FlatRids(t, leaves, |leaves|)
  {
  }

  lemma LastOnly(leaves: seq<int>, i: nat)
    requires Distinct(leaves) && i < |leaves|
    ensures leaves[i] == leaves[|leaves| - 1] <==> i == |leaves| - 1
    ensures i < |leaves| - 1 ==> NextOf(leaves, i) == leaves[i + 1]
  {
  }

  lemma {:induction false} LeafPlace(pages: Pages, t: Tree, leaves: seq<int>, last: int, i: nat, s: nat)
    requires i < |leaves| && last == leaves[|leaves| - 1] && leaves[i] in t && leaves[i] in pages
    requires pages[leaves[i]].keys == t[leaves[i]].keys && pages[leaves[i]].nextLeaf == NextOf(leaves, i)
    requires s <= |t[leaves[i]].keys| && Distinct(leaves) && Full(t, leaves) && Row(t, leaves)
    ensures forall j :: 0 <= j < |leaves| ==> leaves[j] in t
    ensures Points(t, leaves, PlaceOf(pages, last, leaves[i], s), |FlatKeys(t, leaves, i)| + s)
  {
    hide Distinct, Full, Row, Points, FlatKeys, NextOf;
    RowIn(t, leaves);
    LastOnly(leaves, i);
    PlaceAfter(t, leaves, i, s);
  }

  lemma NextPlace(pages: Pages, t: Tree, root: int, numPages: int, nextPageNo: int, maxSize: nat, leaves: seq<int>,
          contents: map<Key, Rid>,
                  last: int, iid: Iid, n: nat)
    requires Whole(pages, t, root, numPages, nextPageNo, maxSize, NO_PAGE, leaves, contents)
    requires |leaves| > 0 && last == leaves[|leaves| - 1]
    requires Points(t, leaves, iid, n) && n < |Keys(t, leaves)|
    ensures iid.pageNo in pages && 0 <= iid.slotNo < |pages[iid.pageNo].keys|
    ensures var p := iid.pageNo;
            var s := iid.slotNo + 1;
            Points(t, leaves, if p != last && s == |pages[p].keys| then Iid(pages[p].nextLeaf, 0) else Iid(p, s), n + 1)
  {
    hide *;
    WholeRow(pages, t, root, numPages, nextPageNo, maxSize, leaves, contents);
    KeysAre(t, leaves);
    PointsEntry(t, leaves, iid, n);
    var i := PointedLeaf(t, leaves, iid, n);
    LastOnly(leaves, i);
    PlaceAfter(t, leaves, i, iid.slotNo + 1);
  }

  lemma PointedLeaf(t: Tree, leaves: seq<int>, iid: Iid, n: nat) returns (i: nat)
    requires Points(t, leaves, iid, n)
    ensures i < |leaves| && leaves[i] == iid.pageNo && 0 <= iid.slotNo
      && forall j :: 0 <= j < |leaves| ==> leaves[j] in t
    ensures n == |FlatKeys(t, leaves, i)| + iid.slotNo
  {
    i :| 0 <= i < |leaves| && PointsAt(t, leaves, iid, n, i);
  }

  // What a place of the list shows, on the pages.
  lemma PlaceRead(pages: Pages, t: Tree, root: int, numPages: int, nextPageNo: int, maxSize: nat, leaves: seq<int>,
          contents: map<Key, Rid>, iid: Iid, n: nat)
    requires Whole(pages, t, root, numPages, nextPageNo, maxSize, NO_PAGE, leaves, contents)
      && Points(t, leaves, iid, n)
    ensures iid.pageNo in pages && 0 <= iid.slotNo && |pages[iid.pageNo].keys| == |pages[iid.pageNo].rids|
    ensures n <= |Keys(t, leaves)| == |Rids(t, leaves)| && (n < |Keys(t,
      leaves)| <==> iid.slotNo < |pages[iid.pageNo].keys|)
    ensures n < |Keys(t, leaves)| ==> pages[iid.pageNo].rids[iid.slotNo] == Rids(t, leaves)[n]
  {
    WholeRow(pages, t, root, numPages, nextPageNo, maxSize, leaves, contents);
    hide Whole, Lists, Full;
    PointsEntry(t, leaves, iid, n);
    var i :| 0 <= i < |leaves| && PointsAt(t, leaves, iid, n, i);
    assert t[leaves[i]].Ok();
  }
}
