/** How the pages of an index file present a logical tree: page contents, parent pointers, leaf list. */
module IndexPages {
  import opened RecordIds
  import opened IndexTree
  import opened IndexTreeSplit
  import opened IndexTreeMerge
  import opened IndexNode

  // The page that heads the circular list of leaves.
  const LEAF_HEADER_PAGE := 1

  type Pages = map<int, Node>

  ghost predicate Stored(pages: Pages, t: Tree) {
    forall p :: p in t ==>
      && p in pages && pages[p].isLeaf == (t[p].h == 0)
      && pages[p].keys == t[p].keys && pages[p].rids == t[p].rids
  }

  ghost function ParentMap(pages: Pages): map<int, int> {
    map p | p in pages :: pages[p].parent
  }

  ghost function NextMap(pages: Pages): map<int, int> {
    map p | p in pages :: pages[p].nextLeaf
  }

  ghost function PrevMap(pages: Pages): map<int, int> {
    map p | p in pages :: pages[p].prevLeaf
  }

  function NextOf(leaves: seq<int>, i: nat): int
    requires i < |leaves|
  {
    if i + 1 < |leaves| then leaves[i + 1] else LEAF_HEADER_PAGE
  }

  function PrevOf(leaves: seq<int>, i: nat): int
    requires i < |leaves|
  {
    if i > 0 then leaves[i - 1] else LEAF_HEADER_PAGE
  }

  ghost predicate LinkedForth(next: map<int, int>, leaves: seq<int>) {
    && |leaves| > 0 && LEAF_HEADER_PAGE in next && next[LEAF_HEADER_PAGE] == leaves[0]
    && (forall i :: 0 <= i < |leaves| ==> leaves[i] in next && next[leaves[i]] == NextOf(leaves, i))
  }

  ghost predicate LinkedBack(prev: map<int, int>, leaves: seq<int>) {
    && |leaves| > 0 && LEAF_HEADER_PAGE in prev && prev[LEAF_HEADER_PAGE] == leaves[|leaves| - 1]
    && (forall i :: 0 <= i < |leaves| ==> leaves[i] in prev && prev[leaves[i]] == PrevOf(leaves, i))
  }

  // The leaves form a ring through the header page, in both directions.
  ghost predicate Linked(next: map<int, int>, prev: map<int, int>, leaves: seq<int>) {
    LinkedForth(next, leaves) && LinkedBack(prev, leaves)
  }

  ghost predicate Distinct(leaves: seq<int>) {
    && (forall i, j :: 0 <= i < j < |leaves| ==> leaves[i] != leaves[j])
    && (forall i :: 0 <= i < |leaves| ==> leaves[i] != LEAF_HEADER_PAGE)
  }

  lemma ChainDistinct(t: Tree, root: int, leaves: seq<int>)
    requires Nodes(t, root) && Chain(t, leaves)
    ensures Distinct(leaves)
  {
  }

  lemma LinkInForth(next: map<int, int>, leaves: seq<int>, at: nat, q: int)
    requires LinkedForth(next, leaves) && Distinct(leaves) && at < |leaves|
    requires q !in leaves && q != LEAF_HEADER_PAGE
    ensures LinkedForth(next[q := next[leaves[at]]][leaves[at] := q], InsertAt(leaves, at + 1, q))
  {
    var l' := InsertAt(leaves, at + 1, q);
    var next' := next[q := next[leaves[at]]][leaves[at] := q];
    assert next[leaves[at]] == NextOf(leaves, at);
    forall i | 0 <= i < |l'| ensures l'[i] in next' && next'[l'[i]] == NextOf(l', i) {
      if i != at + 1 {
        var i0 := if i <= at then i else i - 1;
        assert l'[i] == leaves[i0] && next[leaves[i0]] == NextOf(leaves, i0);
        assert i0 != at ==> leaves[i0] != leaves[at];
      }
    }
  }

  lemma LinkInBackAt(prev: map<int, int>, leaves: seq<int>, at: nat, n: int, q: int, i: nat)
    requires LinkedBack(prev, leaves) && Distinct(leaves) && at < |leaves| && n == NextOf(leaves, at) && i <= |leaves|
    requires q !in leaves && q != LEAF_HEADER_PAGE
    ensures var l', prev' := InsertAt(leaves, at + 1, q), prev[q := leaves[at]][n := q];
      l'[i] in prev' && prev'[l'[i]] == PrevOf(l', i)
  {
    var l' := InsertAt(leaves, at + 1, q);
    assert l'[at] == leaves[at] && n != q;
    if i <= at {
      assert l'[i] == leaves[i] && leaves[i] != n && prev[leaves[i]] == PrevOf(leaves, i);
    } else if i > at + 1 {
      assert l'[i] == leaves[i - 1] && prev[leaves[i - 1]] == leaves[i - 2];
      assert i > at + 2 ==> leaves[i - 1] != n && l'[i - 1] == leaves[i - 2];
    }
  }

  lemma LinkInBackHead(prev: map<int, int>, leaves: seq<int>, at: nat, n: int, q: int)
    requires LinkedBack(prev, leaves) && Distinct(leaves) && at < |leaves| && n == NextOf(leaves, at)
    requires q !in leaves && q != LEAF_HEADER_PAGE
    ensures var l', prev' := InsertAt(leaves, at + 1, q), prev[q := leaves[at]][n := q];
      LEAF_HEADER_PAGE in prev' && prev'[LEAF_HEADER_PAGE] == l'[|l'| - 1]
  {
    var l' := InsertAt(leaves, at + 1, q);
    if at + 1 < |leaves| {
      assert n != LEAF_HEADER_PAGE && l'[|leaves|] == leaves[|leaves| - 1];
    }
  }

  lemma LinkInBack(next: map<int, int>, prev: map<int, int>, leaves: seq<int>, at: nat, q: int)
    requires LinkedForth(next, leaves) && LinkedBack(prev, leaves) && Distinct(leaves) && at < |leaves|
    requires q !in leaves && q != LEAF_HEADER_PAGE
    ensures LinkedBack(prev[q := leaves[at]][next[leaves[at]] := q], InsertAt(leaves, at + 1, q))
  {
    var n := next[leaves[at]];
    assert n == NextOf(leaves, at);
    hide LinkedForth;
    var l', prev' := InsertAt(leaves, at + 1, q), prev[q := leaves[at]][n := q];
    LinkInBackHead(prev, leaves, at, n, q);
    hide InsertAt, Distinct;
    forall i | 0 <= i < |l'| ensures l'[i] in prev' && prev'[l'[i]] == PrevOf(l', i) {
      LinkInBackAt(prev, leaves, at, n, q, i);
    }
  }

  // A new leaf q linked in after leaf at.
  lemma LinkIn(next: map<int, int>, prev: map<int, int>, leaves: seq<int>, at: nat, q: int)
    requires Linked(next, prev, leaves) && Distinct(leaves) && at < |leaves|
    requires q !in leaves && q != LEAF_HEADER_PAGE
    ensures leaves[at] in next
    ensures var p := leaves[at];
            Linked(next[q := next[p]][p := q], prev[q := p][next[p] := q], InsertAt(leaves, at + 1, q))
  {
    LinkInForth(next, leaves, at, q);
    LinkInBack(next, prev, leaves, at, q);
  }

  lemma LinkOutForth(next: map<int, int>, prev: map<int, int>, leaves: seq<int>, at: nat)
    requires LinkedForth(next, leaves) && LinkedBack(prev, leaves) && Distinct(leaves) && at < |leaves| && |leaves| > 1
    ensures LinkedForth(next[prev[leaves[at]] := next[leaves[at]]], RemoveAt(leaves, at))
  {
    var l' := RemoveAt(leaves, at);
    var n, m := next[leaves[at]], prev[leaves[at]];
    assert n == NextOf(leaves, at) && m == PrevOf(leaves, at);
    hide LinkedBack;
    var next' := next[m := n];
    forall i | 0 <= i < |l'| ensures l'[i] in next' && next'[l'[i]] == NextOf(l', i) {
      var i0 := if i < at then i else i + 1;
      assert l'[i] == leaves[i0] && next[leaves[i0]] == NextOf(leaves, i0);
      assert i0 + 1 != at ==> leaves[i0] != m;
    }
  }

  lemma LinkOutBack(next: map<int, int>, prev: map<int, int>, leaves: seq<int>, at: nat)
    requires LinkedForth(next, leaves) && LinkedBack(prev, leaves) && Distinct(leaves) && at < |leaves| && |leaves| > 1
    ensures LinkedBack(prev[next[leaves[at]] := prev[leaves[at]]], RemoveAt(leaves, at))
  {
    var l' := RemoveAt(leaves, at);
    var n, m := next[leaves[at]], prev[leaves[at]];
    assert n == NextOf(leaves, at) && m == PrevOf(leaves, at);
    hide LinkedForth;
    var prev' := prev[n := m];
    forall i | 0 <= i < |l'| ensures l'[i] in prev' && prev'[l'[i]] == PrevOf(l', i) {
      var i0 := if i < at then i else i + 1;
      assert l'[i] == leaves[i0] && prev[leaves[i0]] == PrevOf(leaves, i0);
      assert i0 != at + 1 ==> leaves[i0] != n;
    }
  }

  // Leaf number at taken out of the list.
  lemma LinkOut(next: map<int, int>, prev: map<int, int>, leaves: seq<int>, at: nat)
    requires Linked(next, prev, leaves) && Distinct(leaves) && at < |leaves| && |leaves| > 1
    ensures leaves[at] in next && leaves[at] in prev
    ensures var p := leaves[at];
            Linked(next[prev[p] := next[p]], prev[next[p] := prev[p]], RemoveAt(leaves, at))
  {
    LinkOutForth(next, prev, leaves, at);
    LinkOutBack(next, prev, leaves, at);
  }

  ghost function WithParent(pages: Pages, c: int, p: int): Pages {
    if c in pages then pages[c := pages[c].(parent := p)] else pages
  }

  // The pages differ in their parent pointers only.
  ghost predicate SameButParents(pages: Pages, pages': Pages) {
    pages'.Keys == pages.Keys && forall p :: p in pages ==> pages'[p] == pages[p].(parent := pages'[p].parent)
  }

  lemma SameButParentsNext(pages: Pages, pages': Pages, c: int, p: int)
    requires SameButParents(pages, pages') && c in pages'
    ensures SameButParents(pages, pages'[c := pages'[c].(parent := p)])
  {
  }

  lemma SameButParentsAt(pages: Pages, pages': Pages, q: int)
    requires SameButParents(pages, pages') && q in pages
    ensures q in pages' && pages'[q].rids == pages[q].rids && pages'[q].isLeaf == pages[q].isLeaf
  {
  }

  lemma SameButParentsKeeps(pages: Pages, pages': Pages, t: Tree)
    requires SameButParents(pages, pages')
    ensures Stored(pages, t) ==> Stored(pages', t)
    ensures NextMap(pages') == NextMap(pages) && PrevMap(pages') == PrevMap(pages)
  {
    forall p | p in pages ensures pages'[p].nextLeaf == pages[p].nextLeaf && pages'[p].prevLeaf == pages[p].prevLeaf {
    }
    assert NextMap(pages') == NextMap(pages) && PrevMap(pages') == PrevMap(pages);
  }

  lemma AdoptNext(par: map<int, int>, rids: seq<Rid>, i: nat, q: int)
    requires i < |rids| && rids[i].pageNo in par
    ensures Adopt(par, rids[..i], q)[rids[i].pageNo := q] == Adopt(par, rids[..i + 1], q)
  {
    var c := rids[i].pageNo;
    forall x | x in par ensures Names(rids[..i + 1], x) == (Names(rids[..i], x) || x == c) {
      if x == c {
        assert rids[..i + 1][i].pageNo == x;
      }
      if Names(rids[..i], x) {
        var j :| 0 <= j < i && rids[..i][j].pageNo == x;
        assert rids[..i + 1][j].pageNo == x;
      }
      if Names(rids[..i + 1], x) && x != c {
        var j :| 0 <= j < i + 1 && rids[..i + 1][j].pageNo == x;
        assert rids[..i][j].pageNo == x;
      }
    }
  }

  lemma AdoptNone(par: map<int, int>, q: int)
    ensures Adopt(par, [], q) == par
  {
  }

  lemma ParentMapUpdate(pages: Pages, p: int, node: Node)
    ensures ParentMap(pages[p := node]) == ParentMap(pages)[p := node.parent]
    ensures NextMap(pages[p := node]) == NextMap(pages)[p := node.nextLeaf]
    ensures PrevMap(pages[p := node]) == PrevMap(pages)[p := node.prevLeaf]
  {
  }

  // ---------------------------------------------------------------- the pages after a split

  function Halves(t: Tree, p: int, q: int, m: nat): Tree
    requires p in t && m < |t[p].keys| && |t[p].keys| == |t[p].rids|
  {
    t[p := LeftHalf(t[p], m)][q := RightHalf(t[p], m)]
  }

  // Leaf p split at m: q takes the upper entries and enters the list after p.
  ghost function LeafSplitPages(pages: Pages, p: int, q: int, m: nat): Pages
    requires p in pages && pages[p].nextLeaf in pages && m <= |pages[p].keys| && |pages[p].keys| == |pages[p].rids|
  {
    var n := pages[p];
    pages[q := Node(n.parent, n.isLeaf, p, n.nextLeaf, n.keys[m..], n.rids[m..])]
         [n.nextLeaf := pages[n.nextLeaf].(prevLeaf := q)]
         [p := SetSize(n, m).(nextLeaf := q)]
  }

  // Inner node p split at m, before its moved kids learn of their new parent.
  ghost function InnerSplitPages(pages: Pages, p: int, q: int, m: nat): Pages
    requires p in pages && m <= |pages[p].keys| && |pages[p].keys| == |pages[p].rids|
  {
    var n := pages[p];
    pages[q := Node(n.parent, n.isLeaf, 0, 0, n.keys[m..], n.rids[m..])][p := SetSize(n, m)]
  }

  lemma NextOfLeaf(t: Tree, root: int, pages: Pages, leaves: seq<int>, at: nat)
    requires Shape(t, root) && Chain(t, leaves) && Stored(pages, t) && at < |leaves|
    requires Linked(NextMap(pages), PrevMap(pages), leaves)
    ensures Distinct(leaves)
    ensures leaves[at] in pages
    ensures pages[leaves[at]].nextLeaf == NextOf(leaves, at) && pages[leaves[at]].prevLeaf == PrevOf(leaves, at)
    ensures NextOf(leaves, at) in pages && NextOf(leaves, at) != leaves[at]
    ensures PrevOf(leaves, at) in pages && PrevOf(leaves, at) != leaves[at]
  {
    assert NextMap(pages)[leaves[at]] == NextOf(leaves, at);
    assert PrevMap(pages)[leaves[at]] == PrevOf(leaves, at);
  }

  lemma LeafSplitMaps(pages: Pages, p: int, q: int, m: nat)
    requires p in pages && q !in pages && m <= |pages[p].keys| && |pages[p].keys| == |pages[p].rids|
    requires pages[p].nextLeaf in pages && pages[p].nextLeaf != p
    ensures var pages' := LeafSplitPages(pages, p, q, m);
            && ParentMap(pages') == ParentMap(pages)[q := pages[p].parent]
            && NextMap(pages') == NextMap(pages)[q := pages[p].nextLeaf][p := q]
            && PrevMap(pages') == PrevMap(pages)[q := p][pages[p].nextLeaf := q]
  {
    var n := pages[p];
    var n1, n2, n3 := Node(n.parent, n.isLeaf, p, n.nextLeaf, n.keys[m..],
      n.rids[m..]), pages[n.nextLeaf].(prevLeaf := q), SetSize(n, m).(nextLeaf := q);
    var pages1 := pages[q := n1];
    var pages2 := pages1[n.nextLeaf := n2];
    ParentMapUpdate(pages, q, n1);
    ParentMapUpdate(pages1, n.nextLeaf, n2);
    ParentMapUpdate(pages2, p, n3);
    SameMaps(pages1, n.nextLeaf, n2);
    SameMaps(pages2, p, n3);
    assert LeafSplitPages(pages, p, q, m) == pages2[p := n3];
    hide *;
  }

  // A page rewritten with the same link in one of the three places.
  lemma SameMaps(pages: Pages, x: int, n: Node)
    requires x in pages
    ensures n.parent == pages[x].parent ==> ParentMap(pages)[x := n.parent] == ParentMap(pages)
    ensures n.nextLeaf == pages[x].nextLeaf ==> NextMap(pages)[x := n.nextLeaf] == NextMap(pages)
    ensures n.prevLeaf == pages[x].prevLeaf ==> PrevMap(pages)[x := n.prevLeaf] == PrevMap(pages)
  {
  }

  lemma StoredHalves(t: Tree, pages: Pages, pages': Pages, p: int, q: int, m: nat)
    requires Stored(pages, t) && p in t && q !in pages && m < |t[p].keys| && |t[p].keys| == |t[p].rids|
    requires p in pages && p in pages' && q in pages' && p != q
    requires pages'[p].isLeaf == pages[p].isLeaf && pages'[p].keys == pages[p].keys[..m]
      && pages'[p].rids == pages[p].rids[..m]
    requires pages'[q].isLeaf == pages[p].isLeaf && pages'[q].keys == pages[p].keys[m..]
      && pages'[q].rids == pages[p].rids[m..]
    requires forall x :: x in pages && x != p ==>
                           x in pages' && pages'[x].isLeaf == pages[x].isLeaf && pages'[x].keys == pages[x].keys
                             && pages'[x].rids == pages[x].rids
    ensures Stored(pages', Halves(t, p, q, m))
  {
  }

  lemma LeafSplitBodies(pages: Pages, p: int, q: int, m: nat)
    requires p in pages && q !in pages && m <= |pages[p].keys| && |pages[p].keys| == |pages[p].rids|
    requires pages[p].nextLeaf in pages && pages[p].nextLeaf != p
    ensures var pages' := LeafSplitPages(pages, p, q, m);
            && p in pages' && q in pages' && p != q
            && pages'[p].isLeaf == pages[p].isLeaf && pages'[p].keys == pages[p].keys[..m]
              && pages'[p].rids == pages[p].rids[..m]
            && pages'[q].isLeaf == pages[p].isLeaf && pages'[q].keys == pages[p].keys[m..]
              && pages'[q].rids == pages[p].rids[m..]
            && forall x :: x in pages && x != p ==>
                 x in pages' && pages'[x].isLeaf == pages[x].isLeaf && pages'[x].keys == pages[x].keys
                   && pages'[x].rids == pages[x].rids
  {
  }

  lemma LeafSplitStored(t: Tree, root: int, pages: Pages, leaves: seq<int>, at: nat, q: int, m: nat)
    requires Shape(t, root) && Chain(t, leaves) && Stored(pages, t) && at < |leaves|
    requires Linked(NextMap(pages), PrevMap(pages), leaves)
    requires q !in pages && leaves[at] in t && m < |t[leaves[at]].keys| && |t[leaves[at]].keys| == |t[leaves[at]].rids|
    ensures leaves[at] in pages && |pages[leaves[at]].keys| == |pages[leaves[at]].rids| && m < |pages[leaves[at]].keys|
    ensures pages[leaves[at]].nextLeaf in pages && pages[leaves[at]].nextLeaf != leaves[at]
    ensures Stored(LeafSplitPages(pages, leaves[at], q, m), Halves(t, leaves[at], q, m))
  {
    NextOfLeaf(t, root, pages, leaves, at);
    var p := leaves[at];
    assert p in pages && pages[p].keys == t[p].keys && pages[p].rids == t[p].rids;
    LeafSplitBodies(pages, p, q, m);
    var pages' := LeafSplitPages(pages, p, q, m);
    hide *;
    StoredHalves(t, pages, pages', p, q, m);
  }

  lemma LeafSplitLinked(t: Tree, root: int, pages: Pages, leaves: seq<int>, at: nat, q: int, m: nat)
    requires Shape(t, root) && Chain(t, leaves) && Stored(pages, t) && at < |leaves|
    requires Linked(NextMap(pages), PrevMap(pages), leaves)
    requires q !in pages && leaves[at] in t && m < |t[leaves[at]].keys| && |t[leaves[at]].keys| == |t[leaves[at]].rids|
    ensures leaves[at] in pages && |pages[leaves[at]].keys| == |pages[leaves[at]].rids| && m < |pages[leaves[at]].keys|
    ensures leaves[at] in pages && pages[leaves[at]].nextLeaf in pages && pages[leaves[at]].nextLeaf != leaves[at]
    ensures var pages' := LeafSplitPages(pages, leaves[at], q, m);
            Linked(NextMap(pages'), PrevMap(pages'), InsertAt(leaves, at + 1, q))
  {
    NextOfLeaf(t, root, pages, leaves, at);
    LeafSplitMaps(pages, leaves[at], q, m);
    assert NextMap(pages)[leaves[at]] == pages[leaves[at]].nextLeaf;
    assert LEAF_HEADER_PAGE in NextMap(pages);
    LinkIn(NextMap(pages), PrevMap(pages), leaves, at, q);
  }

  lemma InnerSplitStored(t: Tree, root: int, pages: Pages, p: int, q: int, m: nat)
    requires Shape(t, root) && Stored(pages, t) && p in t && q !in pages && t[p].h > 0
    requires m < |t[p].keys| && |t[p].keys| == |t[p].rids|
    ensures p in pages && |pages[p].keys| == |pages[p].rids| && m <= |pages[p].keys|
    ensures var pages' := InnerSplitPages(pages, p, q, m);
            && Stored(pages', Halves(t, p, q, m))
            && ParentMap(pages') == ParentMap(pages)[q := pages[p].parent]
            && NextMap(pages') == NextMap(pages)[q := 0]
            && PrevMap(pages') == PrevMap(pages)[q := 0]
  {
    var pages' := InnerSplitPages(pages, p, q, m);
    assert pages'.Keys == pages.Keys + {q};
    assert ParentMap(pages') == ParentMap(pages)[q := pages[p].parent];
    assert NextMap(pages') == NextMap(pages)[q := 0];
    assert PrevMap(pages') == PrevMap(pages)[q := 0];
  }

  // A page outside the leaf list may hold any links.
  lemma LinkedElsewhere(next: map<int, int>, prev: map<int, int>, leaves: seq<int>, q: int, a: int, b: int)
    requires Linked(next, prev, leaves) && q !in leaves && q != LEAF_HEADER_PAGE
    ensures Linked(next[q := a], prev[q := b], leaves)
  {
  }

  lemma AdoptOther(par: map<int, int>, rids: seq<Rid>, q: int, x: int, v: int)
    requires !Names(rids, x)
    ensures Adopt(par[x := v], rids, q) == Adopt(par, rids, q)[x := v]
  {
  }
}
