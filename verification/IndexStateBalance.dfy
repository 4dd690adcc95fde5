/** What merging, redistribution and the removal of the root do to the index. */
module IndexStateBalance {
  import opened RecordIds
  import opened IndexTree
  import opened IndexTreeSplit
  import opened IndexTreeMerge
  import opened IndexTreeErase
  import opened IndexTreeBalance
  import opened IndexNode
  import opened IndexPages
  import opened IndexState
  import opened IndexStateErase

  // The index is sound but for node p, which may have lost one entry too many.
  ghost predicate Shrunk(pages: Pages, t: Tree, root: int, numPages: int, nextPageNo: int, maxSize: nat, p: int,
          leaves: seq<int>, contents: map<Key, Rid>) {
    Whole(pages, t, root, numPages, nextPageNo, maxSize, p, leaves, contents) && p in t
      && Short(t[p], p == root, maxSize)
  }

  // First and last leaf are where the file header says.
  predicate Ends(leaves: seq<int>, first: int, last: int) {
    |leaves| > 0 && first == leaves[0] && last == leaves[|leaves| - 1]
  }

  lemma Parts(pages: Pages, t: Tree, root: int, numPages: int, nextPageNo: int, maxSize: nat, p: int, leaves: seq<int>,
          contents: map<Key, Rid>)
    requires Shrunk(pages, t, root, numPages, nextPageNo, maxSize, p, leaves, contents)
    ensures Sound(t, root, maxSize, p, leaves, contents) && Laid(pages, t, root, leaves)
      && Counted(pages, t, numPages, nextPageNo, 0)
    ensures Shape(t, root) && p in t && Short(t[p], p == root, maxSize)
  {
    hide Laid, Counted, Sized, Chain, Holds, Shape, Short;
  }

  lemma FitsAll(t: Tree, root: int, maxSize: nat, p: int, leaves: seq<int>, contents: map<Key, Rid>)
    requires Sound(t, root, maxSize, p, leaves, contents) && p in t && Fits(t[p], p == root, maxSize)
    ensures Sound(t, root, maxSize, NO_PAGE, leaves, contents)
  {
    hide Shape, Chain, Holds;
  }

  lemma InnerFanout(t: Tree, root: int, maxSize: nat, p: int, leaves: seq<int>, contents: map<Key, Rid>, g: int)
    requires Sound(t, root, maxSize, p, leaves, contents) && g in t && g != p && t[g].h > 0
    ensures 2 <= |t[g].keys| == |t[g].rids|
    ensures forall i :: 0 <= i < |t[g].rids| ==> t[g].rids[i].pageNo in t
  {
    assert t[g].Ok() && Fits(t[g], g == root, maxSize);
    forall i | 0 <= i < |t[g].rids| ensures t[g].rids[i].pageNo in t {
      KidBelow(t, root, g, i);
    }
  }

  // What is read at an underfull node.
  lemma ShrunkRead(pages: Pages, t: Tree, root: int, numPages: int, nextPageNo: int, maxSize: nat, p: int,
          leaves: seq<int>, contents: map<Key, Rid>)
    requires Shrunk(pages, t, root, numPages, nextPageNo, maxSize, p, leaves, contents)
    ensures p in t && p in pages && root in t && |pages[p].keys| == |t[p].keys| == |pages[p].rids|
      && t[p].h <= t[root].h
    ensures pages[p].parent == NO_PAGE <==> p == root
    ensures pages[p].isLeaf == (t[p].h == 0)
    ensures p != root && |pages[p].keys| >= maxSize / 2 ==> Whole(pages, t, root, numPages, nextPageNo, maxSize,
      NO_PAGE, leaves, contents)
    ensures p != root ==>
              && var g := pages[p].parent;
              && g in pages && g in t && g != p && t[g].h == t[p].h + 1 <= t[root].h
                && 2 <= |pages[g].keys| == |pages[g].rids|
              && (exists i :: 0 <= i < |pages[g].rids| && pages[g].rids[i].pageNo == p)
              && forall i :: 0 <= i < |pages[g].rids| ==> pages[g].rids[i].pageNo in pages
  {
    hide *;
    Parts(pages, t, root, numPages, nextPageNo, maxSize, p, leaves, contents);
    NodePage(pages, t, root, leaves, p);
    RootTop(t, root, p);
    if p != root {
      if |pages[p].keys| >= maxSize / 2 {
        ShortFits(t[p], maxSize);
        FitsAll(t, root, maxSize, p, leaves, contents);
        IntroWhole(pages, t, root, numPages, nextPageNo, maxSize, NO_PAGE, leaves, contents);
      }
      ParentPage(pages, t, root, leaves, p);
      var g := pages[p].parent;
      NodePage(pages, t, root, leaves, g);
      RootTop(t, root, g);
      InnerFanout(t, root, maxSize, p, leaves, contents, g);
      forall i | 0 <= i < |pages[g].rids| ensures pages[g].rids[i].pageNo in pages {
        assert t[g].rids[i].pageNo in t;
      }
    }
  }

  lemma ShortFits(n: TNode, maxSize: nat)
    requires Short(n, false, maxSize) && |n.keys| >= maxSize / 2
    ensures Fits(n, false, maxSize)
  {
  }

  // ---------------------------------------------------------------- two neighbouring kids

  // Entry index of g names p, which is underfull; neigh is the kid before p, or after it if p is the first.
  ghost predicate Siblings(pages: Pages, t: Tree, root: int, numPages: int, nextPageNo: int, maxSize: nat, p: int,
          leaves: seq<int>, contents: map<Key, Rid>,
                           g: int, index: nat, neigh: int) {
    && Shrunk(pages, t, root, numPages, nextPageNo, maxSize, p, leaves, contents)
    && p != root && |t[p].keys| < maxSize / 2
    && g in t && t[g].h == t[p].h + 1 && 2 <= |t[g].keys| == |t[g].rids| && index < |t[g].rids|
    && t[g].Kid(index) == p && neigh == (if index == 0 then t[g].Kid(1) else t[g].Kid(index - 1))
    && pages.Keys >= {g, p, neigh} && pages[p].parent == g
  }

  lemma FindSiblings(pages: Pages, t: Tree, root: int, numPages: int, nextPageNo: int, maxSize: nat, p: int,
          leaves: seq<int>, contents: map<Key, Rid>,
                     g: int, index: nat, neigh: int)
    requires Shrunk(pages, t, root, numPages, nextPageNo, maxSize, p, leaves, contents) && p != root && p in pages
      && |pages[p].keys| < maxSize / 2
    requires g == pages[p].parent && g in pages && 2 <= |pages[g].rids| && index < |pages[g].rids|
      && pages[g].rids[index].pageNo == p
    requires neigh == pages[g].rids[if index == 0 then 1 else index - 1].pageNo
    ensures Siblings(pages, t, root, numPages, nextPageNo, maxSize, p, leaves, contents, g, index, neigh)
    ensures neigh in pages && |pages[neigh].keys| == |pages[neigh].rids|
  {
    hide Shrunk, Siblings;
    ShrunkRead(pages, t, root, numPages, nextPageNo, maxSize, p, leaves, contents);
    Parts(pages, t, root, numPages, nextPageNo, maxSize, p, leaves, contents);
    hide *;
    NodePage(pages, t, root, leaves, g);
    KidBelow(t, root, g, if index == 0 then 1 else index - 1);
    NodePage(pages, t, root, leaves, neigh);
    IntroSiblings(pages, t, root, numPages, nextPageNo, maxSize, p, leaves, contents, g, index, neigh);
  }

  lemma IntroSiblings(pages: Pages, t: Tree, root: int, numPages: int, nextPageNo: int, maxSize: nat, p: int,
          leaves: seq<int>, contents: map<Key, Rid>,
                      g: int, index: nat, neigh: int)
    requires Shrunk(pages, t, root, numPages, nextPageNo, maxSize, p, leaves, contents) && p in t && p != root
      && |t[p].keys| < maxSize / 2
    requires g in t && t[g].h == t[p].h + 1 && 2 <= |t[g].keys| == |t[g].rids| && index < |t[g].rids|
    requires t[g].Kid(index) == p && neigh == (if index == 0 then t[g].Kid(1) else t[g].Kid(index - 1))
    requires g in pages && p in pages && neigh in pages && pages[p].parent == g
    ensures Siblings(pages, t, root, numPages, nextPageNo, maxSize, p, leaves, contents, g, index, neigh)
  {
    hide Shrunk;
  }

  function LeftOf(index: nat, p: int, neigh: int): int {
    if index == 0 then p else neigh
  }

  function RightOf(index: nat, p: int, neigh: int): int {
    if index == 0 then neigh else p
  }

  function LeftSlot(index: nat): nat {
    if index == 0 then 0 else index - 1
  }

  // The separator that names the merged node.
  function MergedKey(t: Tree, g: int, index: nat, p: int): Key
    requires g in t && p in t && index < |t[g].keys| && |t[p].keys| > 0
  {
    if index == 0 then t[p].keys[0] else t[g].keys[index - 1]
  }

  lemma SiblingsOk(t: Tree, root: int, maxSize: nat, p: int, leaves: seq<int>, contents: map<Key, Rid>, g: int,
          index: nat, neigh: int)
    requires Sound(t, root, maxSize, p, leaves, contents) && p in t && p != root && Short(t[p], false, maxSize)
    requires g in t && t[g].h == t[p].h + 1 && 2 <= |t[g].keys| == |t[g].rids| && index < |t[g].rids|
    requires t[g].Kid(index) == p && neigh == (if index == 0 then t[g].Kid(1) else t[g].Kid(index - 1))
    ensures |t[p].keys| > 0
    ensures CanMerge(t, g, LeftSlot(index), LeftOf(index, p, neigh), RightOf(index, p, neigh),
      MergedKey(t, g, index, p), neigh)
    ensures neigh in t && t[neigh].h == t[p].h && |t[p].keys| == |t[p].rids| && |t[neigh].keys| == |t[neigh].rids|
    ensures maxSize / 2 <= |t[neigh].keys| < maxSize && p != g && neigh != g && p != neigh && neigh != root
    ensures t[p].Ok() && t[neigh].Ok()
    ensures t[g].rids[index] == Rid(p, -1) && t[g].rids[if index == 0 then 1 else index - 1] == Rid(neigh, -1)
  {
    var i := LeftSlot(index);
    Neighbours(t, root, g, i);
    assert Fits(t[neigh], neigh == root, maxSize);
    assert t[g].Live(i) ==> t[t[g].Kid(i)].lo == At(t[g].keys[i]);
  }

  // ---------------------------------------------------------------- merging

  // The neighbour takes over the entries of p, in front of its own or behind them.
  ghost function Absorbing(pages: Pages, p: int, neigh: int, index: nat): Pages
    requires p in pages && neigh in pages
  {
    var n := pages[neigh];
    pages[neigh := InsertPairs(n, if index == 0 then 0 else |n.keys|, pages[p].keys, pages[p].rids)]
  }

  lemma EntriesAbsorbed(n: Node, m: Node, index: nat, l: TNode, r: TNode)
    requires |n.keys| == |n.rids| && |m.keys| == |m.rids|
    requires if index == 0 then l.keys == m.keys && l.rids == m.rids && r.keys == n.keys && r.rids == n.rids
             else l.keys == n.keys && l.rids == n.rids && r.keys == m.keys && r.rids == m.rids
    ensures var from := if index == 0 then 0 else |n.keys|;
            var n' := InsertPairs(n, from, m.keys, m.rids);
            && n' == n.(keys := Joined(l, r).keys, rids := Joined(l, r).rids)
            && |n'.keys| == |n.keys| + |m.keys| == |n'.rids| && n'.rids[from..from + |m.keys|] == m.rids
  {
  }

  lemma AbsorbStart(pages: Pages, t: Tree, root: int, numPages: int, nextPageNo: int, maxSize: nat, p: int,
          leaves: seq<int>, contents: map<Key, Rid>,
                    g: int, index: nat, neigh: int)
    requires Siblings(pages, t, root, numPages, nextPageNo, maxSize, p, leaves, contents, g, index, neigh)
    ensures p in pages && neigh in pages && p in t && neigh in t && |pages[p].keys| == |pages[p].rids|
      && |pages[neigh].keys| == |pages[neigh].rids|
    ensures var pages1 := Absorbing(pages, p, neigh, index);
            var from := if index == 0 then 0 else |pages[neigh].keys|;
            var to := from + |pages[p].keys|;
            && Stored(pages1, t[neigh := Joined(t[LeftOf(index, p, neigh)], t[RightOf(index, p, neigh)])])
              && SameButEntries(pages, pages1)
            && neigh in pages1 && pages1[neigh].isLeaf == (t[p].h == 0)
              && |pages1[neigh].keys| == |pages1[neigh].rids| == |pages[neigh].keys| + |pages[p].keys|
            && pages1[neigh].rids[from..to] == t[p].rids
            && (t[p].h > 0 ==> forall j :: from <= j < to ==> pages1[neigh].rids[j].pageNo in pages1)
  {
    hide *;
    SiblingFacts(pages, t, root, numPages, nextPageNo, maxSize, p, leaves, contents, g, index, neigh);
    LaidStored(pages, t, root, leaves);
    AbsorbEntries(pages, t, p, neigh, index);
    if t[p].h > 0 {
      var pages1 := Absorbing(pages, p, neigh, index);
      var from := if index == 0 then 0 else |pages[neigh].keys|;
      forall j | from <= j < from + |pages[p].keys| ensures pages1[neigh].rids[j].pageNo in pages1 {
        KidPage(t, root, p, j - from);
        assert pages1[neigh].rids[j] == pages1[neigh].rids[from..from + |pages[p].keys|][j - from];
      }
    }
  }

  lemma KidPage(t: Tree, root: int, x: int, j: nat)
    requires Shape(t, root) && x in t && t[x].h > 0 && j < |t[x].rids|
    ensures t[x].rids[j].pageNo in t
  {
    KidBelow(t, root, x, j);
  }

  lemma AbsorbEntries(pages: Pages, t: Tree, p: int, neigh: int, index: nat)
    requires Stored(pages, t) && p in t && neigh in t && p != neigh && p in pages && neigh in pages
      && t[p].h == t[neigh].h
    requires |pages[p].keys| == |pages[p].rids| && |pages[neigh].keys| == |pages[neigh].rids|
    ensures var pages1 := Absorbing(pages, p, neigh, index);
            var from := if index == 0 then 0 else |pages[neigh].keys|;
            var to := from + |pages[p].keys|;
            && Stored(pages1, t[neigh := Joined(t[LeftOf(index, p, neigh)], t[RightOf(index, p, neigh)])])
              && SameButEntries(pages, pages1)
            && neigh in pages1 && pages1[neigh].isLeaf == (t[p].h == 0)
              && |pages1[neigh].keys| == |pages1[neigh].rids| == |pages[neigh].keys| + |pages[p].keys|
            && pages1[neigh].rids[from..to] == t[p].rids && pages1.Keys == pages.Keys
  {
    var l, r := t[LeftOf(index, p, neigh)], t[RightOf(index, p, neigh)];
    EntriesAbsorbed(pages[neigh], pages[p], index, l, r);
    JoinedHeight(l, r);
    var n := Absorbing(pages, p, neigh, index)[neigh];
    assert pages[p].rids == t[p].rids && pages[neigh].isLeaf == (t[neigh].h == 0);
    hide Stored, SameButEntries, Joined, InsertPairs;
    StoredUpdate(pages, t, neigh, n, Joined(l, r));
    SameSelf(pages);
    SameButEntriesNext(pages, pages, neigh, n);
  }

  // What the code reads at two siblings and their parent.
  lemma SiblingFacts(pages: Pages, t: Tree, root: int, numPages: int, nextPageNo: int, maxSize: nat, p: int,
          leaves: seq<int>, contents: map<Key, Rid>,
                     g: int, index: nat, neigh: int)
    requires Siblings(pages, t, root, numPages, nextPageNo, maxSize, p, leaves, contents, g, index, neigh)
    ensures Sound(t, root, maxSize, p, leaves, contents) && Laid(pages, t, root, leaves)
      && Counted(pages, t, numPages, nextPageNo, 0) && Shape(t, root)
    ensures p in t && neigh in t && g in t && p != neigh && p != g && neigh != g && t.Keys <= pages.Keys
    ensures p != root && neigh != root && root in t
    ensures t[neigh].h == t[p].h && t[g].h == t[p].h + 1 <= t[root].h
    ensures index < |t[g].keys| && |t[p].keys| > 0
    ensures |t[p].keys| == |t[p].rids| && |t[neigh].keys| == |t[neigh].rids| && |t[g].keys| == |t[g].rids| >= 2
    ensures |t[p].keys| < maxSize / 2 <= |t[neigh].keys| < maxSize && |t[p].keys| + 1 >= maxSize / 2
    ensures p in pages && pages[p].keys == t[p].keys && pages[p].rids == t[p].rids && pages[p].isLeaf == (t[p].h == 0)
    ensures neigh in pages && pages[neigh].keys == t[neigh].keys && pages[neigh].rids == t[neigh].rids
      && pages[neigh].isLeaf == (t[p].h == 0)
    ensures g in pages && pages[g].keys == t[g].keys && pages[g].rids == t[g].rids && pages[p].parent == g
    ensures CanMerge(t, g, LeftSlot(index), LeftOf(index, p, neigh), RightOf(index, p, neigh),
      MergedKey(t, g, index, p), neigh)
    ensures t[g].rids[index] == Rid(p, -1) && t[g].rids[if index == 0 then 1 else index - 1] == Rid(neigh, -1)
    ensures t[p].Ok() && t[neigh].Ok()
  {
    hide Shrunk;
    SiblingsParts(pages, t, root, numPages, nextPageNo, maxSize, p, leaves, contents, g, index, neigh);
    assert |t[p].keys| + 1 >= maxSize / 2;
    hide *;
    SiblingsOk(t, root, maxSize, p, leaves, contents, g, index, neigh);
    NodePage(pages, t, root, leaves, p);
    NodePage(pages, t, root, leaves, neigh);
    NodePage(pages, t, root, leaves, g);
    RootTop(t, root, g);
  }

  lemma SiblingsParts(pages: Pages, t: Tree, root: int, numPages: int, nextPageNo: int, maxSize: nat, p: int,
          leaves: seq<int>, contents: map<Key, Rid>,
                      g: int, index: nat, neigh: int)
    requires Siblings(pages, t, root, numPages, nextPageNo, maxSize, p, leaves, contents, g, index, neigh)
    ensures Sound(t, root, maxSize, p, leaves, contents) && Laid(pages, t, root, leaves)
      && Counted(pages, t, numPages, nextPageNo, 0) && Shape(t, root)
    ensures p in t && p != root && Short(t[p], false, maxSize) && |t[p].keys| < maxSize / 2
    ensures g in t && t[g].h == t[p].h + 1 && 2 <= |t[g].keys| == |t[g].rids| && index < |t[g].rids|
    ensures t[g].Kid(index) == p && neigh == (if index == 0 then t[g].Kid(1) else t[g].Kid(index - 1))
    ensures p in pages && pages[p].parent == g
  {
    hide Shrunk, Short;
    Parts(pages, t, root, numPages, nextPageNo, maxSize, p, leaves, contents);
    hide Sound, Laid, Counted, Shape;
  }

  lemma SameSelf(pages: Pages)
    ensures SameButEntries(pages, pages)
  {
  }

  lemma LaidStored(pages: Pages, t: Tree, root: int, leaves: seq<int>)
    requires Laid(pages, t, root, leaves)
    ensures Stored(pages, t) && Parents(t, root, ParentMap(pages)) && Linked(NextMap(pages), PrevMap(pages), leaves)
  {
    hide Stored, Parents, Linked, ParentMap, NextMap, PrevMap;
  }

  // The neighbour has absorbed p: kids and leaf list know it, the parent does not yet.
  ghost predicate HalfMerged(pages: Pages, pages2: Pages, t: Tree, p: int, neigh: int, index: nat, leaves2: seq<int>) {
    && p in t && neigh in t && |t[p].rids| == |t[p].keys|
    && Stored(pages2, t[neigh := Joined(t[LeftOf(index, p, neigh)], t[RightOf(index, p, neigh)])])
    && ParentMap(pages2) == Adopt(ParentMap(pages), MovedKids(t[p], 0), neigh)
    && Linked(NextMap(pages2), PrevMap(pages2), leaves2)
    && pages2.Keys == pages.Keys
  }

  lemma AllMoved(n: TNode)
    ensures MovedKids(n, 0) == if n.h > 0 then n.rids else []
  {
  }

  lemma AbsorbInner(pages: Pages, pages1: Pages, pages2: Pages, t: Tree, p: int, neigh: int, index: nat,
          leaves: seq<int>)
    requires p in t && neigh in t && |t[p].rids| == |t[p].keys| && t[p].h > 0
    requires Stored(pages1, t[neigh := Joined(t[LeftOf(index, p, neigh)], t[RightOf(index, p, neigh)])])
      && SameButEntries(pages, pages1)
    requires SameButParents(pages1, pages2) && ParentMap(pages2) == Adopt(ParentMap(pages1), t[p].rids, neigh)
      && pages2.Keys == pages1.Keys
    requires Linked(NextMap(pages), PrevMap(pages), leaves)
    ensures HalfMerged(pages, pages2, t, p, neigh, index, leaves)
  {
    var u := t[neigh := Joined(t[LeftOf(index, p, neigh)], t[RightOf(index, p, neigh)])];
    hide SameButEntries, SameButParents, Stored, Linked, ParentMap, NextMap, PrevMap, Adopt, Joined, LeftOf, RightOf,
      MovedKids;
    SameButEntriesMaps(pages, pages1);
    SameButParentsKeeps(pages1, pages2, u);
    AllMoved(t[p]);
  }

  // Leaf p taken out of the leaf list.
  ghost function Unlinked(pages: Pages, p: int): Pages
    requires p in pages && pages[p].prevLeaf in pages && pages[p].nextLeaf in pages
  {
    var n := pages[p];
    var pages1 := pages[n.prevLeaf := pages[n.prevLeaf].(nextLeaf := n.nextLeaf)];
    pages1[n.nextLeaf := pages1[n.nextLeaf].(prevLeaf := n.prevLeaf)]
  }

  // The pages differ in their leaf links only.
  ghost predicate SameButLinks(pages: Pages, pages': Pages) {
    pages'.Keys == pages.Keys && forall x :: x in pages ==> pages'[x] == pages[x].(nextLeaf := pages'[x].nextLeaf,
      prevLeaf := pages'[x].prevLeaf)
  }

  lemma SameButLinksKeeps(pages: Pages, pages': Pages, t: Tree)
    requires SameButLinks(pages, pages')
    ensures Stored(pages, t) ==> Stored(pages', t)
    ensures ParentMap(pages') == ParentMap(pages) && pages'.Keys == pages.Keys
  {
    forall x | x in pages ensures pages'[x].parent == pages[x].parent {
    }
    assert ParentMap(pages') == ParentMap(pages);
  }

  lemma UnlinkedMaps(pages: Pages, p: int)
    requires p in pages && pages[p].prevLeaf in pages && pages[p].nextLeaf in pages && pages[p].prevLeaf != p
      && pages[p].nextLeaf != p
    requires pages[p].prevLeaf != pages[p].nextLeaf
    ensures SameButLinks(pages, Unlinked(pages, p))
    ensures NextMap(Unlinked(pages, p)) == NextMap(pages)[pages[p].prevLeaf := pages[p].nextLeaf]
    ensures PrevMap(Unlinked(pages, p)) == PrevMap(pages)[pages[p].nextLeaf := pages[p].prevLeaf]
  {
    var n := pages[p];
    var m := pages[n.prevLeaf].(nextLeaf := n.nextLeaf);
    var pages1 := pages[n.prevLeaf := m];
    ParentMapUpdate(pages, n.prevLeaf, m);
    ParentMapUpdate(pages1, n.nextLeaf, pages1[n.nextLeaf].(prevLeaf := n.prevLeaf));
    assert PrevMap(pages)[n.prevLeaf] == pages[n.prevLeaf].prevLeaf
      && NextMap(pages)[n.nextLeaf] == pages[n.nextLeaf].nextLeaf;
    assert PrevMap(pages1) == PrevMap(pages);
  }

  // The links of a leaf in a list of several leaves.
  lemma LeafLinks(pages: Pages, t: Tree, root: int, leaves: seq<int>, at: nat)
    requires Shape(t, root) && Chain(t, leaves) && Laid(pages, t, root, leaves) && at < |leaves| && |leaves| >= 2
    ensures leaves[at] in pages && Distinct(leaves)
    ensures pages[leaves[at]].nextLeaf in pages && pages[leaves[at]].prevLeaf in pages
    ensures pages[leaves[at]].nextLeaf != leaves[at] && pages[leaves[at]].prevLeaf != leaves[at]
      && pages[leaves[at]].nextLeaf != pages[leaves[at]].prevLeaf
  {
    NextOfLeaf(t, root, pages, leaves, at);
    hide Shape, Chain, Laid;
  }

  lemma AbsorbLeaf(pages: Pages, pages1: Pages, t: Tree, root: int, p: int, neigh: int, index: nat, leaves: seq<int>,
          at: nat)
    requires p in t && neigh in t && |t[p].rids| == |t[p].keys| && t[p].h == 0
    requires at < |leaves| && leaves[at] == p && |leaves| >= 2 && SameButEntries(pages, pages1)
    requires Stored(pages1, t[neigh := Joined(t[LeftOf(index, p, neigh)], t[RightOf(index, p, neigh)])])
    requires Shape(t, root) && Chain(t, leaves) && Laid(pages, t, root, leaves)
    ensures p in pages1 && pages1[p].prevLeaf in pages1 && pages1[p].nextLeaf in pages1 && pages1[p].prevLeaf != p
    ensures HalfMerged(pages, Unlinked(pages1, p), t, p, neigh, index, RemoveAt(leaves, at))
  {
    var u := t[neigh := Joined(t[LeftOf(index, p, neigh)], t[RightOf(index, p, neigh)])];
    hide *;
    LaidStored(pages, t, root, leaves);
    UnlinkedList(pages, pages1, t, root, p, leaves, at);
    SameButEntriesMaps(pages, pages1);
    SameButLinksKeeps(pages1, Unlinked(pages1, p), u);
    AllMoved(t[p]);
    AdoptNone(ParentMap(pages), neigh);
    IntroHalfMerged(pages, Unlinked(pages1, p), t, p, neigh, index, RemoveAt(leaves, at));
  }

  lemma UnlinkedList(pages: Pages, pages1: Pages, t: Tree, root: int, p: int, leaves: seq<int>, at: nat)
    requires Shape(t, root) && Chain(t, leaves) && Laid(pages, t, root, leaves) && at < |leaves| && leaves[at] == p
      && |leaves| >= 2
    requires SameButEntries(pages, pages1)
    ensures p in pages1 && pages1[p].prevLeaf in pages1 && pages1[p].nextLeaf in pages1 && pages1[p].prevLeaf != p
    ensures SameButLinks(pages1, Unlinked(pages1, p))
    ensures Linked(NextMap(Unlinked(pages1, p)), PrevMap(Unlinked(pages1, p)), RemoveAt(leaves, at))
  {
    hide *;
    LeafLinks(pages, t, root, leaves, at);
    LaidStored(pages, t, root, leaves);
    SameEntriesLinks(pages, pages1, p);
    SameButEntriesMaps(pages, pages1);
    UnlinkedMaps(pages1, p);
    LinkOut(NextMap(pages), PrevMap(pages), leaves, at);
  }

  lemma SameEntriesLinks(pages: Pages, pages': Pages, p: int)
    requires SameButEntries(pages, pages') && p in pages
    ensures p in pages' && pages'[p].nextLeaf == pages[p].nextLeaf && pages'[p].prevLeaf == pages[p].prevLeaf
    ensures p in NextMap(pages) && p in PrevMap(pages) && NextMap(pages)[p] == pages[p].nextLeaf
      && PrevMap(pages)[p] == pages[p].prevLeaf
  {
  }

  lemma IntroHalfMerged(pages: Pages, pages2: Pages, t: Tree, p: int, neigh: int, index: nat, leaves2: seq<int>)
    requires p in t && neigh in t && |t[p].rids| == |t[p].keys|
    requires Stored(pages2, t[neigh := Joined(t[LeftOf(index, p, neigh)], t[RightOf(index, p, neigh)])])
    requires ParentMap(pages2) == Adopt(ParentMap(pages), MovedKids(t[p], 0), neigh)
    requires Linked(NextMap(pages2), PrevMap(pages2), leaves2) && pages2.Keys == pages.Keys
    ensures HalfMerged(pages, pages2, t, p, neigh, index, leaves2)
  {
  }

  // The parent forgets p, and its entry for the neighbour names the merged node.
  ghost function ParentEdited(n: Node, index: nat, k0: Key): Node
    requires |n.keys| >= 2
  {
    if index == 0 then (if |ErasePair(n, 0).keys| > 0 then SetKey(ErasePair(n, 0), 0, k0) else n)
      else ErasePair(n, index)
  }

  lemma OneKidPage(n: Node, m: TNode, index: nat, k0: Key, p: int, neigh: int)
    requires n.keys == m.keys && n.rids == m.rids && |n.keys| == |n.rids| >= 2 && index < |n.keys|
    requires m.rids[index] == Rid(p, -1) && m.rids[if index == 0 then 1 else index - 1] == Rid(neigh, -1)
    requires index > 0 ==> k0 == m.keys[index - 1]
    ensures var n' := ParentEdited(n, index, k0);
            var m' := OneKid(m, LeftSlot(index), k0, neigh);
            n' == n.(keys := m'.keys, rids := m'.rids) && m'.h == m.h
  {
    var n', m' := ParentEdited(n, index, k0), OneKid(m, LeftSlot(index), k0, neigh);
    assert n'.keys == m'.keys && n'.rids == m'.rids;
  }

  lemma MergeStored(pages2: Pages, t: Tree, g: int, i: nat, l: int, r: int, k0: Key, p: int, neigh: int, n: Node)
    requires g in t && l in t && r in t && i + 1 < |t[g].keys| && |t[g].keys| == |t[g].rids|
    requires Stored(pages2, t[neigh := Joined(t[l], t[r])]) && p == (if neigh == l then r else l) && g != neigh
      && t[g].h > 0
    requires !n.isLeaf && n.keys == OneKid(t[g], i, k0, neigh).keys && n.rids == OneKid(t[g], i, k0, neigh).rids
    ensures Stored(pages2[g := n], Merge(t, g, i, l, r, k0, neigh))
  {
  }

  lemma MergeLaid(pages: Pages, pages2: Pages, t: Tree, root: int, g: int, index: nat, p: int, neigh: int,
          leaves2: seq<int>)
    requires p in t && neigh in t && g in t && p != neigh && neigh != g && p != g && index < |t[g].keys|
      && |t[p].keys| > 0
    requires |t[g].keys| == |t[g].rids| >= 2 && t[g].h > 0
    requires t[g].rids[index] == Rid(p, -1) && t[g].rids[if index == 0 then 1 else index - 1] == Rid(neigh, -1)
    requires HalfMerged(pages, pages2, t, p, neigh, index, leaves2)
    requires CanMerge(t, g, LeftSlot(index), LeftOf(index, p, neigh), RightOf(index, p, neigh),
      MergedKey(t, g, index, p), neigh)
    requires Shape(t, root) && Parents(t, root, ParentMap(pages))
    ensures g in pages2 && |pages2[g].keys| >= 2
    ensures Laid(pages2[g := ParentEdited(pages2[g], index, MergedKey(t, g, index, p))],
                 Merge(t, g, LeftSlot(index), LeftOf(index, p, neigh), RightOf(index, p, neigh),
                   MergedKey(t, g, index, p), neigh), root, leaves2)
  {
    var l, r, k0 := LeftOf(index, p, neigh), RightOf(index, p, neigh), MergedKey(t, g, index, p);
    var u := t[neigh := Joined(t[l], t[r])];
    hide Shape, Parents, CanMerge;
    assert Stored(pages2, u) && u[g] == t[g];
    hide Linked, ParentMap, NextMap, PrevMap, Adopt, OneKid, Joined, Merge, MovedKids;
    MergeParents(t, root, g, LeftSlot(index), l, r, k0, neigh, ParentMap(pages));
    var n := ParentEdited(pages2[g], index, k0);
    OneKidPage(pages2[g], t[g], index, k0, p, neigh);
    MergeStored(pages2, t, g, LeftSlot(index), l, r, k0, p, neigh, n);
    EntriesChanged(pages2, g, n);
  }

  function LeavesAfterMerge(n: TNode, leaves: seq<int>, at: nat, index: nat): seq<int>
    requires n.h == 0 ==> at + 1 < |leaves|
  {
    if n.h == 0 then RemoveAt(leaves, if index == 0 then at else at + 1) else leaves
  }

  // Where two neighbouring leaves are found in the leaf list.
  ghost predicate LeafPair(t: Tree, leaves: seq<int>, p: int, neigh: int, index: nat, at: nat) {
    p in t && (t[p].h == 0 ==>
      at + 1 < |leaves| && leaves[at] == LeftOf(index, p, neigh) && leaves[at + 1] == RightOf(index, p, neigh))
  }

  lemma PairAt(t: Tree, leaves: seq<int>, p: int, neigh: int, index: nat, at: nat)
    requires LeafPair(t, leaves, p, neigh, index, at)
    ensures p in t && (t[p].h == 0 ==> at + 1 < |leaves|)
  {
  }

  lemma LeafAt(t: Tree, leaves: seq<int>, p: int, neigh: int, index: nat, at: nat)
    requires LeafPair(t, leaves, p, neigh, index, at) && t[p].h == 0
    ensures at + 1 < |leaves| && leaves[at] == LeftOf(index, p, neigh) && leaves[at + 1] == RightOf(index, p, neigh)
    ensures leaves[if index == 0 then at else at + 1] == p
    ensures LeavesAfterMerge(t[p], leaves, at, index) == RemoveAt(leaves, if index == 0 then at else at + 1)
  {
  }

  lemma InnerLeaves(n: TNode, leaves: seq<int>, at: nat, index: nat)
    requires n.h > 0
    ensures LeavesAfterMerge(n, leaves, at, index) == leaves
  {
  }

  lemma FindLeafPair(t: Tree, root: int, leaves: seq<int>, g: int, index: nat, p: int, neigh: int) returns (at: nat)
    requires Shape(t, root) && Chain(t, leaves) && p in t && g in t && t[g].h == t[p].h + 1 && |t[g].rids| >= 2
      && index < |t[g].rids|
    requires t[g].rids[index] == Rid(p, -1) && t[g].rids[if index == 0 then 1 else index - 1] == Rid(neigh, -1)
    ensures LeafPair(t, leaves, p, neigh, index, at)
  {
    at := 0;
    if t[p].h == 0 {
      var l := LeftOf(index, p, neigh);
      KidBelow(t, root, g, LeftSlot(index));
      assert l in leaves;
      at :| at < |leaves| && leaves[at] == l;
      NextLeaf(t, root, g, LeftSlot(index), leaves, at);
    }
  }

  lemma MergeSound(t: Tree, root: int, maxSize: nat, leaves: seq<int>, contents: map<Key, Rid>, g: int, index: nat,
          p: int, neigh: int, at: nat)
    requires p in t && neigh in t && g in t && p != neigh && index < |t[g].keys| && |t[p].keys| > 0
      && |t[g].keys| == |t[g].rids| >= 2
    requires CanMerge(t, g, LeftSlot(index), LeftOf(index, p, neigh), RightOf(index, p, neigh),
      MergedKey(t, g, index, p), neigh)
    requires LeafPair(t, leaves, p, neigh, index, at) && t[neigh].h == t[p].h && t[g].h > 0
    requires |t[p].keys| + |t[neigh].keys| < maxSize && g != p && g != neigh
    requires Sound(t, root, maxSize, p, leaves, contents)
    ensures var t' := Merge(t, g, LeftSlot(index), LeftOf(index, p, neigh), RightOf(index, p, neigh),
      MergedKey(t, g, index, p), neigh);
            && g in t' && Short(t'[g], g == root, maxSize) && t'[g].h == t[g].h
            && Sound(t', root, maxSize, g, LeavesAfterMerge(t[p], leaves, at, index), contents)
  {
    hide Shape, Sized, Chain, Holds, Merge, CanMerge;
    var l, r, k0, i := LeftOf(index, p, neigh), RightOf(index, p, neigh), MergedKey(t, g, index, p), LeftSlot(index);
    MergeShape(t, root, g, i, l, r, k0, neigh);
    MergeSized(t, root, g, i, l, r, k0, neigh, maxSize, p);
    MergeChain(t, root, g, i, l, r, k0, neigh, leaves, at);
    MergeHolds(t, root, g, i, l, r, k0, neigh, contents);
    MergeLook(t, g, i, l, r, k0, neigh);
  }

  lemma MergeCount(t: Tree, g: int, i: nat, l: int, r: int, k0: Key, p: int, neigh: int, root: int)
    requires g in t && l in t && r in t && i + 1 < |t[g].keys| && |t[g].keys| == |t[g].rids| && l != r && g != l
      && g != r
    requires (neigh == l && p == r) || (neigh == r && p == l)
    requires root in t && root != p && root != neigh
    ensures var t' := Merge(t, g, i, l, r, k0, neigh);
            && t'.Keys == t.Keys - {p} && |t'| == |t| - 1 && p !in t'
            && root in t' && t'[root].h == t[root].h
  {
    var t' := Merge(t, g, i, l, r, k0, neigh);
    assert t'.Keys == t.Keys - {p};
    assert |t'.Keys| == |t'| && |t.Keys| == |t|;
  }

  // The tree after the merge that takes place at entry index of g.
  ghost function Coalesced(t: Tree, g: int, index: nat, p: int, neigh: int): Tree
    requires p in t && neigh in t && g in t && index < |t[g].keys| && |t[g].keys| == |t[g].rids| >= 2 && |t[p].keys| > 0
  {
    Merge(t, g, LeftSlot(index), LeftOf(index, p, neigh), RightOf(index, p, neigh), MergedKey(t, g, index, p), neigh)
  }

  lemma HalfMergedPages(pages: Pages, pages2: Pages, t: Tree, root: int, g: int, index: nat, p: int, neigh: int,
          leaves2: seq<int>)
    requires HalfMerged(pages, pages2, t, p, neigh, index, leaves2) && g in t && neigh != g && index < |t[g].keys|
      && |t[p].keys| > 0
    requires |t[g].keys| == |t[g].rids| >= 2
    ensures g in pages2 && neigh in pages2 && |pages2[g].keys| == |t[g].keys| && |pages2[neigh].keys| > 0
      && pages2.Keys == pages.Keys
    ensures |pages2[g].keys| == |pages2[g].rids| && |ErasePair(pages2[g], 0).keys| > 0
    ensures index == 0 ==> pages2[neigh].keys[0] == MergedKey(t, g, index, p)
  {
    var u := t[neigh := Joined(t[LeftOf(index, p, neigh)], t[RightOf(index, p, neigh)])];
    assert u[g] == t[g] && neigh in u;
  }

  lemma CountedLess(pages: Pages, pages': Pages, t: Tree, t': Tree, numPages: int, nextPageNo: int)
    requires Counted(pages, t, numPages, nextPageNo, 0) && pages'.Keys == pages.Keys && |t'| == |t| - 1
    ensures Counted(pages', t', numPages - 1, nextPageNo, 0)
  {
    assert forall x :: x in pages' ==> x in pages;
  }

  // All that the end of a merge needs and gives.
  lemma MergeStep(pages: Pages, pages2: Pages, t: Tree, root: int, numPages: int, nextPageNo: int, maxSize: nat,
          p: int, leaves: seq<int>, contents: map<Key, Rid>,
                  g: int, index: nat, neigh: int, at: nat)
    requires Siblings(pages, t, root, numPages, nextPageNo, maxSize, p, leaves, contents, g, index, neigh)
    requires LeafPair(t, leaves, p, neigh, index, at) && neigh in t && |t[p].keys| + |t[neigh].keys| < maxSize / 2 * 2
    requires HalfMerged(pages, pages2, t, p, neigh, index, LeavesAfterMerge(t[p], leaves, at, index))
    ensures g in t && root in t && index < |t[g].keys| && |t[g].keys| == |t[g].rids| >= 2 && |t[p].keys| > 0
      && neigh != g
    ensures g in pages2 && neigh in pages2 && |pages2[g].keys| >= 2 && |pages2[neigh].keys| > 0
      && |ErasePair(pages2[g], 0).keys| > 0
    ensures index == 0 ==> pages2[neigh].keys[0] == MergedKey(t, g, index, p)
    ensures var t' := Coalesced(t, g, index, p, neigh);
            && t'.Keys == t.Keys - {p} && g in t' && t'[g].h == t[p].h + 1 && root in t'
              && t'[root].h == t[root].h >= t'[g].h
            && Shrunk(pages2[g := ParentEdited(pages2[g], index, MergedKey(t, g, index, p))], t', root, numPages - 1,
              nextPageNo, maxSize, g,
                      LeavesAfterMerge(t[p], leaves, at, index), contents)
  {
    hide *;
    PairAt(t, leaves, p, neigh, index, at);
    SiblingFacts(pages, t, root, numPages, nextPageNo, maxSize, p, leaves, contents, g, index, neigh);
    LaidStored(pages, t, root, leaves);
    var leaves2, k0 := LeavesAfterMerge(t[p], leaves, at, index), MergedKey(t, g, index, p);
    HalfMergedPages(pages, pages2, t, root, g, index, p, neigh, leaves2);
    MergeSound(t, root, maxSize, leaves, contents, g, index, p, neigh, at);
    MergeLaid(pages, pages2, t, root, g, index, p, neigh, leaves2);
    Sides(index, p, neigh);
    MergeCount(t, g, LeftSlot(index), LeftOf(index, p, neigh), RightOf(index, p, neigh), k0, p, neigh, root);
    CoalescedIs(t, g, index, p, neigh);
    var t', pages3 := Coalesced(t, g, index, p, neigh), pages2[g := ParentEdited(pages2[g], index, k0)];
    CountedLess(pages, pages3, t, t', numPages, nextPageNo);
    IntroWhole(pages3, t', root, numPages - 1, nextPageNo, maxSize, g, leaves2, contents);
    IntroShrunk(pages3, t', root, numPages - 1, nextPageNo, maxSize, g, leaves2, contents);
  }

  lemma Sides(index: nat, p: int, neigh: int)
    ensures if index == 0 then LeftOf(index, p, neigh) == p && RightOf(index, p, neigh) == neigh
            else LeftOf(index, p, neigh) == neigh && RightOf(index, p, neigh) == p
    ensures LeftSlot(index) == if index == 0 then 0 else index - 1
  {
  }

  lemma CoalescedIs(t: Tree, g: int, index: nat, p: int, neigh: int)
    requires p in t && neigh in t && g in t && index < |t[g].keys| && |t[g].keys| == |t[g].rids| >= 2 && |t[p].keys| > 0
    ensures Coalesced(t, g, index, p, neigh) == Merge(t, g, LeftSlot(index), LeftOf(index, p, neigh),
      RightOf(index, p, neigh), MergedKey(t, g, index, p), neigh)
  {
  }

  lemma IntroShrunk(pages: Pages, t: Tree, root: int, numPages: int, nextPageNo: int, maxSize: nat, p: int,
          leaves: seq<int>, contents: map<Key, Rid>)
    requires Whole(pages, t, root, numPages, nextPageNo, maxSize, p, leaves, contents) && p in t
      && Short(t[p], p == root, maxSize)
    ensures Shrunk(pages, t, root, numPages, nextPageNo, maxSize, p, leaves, contents)
  {
    hide Whole;
  }

  lemma EndsAfterMerge(n: TNode, leaves: seq<int>, at: nat, index: nat, p: int, neigh: int, first: int, last: int)
    requires Distinct(leaves) && n.h == 0 && at + 1 < |leaves| && leaves[at] == LeftOf(index, p, neigh)
      && leaves[at + 1] == RightOf(index, p, neigh)
    requires Ends(leaves, first, last)
    ensures Ends(LeavesAfterMerge(n, leaves, at, index), if index == 0
      && first == p then neigh else first, if index > 0 && last == p then neigh else last)
  {
  }

  // ---------------------------------------------------------------- redistribution

  // The neighbour gives its nearest entry to p.
  ghost function Passed(pages: Pages, p: int, neigh: int, index: nat): Pages
    requires p in pages && neigh in pages && |pages[neigh].keys| == |pages[neigh].rids| > 0
  {
    var n, m := pages[p], pages[neigh];
    var from := if index == 0 then 0 else |m.keys| - 1;
    pages[p := InsertPair(n, if index == 0 then |n.keys| else 0, m.keys[from], m.rids[from])][neigh := ErasePair(m,
      from)]
  }

  ghost function Shared(t: Tree, l: int, r: int, m: nat): Tree
    requires l in t && r in t && |t[l].keys| == |t[l].rids| && |t[r].keys| == |t[r].rids|
      && m < |t[l].keys| + |t[r].keys|
  {
    var n := Joined(t[l], t[r]);
    t[l := LeftHalf(n, m)][r := RightHalf(n, m)]
  }

  lemma EntriesPassed(n: Node, m: Node, index: nat, l: TNode, r: TNode)
    requires |n.keys| == |n.rids| > 0 && |m.keys| == |m.rids| >= 2
    requires if index == 0 then l.keys == n.keys && l.rids == n.rids && r.keys == m.keys && r.rids == m.rids
             else l.keys == m.keys && l.rids == m.rids && r.keys == n.keys && r.rids == n.rids
    ensures var from := if index == 0 then 0 else |m.keys| - 1;
            var n' := InsertPair(n, if index == 0 then |n.keys| else 0, m.keys[from], m.rids[from]);
            var m' := ErasePair(m, from);
            var j := Joined(l, r);
            var b := NewBorder(l, index == 0);
            && n' == n.(keys := n'.keys, rids := n'.rids) && m' == m.(keys := m'.keys, rids := m'.rids)
            && n'.keys == (if index == 0 then LeftHalf(j, b) else RightHalf(j, b)).keys
            && n'.rids == (if index == 0 then LeftHalf(j, b) else RightHalf(j, b)).rids
            && m'.keys == (if index == 0 then RightHalf(j, b) else LeftHalf(j, b)).keys
            && m'.rids == (if index == 0 then RightHalf(j, b) else LeftHalf(j, b)).rids
            && j.keys[b] == (if index == 0 then m'.keys[0] else n'.keys[0])
            && |n'.keys| == |n.keys| + 1 && |m'.keys| > 0
            && n'.rids[if index == 0 then |n.keys| else 0].pageNo == MovedKid(l, r, index == 0)
  {
  }

  lemma PassedStored(pages: Pages, t: Tree, p: int, neigh: int, index: nat)
    requires Stored(pages, t) && p in t && neigh in t && p != neigh && t[p].h == t[neigh].h
    requires |t[p].keys| == |t[p].rids| > 0 && |t[neigh].keys| == |t[neigh].rids| >= 2
    ensures p in pages && neigh in pages && |pages[neigh].keys| == |pages[neigh].rids| > 0
    ensures var l, r := LeftOf(index, p, neigh), RightOf(index, p, neigh);
            var b := NewBorder(t[l], index == 0);
            var pages1 := Passed(pages, p, neigh, index);
            && Stored(pages1, Shared(t, l, r, b)) && SameButEntries(pages, pages1)
            && Joined(t[l], t[r]).keys[b] == pages1[RightOf(index, p, neigh)].keys[0]
            && |pages1[p].keys| == |pages[p].keys| + 1 == |pages1[p].rids| && |pages1[neigh].keys| > 0
            && pages1[p].isLeaf == (t[p].h == 0)
            && pages1[p].rids[if index == 0 then |pages[p].keys| else 0].pageNo == MovedKid(t[l], t[r], index == 0)
  {
    var l, r := LeftOf(index, p, neigh), RightOf(index, p, neigh);
    assert pages[p].keys == t[p].keys && pages[p].rids == t[p].rids && pages[neigh].keys == t[neigh].keys
      && pages[neigh].rids == t[neigh].rids;
    assert pages[p].isLeaf == (t[p].h == 0) && pages[neigh].isLeaf == (t[neigh].h == 0);
    EntriesPassed(pages[p], pages[neigh], index, t[l], t[r]);
  }

  // The page of the entry that changed hands learns of its new parent.
  lemma KidPassed(pages: Pages, pages1: Pages, t: Tree, root: int, p: int, neigh: int, index: nat, c: int)
    requires p in t && neigh in t && t[p].h == t[neigh].h && |t[p].rids| == |t[p].keys| > 0
      && |t[neigh].rids| == |t[neigh].keys| > 0
    requires SameButEntries(pages, pages1) && c == MovedKid(t[LeftOf(index, p, neigh)], t[RightOf(index, p, neigh)],
      index == 0)
    requires t.Keys <= pages.Keys && Shape(t, root)
    ensures t[p].h > 0 ==> c in pages1
    ensures var pages2 := if t[p].h == 0 then pages1 else WithParent(pages1, c, p);
            && SameButParents(pages1, pages2) && pages2.Keys == pages1.Keys
            && ParentMap(pages2) == if t[p].h == 0 then ParentMap(pages) else ParentMap(pages)[c := p]
  {
    SameButEntriesMaps(pages, pages1);
    if t[p].h > 0 {
      KidBelow(t, root, neigh, if index == 0 then 0 else |t[neigh].rids| - 1);
      ParentMapUpdate(pages1, c, pages1[c].(parent := p));
    }
  }

  lemma SharedRebalance(pages2: Pages, t: Tree, g: int, i: nat, l: int, r: int, b: nat)
    requires l in t && r in t && g in t && i + 1 < |t[g].keys| && g != l && g != r
    requires |t[l].keys| == |t[l].rids| && |t[r].keys| == |t[r].rids| && b < |t[l].keys| + |t[r].keys|
    requires Stored(pages2, Shared(t, l, r, b))
    ensures g in pages2 && pages2[g].keys == t[g].keys && pages2[g].rids == t[g].rids
    ensures Stored(pages2[g := SetKey(pages2[g], i + 1, Joined(t[l], t[r]).keys[b])], Rebalance(t, g, i, l, r, b))
  {
    assert Shared(t, l, r, b)[g] == t[g];
  }

  lemma BorderOk(t: Tree, root: int, g: int, index: nat, p: int, neigh: int, maxSize: nat)
    requires p in t && neigh in t && g in t && index < |t[g].keys| && |t[g].keys| == |t[g].rids| >= 2
      && |t[p].keys| > 0 && t[p].Ok() && t[neigh].Ok() && t[g].h > 0
    requires p != g && neigh != g
    requires CanMerge(t, g, LeftSlot(index), LeftOf(index, p, neigh), RightOf(index, p, neigh),
      MergedKey(t, g, index, p), neigh)
    requires |t[p].keys| < maxSize / 2 <= |t[neigh].keys| < maxSize && |t[p].keys| + 1 >= maxSize / 2
    requires |t[p].keys| + |t[neigh].keys| >= maxSize / 2 * 2
    ensures var l, r := LeftOf(index, p, neigh), RightOf(index, p, neigh);
            && |t[l].keys| > 0 && |t[l].keys| == |t[l].rids| && |t[r].keys| == |t[r].rids| > 0 && |t[neigh].keys| >= 2
            && var b := NewBorder(t[l], index == 0);
            && CanBalance(t, root, g, LeftSlot(index), l, r, b) && l != g && r != g && LeftSlot(index) + 1 < |t[g].keys|
            && maxSize / 2 <= b < maxSize && maxSize / 2 <= |t[l].keys| + |t[r].keys| - b < maxSize
  {
  }

  // The tree after the redistribution at entry index of g.
  ghost function Redistributed(t: Tree, g: int, index: nat, p: int, neigh: int): Tree
    requires p in t && neigh in t && g in t && index < |t[g].keys| && |t[g].keys| >= 2
    requires |t[p].keys| == |t[p].rids| > 0 && |t[neigh].keys| == |t[neigh].rids| >= 2
  {
    Rebalance(t, g, LeftSlot(index), LeftOf(index, p, neigh), RightOf(index, p, neigh),
      NewBorder(t[LeftOf(index, p, neigh)], index == 0))
  }

  lemma BalanceSound(t: Tree, root: int, maxSize: nat, leaves: seq<int>, contents: map<Key, Rid>, g: int, i: nat,
          l: int, r: int, toLeft: bool, at: nat, p: int, par: map<int, int>)
    requires g in t && l in t && r in t && |t[l].keys| > 0 && |t[r].rids| > 0
    requires CanBalance(t, root, g, i, l, r, NewBorder(t[l], toLeft)) && (p == l || p == r)
    requires maxSize / 2 <= NewBorder(t[l], toLeft) < maxSize
      && maxSize / 2 <= |t[l].keys| + |t[r].keys| - NewBorder(t[l], toLeft) < maxSize
    requires t[l].h == 0 ==> at < |leaves| && leaves[at] == l
    requires Sound(t, root, maxSize, p, leaves, contents) && Parents(t, root, par)
    ensures Sound(Rebalance(t, g, i, l, r, NewBorder(t[l], toLeft)), root, maxSize, NO_PAGE, leaves, contents)
    ensures |t[l].rids| > 0
    ensures Parents(Rebalance(t, g, i, l, r, NewBorder(t[l], toLeft)), root, if t[l].h == 0 then par
      else par[MovedKid(t[l], t[r], toLeft) := if toLeft then l else r])
  {
    hide Shape, Sized, Chain, Holds, Parents, Rebalance;
    var m := NewBorder(t[l], toLeft);
    RebalanceShape(t, root, g, i, l, r, m);
    RebalanceHolds(t, root, g, i, l, r, m, contents);
    RebalanceChain(t, root, g, i, l, r, m, leaves, at);
    RebalanceSized(t, root, g, i, l, r, m, maxSize, p);
    RebalanceParents(t, root, g, i, l, r, toLeft, par);
  }

  lemma SameCount(pages: Pages, pages': Pages, t: Tree, t': Tree, numPages: int, nextPageNo: int)
    requires Counted(pages, t, numPages, nextPageNo, 0) && pages'.Keys == pages.Keys && t'.Keys == t.Keys
    ensures Counted(pages', t', numPages, nextPageNo, 0)
  {
    assert |t'.Keys| == |t'| && |t.Keys| == |t|;
    assert forall x :: x in pages' ==> x in pages;
  }

  lemma RebalanceKeys(t: Tree, g: int, i: nat, l: int, r: int, m: nat)
    requires l in t && r in t && g in t && i + 1 < |t[g].keys|
    requires |t[l].keys| == |t[l].rids| && |t[r].keys| == |t[r].rids| && m < |t[l].keys| + |t[r].keys|
    ensures Rebalance(t, g, i, l, r, m).Keys == t.Keys
  {
  }

  // The pages after an entry has changed hands, but for the separator.
  ghost predicate HalfBalanced(pages: Pages, pages2: Pages, t: Tree, p: int, neigh: int, index: nat) {
    && p in t && neigh in t && |t[p].keys| == |t[p].rids| > 0 && |t[neigh].keys| == |t[neigh].rids| >= 2
    && var l, r := LeftOf(index, p, neigh), RightOf(index, p, neigh);
    && Stored(pages2, Shared(t, l, r, NewBorder(t[l], index == 0)))
    && ParentMap(pages2) == (if t[p].h == 0 then ParentMap(pages)
      else ParentMap(pages)[MovedKid(t[l], t[r], index == 0) := p])
    && NextMap(pages2) == NextMap(pages) && PrevMap(pages2) == PrevMap(pages) && pages2.Keys == pages.Keys
  }

  // Where the separator's new value is read.
  lemma HalfBalancedRead(pages: Pages, pages2: Pages, t: Tree, p: int, neigh: int, index: nat, g: int)
    requires HalfBalanced(pages, pages2, t, p, neigh, index) && p != neigh && g in t && g != p && g != neigh
    ensures p in pages2 && neigh in pages2 && |pages2[p].keys| > 0 && |pages2[neigh].keys| > 0
    ensures g in pages2 && pages2[g].keys == t[g].keys && pages2[g].rids == t[g].rids
    ensures var l, r := LeftOf(index, p, neigh), RightOf(index, p, neigh);
            Joined(t[l], t[r]).keys[NewBorder(t[l], index == 0)] == pages2[r].keys[0]
  {
    var l, r := LeftOf(index, p, neigh), RightOf(index, p, neigh);
    assert Shared(t, l, r, NewBorder(t[l], index == 0))[g] == t[g];
  }

  // All that handing an entry over needs and gives.
  lemma PassStep(pages: Pages, t: Tree, root: int, numPages: int, nextPageNo: int, maxSize: nat, p: int,
          leaves: seq<int>, contents: map<Key, Rid>,
                 g: int, index: nat, neigh: int)
    requires Siblings(pages, t, root, numPages, nextPageNo, maxSize, p, leaves, contents, g, index, neigh)
    requires neigh in t && |t[p].keys| + |t[neigh].keys| >= maxSize / 2 * 2
    ensures p in pages && neigh in pages && p != neigh && |pages[neigh].keys| == |pages[neigh].rids| > 0
      && |pages[p].keys| == |pages[p].rids|
    ensures var pages1 := Passed(pages, p, neigh, index);
            var slot := if index == 0 then |pages[p].keys| else 0;
            && p in pages1 && slot < |pages1[p].rids| && |pages1[p].keys| == |pages[p].keys| + 1
            && pages1[p].isLeaf == (t[p].h == 0) && (!pages1[p].isLeaf ==> pages1[p].rids[slot].pageNo in pages1)
            && HalfBalanced(pages, if pages1[p].isLeaf then pages1
              else WithParent(pages1, pages1[p].rids[slot].pageNo, p), t, p, neigh, index)
  {
    hide *;
    SiblingFacts(pages, t, root, numPages, nextPageNo, maxSize, p, leaves, contents, g, index, neigh);
    LaidStored(pages, t, root, leaves);
    Sides(index, p, neigh);
    BorderOk(t, root, g, index, p, neigh, maxSize);
    var pages1 := Passed(pages, p, neigh, index);
    var l, r := LeftOf(index, p, neigh), RightOf(index, p, neigh);
    var b := NewBorder(t[l], index == 0);
    PassedStored(pages, t, p, neigh, index);
    var c := MovedKid(t[l], t[r], index == 0);
    KidPassed(pages, pages1, t, root, p, neigh, index, c);
    SameButEntriesMaps(pages, pages1);
    var pages2 := if t[p].h == 0 then pages1 else WithParent(pages1, c, p);
    SameButParentsKeeps(pages1, pages2, Shared(t, l, r, b));
    IntroHalfBalanced(pages, pages2, t, p, neigh, index);
  }

  lemma IntroHalfBalanced(pages: Pages, pages2: Pages, t: Tree, p: int, neigh: int, index: nat)
    requires p in t && neigh in t && |t[p].keys| == |t[p].rids| > 0 && |t[neigh].keys| == |t[neigh].rids| >= 2
    requires Stored(pages2, Shared(t, LeftOf(index, p, neigh), RightOf(index, p, neigh),
      NewBorder(t[LeftOf(index, p, neigh)], index == 0)))
    requires ParentMap(pages2) == (if t[p].h == 0 then ParentMap(pages) else
                                     ParentMap(pages)[MovedKid(t[LeftOf(index, p, neigh)], t[RightOf(index, p, neigh)],
                                       index == 0) := p])
    requires NextMap(pages2) == NextMap(pages) && PrevMap(pages2) == PrevMap(pages) && pages2.Keys == pages.Keys
    ensures HalfBalanced(pages, pages2, t, p, neigh, index)
  {
  }

  function SeparatorSlot(index: nat): nat {
    if index == 0 then 1 else index
  }

  lemma SlotIs(index: nat)
    ensures SeparatorSlot(index) == if index == 0 then 1 else index
  {
  }

  lemma BalanceLaid(pages: Pages, pages2: Pages, t: Tree, root: int, g: int, index: nat, p: int, neigh: int,
          leaves: seq<int>)
    requires p in t && neigh in t && g in t && index < |t[g].keys| && |t[g].keys| >= 2 && p != neigh && g != p
      && g != neigh && t[neigh].h == t[p].h
    requires |t[p].keys| == |t[p].rids| > 0 && |t[neigh].keys| == |t[neigh].rids| >= 2
    requires HalfBalanced(pages, pages2, t, p, neigh, index) && Linked(NextMap(pages), PrevMap(pages), leaves)
    requires Parents(Redistributed(t, g, index, p, neigh), root,
                     if t[p].h == 0 then ParentMap(pages) else ParentMap(pages)[MovedKid(t[LeftOf(index, p, neigh)],
                       t[RightOf(index, p, neigh)], index == 0) := p])
    ensures g in pages2 && RightOf(index, p, neigh) in pages2 && |pages2[RightOf(index, p, neigh)].keys| > 0
      && SeparatorSlot(index) < |pages2[g].keys|
    ensures Laid(pages2[g := SetKey(pages2[g], SeparatorSlot(index), pages2[RightOf(index, p, neigh)].keys[0])],
      Redistributed(t, g, index, p, neigh), root, leaves)
    ensures pages2.Keys == pages.Keys
  {
    HalfBalancedRead(pages, pages2, t, p, neigh, index, g);
    var l, r := LeftOf(index, p, neigh), RightOf(index, p, neigh);
    hide Parents, Linked, ParentMap, NextMap, PrevMap, Stored, MovedKid, Rebalance, Joined, Shared;
    SharedRebalance(pages2, t, g, LeftSlot(index), l, r, NewBorder(t[l], index == 0));
    EntriesChanged(pages2, g, SetKey(pages2[g], SeparatorSlot(index), pages2[r].keys[0]));
  }

  // All that the end of a redistribution needs and gives.
  lemma BalanceStep(pages: Pages, pages2: Pages, t: Tree, root: int, numPages: int, nextPageNo: int, maxSize: nat,
          p: int, leaves: seq<int>, contents: map<Key, Rid>,
                    g: int, index: nat, neigh: int)
    requires Siblings(pages, t, root, numPages, nextPageNo, maxSize, p, leaves, contents, g, index, neigh)
    requires neigh in t && |t[p].keys| + |t[neigh].keys| >= maxSize / 2 * 2
    requires HalfBalanced(pages, pages2, t, p, neigh, index)
    ensures g in pages2 && p in pages2 && neigh in pages2 && |pages2[p].keys| > 0 && |pages2[neigh].keys| > 0
    ensures |pages2[g].keys| == |pages2[g].rids| && SeparatorSlot(index) < |pages2[g].keys|
    ensures index == 0 ==> exists i :: 0 <= i < |pages2[g].rids| && pages2[g].rids[i].pageNo == neigh
    ensures index == 0 ==> forall i :: 0 <= i < |pages2[g].rids| && pages2[g].rids[i].pageNo == neigh ==> i == 1
    ensures g in t && index < |t[g].keys| && |t[g].keys| >= 2 && |t[p].keys| == |t[p].rids| > 0
      && |t[neigh].keys| == |t[neigh].rids| >= 2
    ensures Whole(pages2[g := SetKey(pages2[g], SeparatorSlot(index),
      (if index == 0 then pages2[neigh] else pages2[p]).keys[0])],
                  Redistributed(t, g, index, p, neigh), root, numPages, nextPageNo, maxSize, NO_PAGE, leaves, contents)
    ensures Redistributed(t, g, index, p, neigh).Keys == t.Keys
  {
    hide *;
    SiblingFacts(pages, t, root, numPages, nextPageNo, maxSize, p, leaves, contents, g, index, neigh);
    LaidStored(pages, t, root, leaves);
    Sides(index, p, neigh);
    BorderOk(t, root, g, index, p, neigh, maxSize);
    ChainOf(t, root, maxSize, p, leaves, contents);
    var at := FindLeafPair(t, root, leaves, g, index, p, neigh);
    PairAtLeft(t, leaves, p, neigh, index, at);
    var l, r := LeftOf(index, p, neigh), RightOf(index, p, neigh);
    BalanceSound(t, root, maxSize, leaves, contents, g, LeftSlot(index), l, r, index == 0, at, p, ParentMap(pages));
    RedistributedIs(t, g, index, p, neigh);
    RebalanceKeys(t, g, LeftSlot(index), l, r, NewBorder(t[l], index == 0));
    HalfBalancedRead(pages, pages2, t, p, neigh, index, g);
    BalanceLaid(pages, pages2, t, root, g, index, p, neigh, leaves);
    if index == 0 {
      OnlySlot(t, root, g, 1);
    }
    var pages3 := pages2[g := SetKey(pages2[g], SeparatorSlot(index), pages2[r].keys[0])];
    SameCount(pages, pages3, t, Redistributed(t, g, index, p, neigh), numPages, nextPageNo);
    IntroWhole(pages3, Redistributed(t, g, index, p, neigh), root, numPages, nextPageNo, maxSize, NO_PAGE, leaves,
      contents);
  }

  lemma ChainOf(t: Tree, root: int, maxSize: nat, p: int, leaves: seq<int>, contents: map<Key, Rid>)
    requires Sound(t, root, maxSize, p, leaves, contents)
    ensures Chain(t, leaves)
  {
    hide Shape, Sized, Holds, Chain;
  }

  lemma PairAtLeft(t: Tree, leaves: seq<int>, p: int, neigh: int, index: nat, at: nat)
    requires LeafPair(t, leaves, p, neigh, index, at)
    ensures p in t && (t[p].h == 0 ==>
      at + 1 < |leaves| && leaves[at] == LeftOf(index, p, neigh))
  {
  }

  lemma RedistributedIs(t: Tree, g: int, index: nat, p: int, neigh: int)
    requires p in t && neigh in t && g in t && index < |t[g].keys| && |t[g].keys| >= 2
    requires |t[p].keys| == |t[p].rids| > 0 && |t[neigh].keys| == |t[neigh].rids| >= 2
    ensures Redistributed(t, g, index, p, neigh) ==
            Rebalance(t, g, LeftSlot(index), LeftOf(index, p, neigh), RightOf(index, p, neigh),
              NewBorder(t[LeftOf(index, p, neigh)], index == 0))
  {
  }

  // The slot that names a kid is unique.
  lemma OnlySlot(t: Tree, root: int, g: int, i: nat)
    requires Shape(t, root) && g in t && t[g].h > 0 && i < |t[g].rids|
    ensures forall j :: 0 <= j < |t[g].rids| && t[g].rids[j].pageNo == t[g].rids[i].pageNo ==> j == i
  {
    forall j | 0 <= j < |t[g].rids| && t[g].rids[j].pageNo == t[g].rids[i].pageNo ensures j == i {
      if j != i {
        SiblingsDiffer(t, root, g, i, j);
      }
    }
  }

  // ---------------------------------------------------------------- the root

  ghost function Lowered(pages: Pages, root: int, c: int): Pages
    requires root in pages && c in pages && c != root
  {
    pages[root := ErasePair(pages[root], 0)][c := pages[c].(parent := NO_PAGE)]
  }

  lemma LoweredLaid(pages: Pages, t: Tree, root: int, leaves: seq<int>, c: int)
    requires root in t && root in pages && c in t && c in pages && c != root
      && |pages[root].keys| == |pages[root].rids| == 1
    requires Stored(pages, t) && Linked(NextMap(pages), PrevMap(pages), leaves)
      && Parents(t - {root}, c, ParentMap(pages)[c := -1])
    ensures Laid(Lowered(pages, root, c), t - {root}, c, leaves) && Lowered(pages, root, c).Keys == pages.Keys
  {
    var n := ErasePair(pages[root], 0);
    EntryErased(pages[root], 0);
    hide Parents, Linked, ParentMap, NextMap, PrevMap;
    EntriesChanged(pages, root, n);
    ParentMapUpdate(pages[root := n], c, pages[c].(parent := NO_PAGE));
    SameLinks(pages[root := n], c, pages[c].(parent := NO_PAGE));
  }

  lemma LowerCount(pages: Pages, pages': Pages, t: Tree, root: int, numPages: int, nextPageNo: int)
    requires Counted(pages, t, numPages, nextPageNo, 0) && pages'.Keys == pages.Keys && root in t
    ensures Counted(pages', t - {root}, numPages - 1, nextPageNo, 0)
  {
    var t' := t - {root};
    assert t'.Keys == t.Keys - {root};
    assert |t'.Keys| == |t'| && |t.Keys| == |t|;
    CountedLess(pages, pages', t, t', numPages, nextPageNo);
  }

  lemma DropRootSound(t: Tree, root: int, par: map<int, int>, maxSize: nat, leaves: seq<int>, contents: map<Key, Rid>)
    requires Sound(t, root, maxSize, root, leaves, contents) && Parents(t, root, par) && root in t && t[root].h > 0
      && |t[root].keys| == 1
    ensures |t[root].rids| == 1 && var c := t[root].rids[0].pageNo;
      c in t && c != root && Sound(t - {root}, c, maxSize, NO_PAGE, leaves, contents)
        && Parents(t - {root}, c, par[c := -1])
  {
    hide Shape, Sized, Chain, Holds, Parents;
    DropRoot(t, root, par, maxSize, leaves, contents);
  }

  // A root with a single kid gives way to that kid.
  lemma LowerStep(pages: Pages, t: Tree, root: int, numPages: int, nextPageNo: int, maxSize: nat, leaves: seq<int>,
          contents: map<Key, Rid>)
    requires Shrunk(pages, t, root, numPages, nextPageNo, maxSize, root, leaves, contents)
    ensures root in pages && |pages[root].keys| == |pages[root].rids| && root in t
    ensures !pages[root].isLeaf && |pages[root].keys| == 1 ==>
              && var c := pages[root].rids[0].pageNo;
              && c in pages && c != root
              && Whole(Lowered(pages, root, c), t - {root}, c, numPages - 1, nextPageNo, maxSize, NO_PAGE, leaves,
                contents)
    ensures pages[root].isLeaf || |pages[root].keys| != 1 ==> Whole(pages, t, root, numPages, nextPageNo, maxSize,
      NO_PAGE, leaves, contents)
  {
    hide *;
    Parts(pages, t, root, numPages, nextPageNo, maxSize, root, leaves, contents);
    NodePage(pages, t, root, leaves, root);
    LaidStored(pages, t, root, leaves);
    if !pages[root].isLeaf && |pages[root].keys| == 1 {
      DropRootSound(t, root, ParentMap(pages), maxSize, leaves, contents);
      var c := pages[root].rids[0].pageNo;
      LoweredLaid(pages, t, root, leaves, c);
      LowerCount(pages, Lowered(pages, root, c), t, root, numPages, nextPageNo);
      IntroWhole(Lowered(pages, root, c), t - {root}, c, numPages - 1, nextPageNo, maxSize, NO_PAGE, leaves, contents);
    } else {
      RootFits(t[root], maxSize);
      FitsAll(t, root, maxSize, root, leaves, contents);
      IntroWhole(pages, t, root, numPages, nextPageNo, maxSize, NO_PAGE, leaves, contents);
    }
  }

  lemma RootFits(n: TNode, maxSize: nat)
    requires Short(n, true, maxSize) && (n.h == 0 || |n.keys| != 1)
    ensures Fits(n, true, maxSize)
  {
  }
}
