/**
 The two halves of the index invariant, `Sound` for the logical tree and `Laid` for the
 pages, and what each page-level step does to them.
 */
module IndexState {
  import opened RecordIds
  import opened IndexTree
  import opened IndexTreeSplit
  import opened IndexNode
  import opened IndexPages

  // A well-formed tree holding exactly the given entries; the size of node exc is open.
  ghost predicate Sound(t: Tree, root: int, maxSize: nat, exc: int, leaves: seq<int>, contents: map<Key, Rid>) {
    && maxSize >= 4 && Shape(t, root) && Sized(t, root, maxSize, exc) && Chain(t, leaves) && Holds(t, contents)
  }

  // The pages present the tree: contents, parent pointers, leaf list.
  ghost predicate Laid(pages: Pages, t: Tree, root: int, leaves: seq<int>) {
    Stored(pages, t) && Parents(t, root, ParentMap(pages)) && Linked(NextMap(pages), PrevMap(pages), leaves)
  }

  // The page numbers in use; extra pages are allocated but not yet in the tree.
  ghost predicate Counted(pages: Pages, t: Tree, numPages: int, nextPageNo: int, extra: nat) {
    && numPages == 2 + |t| + extra
    && nextPageNo > 2 && (forall p :: p in pages ==> p < nextPageNo)
  }

  // The whole index but for the size of node exc.
  ghost predicate Whole(pages: Pages, t: Tree, root: int, numPages: int, nextPageNo: int, maxSize: nat, exc: int,
          leaves: seq<int>, contents: map<Key, Rid>) {
    Sound(t, root, maxSize, exc, leaves, contents) && Laid(pages, t, root, leaves)
      && Counted(pages, t, numPages, nextPageNo, 0)
  }

  function LeavesAfterSplit(n: TNode, leaves: seq<int>, at: nat, q: int): seq<int>
    requires n.h == 0 ==> at < |leaves|
  {
    if n.h == 0 then InsertAt(leaves, at + 1, q) else leaves
  }

  // Node p has been split at m on the pages, but its parent does not know the new page q yet.
  ghost predicate MidSplit(pages: Pages, t: Tree, root: int, leaves: seq<int>, p: int, q: int, m: nat, at: nat,
          par: map<int, int>) {
    && p in t && q !in t && p in par && 1 <= m < |t[p].keys| && |t[p].keys| == |t[p].rids|
    && (t[p].h == 0 ==> at < |leaves| && leaves[at] == p)
    && Stored(pages, Halves(t, p, q, m)) && Parents(t, root, par)
    && ParentMap(pages) == Adopt(par, MovedKids(t[p], m), q)[q := par[p]]
    && Linked(NextMap(pages), PrevMap(pages), LeavesAfterSplit(t[p], leaves, at, q))
  }

  // ---------------------------------------------------------------- reading

  lemma NodePage(pages: Pages, t: Tree, root: int, leaves: seq<int>, p: int)
    requires Shape(t, root) && Laid(pages, t, root, leaves) && p in t
    ensures t.Keys <= pages.Keys && p >= 2 && t[p].Ok()
    ensures p in pages && pages[p].keys == t[p].keys && pages[p].rids == t[p].rids && pages[p].isLeaf == (t[p].h == 0)
    ensures |pages[p].keys| == |pages[p].rids|
    ensures pages[p].parent == NO_PAGE <==> p == root
  {
    assert forall x :: x in t ==> x in pages;
    assert ParentMap(pages)[p] == pages[p].parent;
  }

  lemma NodePageSize(pages: Pages, t: Tree, root: int, leaves: seq<int>, maxSize: nat, exc: int,
          contents: map<Key, Rid>, p: int)
    requires Sound(t, root, maxSize, exc, leaves, contents) && Laid(pages, t, root, leaves) && p in t
    ensures p in pages && |pages[p].keys| == |t[p].keys|
  {
    hide Shape, Sized, Chain, Holds, Laid;
    NodePage(pages, t, root, leaves, p);
  }

  // The parent of a page, and the slot that names the page there.
  lemma ParentPage(pages: Pages, t: Tree, root: int, leaves: seq<int>, p: int)
    requires Shape(t, root) && Laid(pages, t, root, leaves) && p in t && p != root
    ensures p in pages && pages[p].parent in t && pages[p].parent in pages
    ensures var g := pages[p].parent;
            && t[g].h == t[p].h + 1 && |pages[g].keys| == |pages[g].rids|
            && exists i :: 0 <= i < |pages[g].rids| && pages[g].rids[i].pageNo == p
  {
    var g := pages[p].parent;
    assert ParentMap(pages)[p] == g;
    var i :| 0 <= i < |t[g].rids| && t[g].Kid(i) == p;
    assert pages[g].rids[i].pageNo == p;
    KidBelow(t, root, g, i);
    assert t[g].Ok();
  }

  lemma LeafPage(pages: Pages, t: Tree, root: int, leaves: seq<int>, p: int)
    requires Shape(t, root) && Laid(pages, t, root, leaves) && p in t && t[p].h == 0
    ensures p in pages && |pages[p].keys| == |pages[p].rids| && pages[p].keys == t[p].keys && pages[p].rids == t[p].rids
    ensures forall i, j :: 0 <= i < j < |pages[p].keys| ==> pages[p].keys[i] < pages[p].keys[j]
  {
    NodePage(pages, t, root, leaves, p);
    assert forall i :: 0 <= i < |t[p].keys| ==> t[p].Live(i);
  }

  // ---------------------------------------------------------------- split

  lemma SplitLeafLaid(pages: Pages, t: Tree, root: int, leaves: seq<int>, p: int, q: int, m: nat, at: nat)
    requires Shape(t, root) && Chain(t, leaves) && Laid(pages, t, root, leaves)
    requires p in t && t[p].h == 0 && at < |leaves| && leaves[at] == p
    requires q !in pages && q > LEAF_HEADER_PAGE && 1 <= m < |t[p].keys|
    ensures p in pages && |pages[p].keys| == |pages[p].rids| && m < |pages[p].keys|
    ensures pages[p].nextLeaf in pages && pages[p].nextLeaf != p
    ensures MidSplit(LeafSplitPages(pages, p, q, m), t, root, leaves, p, q, m, at, ParentMap(pages))
  {
    NodePage(pages, t, root, leaves, p);
    LeafSplitStored(t, root, pages, leaves, at, q, m);
    LeafSplitMaps(pages, p, q, m);
    LeafSplitLinked(t, root, pages, leaves, at, q, m);
    AdoptNone(ParentMap(pages), q);
    hide Shape, Chain, Linked, Stored, Parents, LeafSplitPages, Halves, Adopt, NextMap, PrevMap;
  }

  // Page p is about to be split at m; pages1 shows its upper entries moved to q.
  ghost predicate Splittable(pages: Pages, pages1: Pages, t: Tree, root: int, leaves: seq<int>, p: int, q: int, m: nat,
          at: nat) {
    && Shape(t, root) && Chain(t, leaves) && Laid(pages, t, root, leaves)
    && p in t && 1 <= m < |t[p].keys| && |t[p].keys| == |t[p].rids| && q !in pages && q > LEAF_HEADER_PAGE
    && (t[p].h == 0 ==> at < |leaves| && leaves[at] == p)
    && p in pages && |pages[p].keys| == |pages[p].rids| && m <= |pages[p].keys|
    && pages1 == InnerSplitPages(pages, p, q, m) && pages1[p].isLeaf == (t[p].h == 0)
  }

  lemma SplitStart(pages: Pages, t: Tree, root: int, maxSize: nat, leaves: seq<int>, contents: map<Key, Rid>, p: int,
          q: int, at: nat)
    requires Sound(t, root, maxSize, p, leaves, contents) && Laid(pages, t, root, leaves)
    requires p in t && |t[p].keys| == maxSize && q !in pages && q > LEAF_HEADER_PAGE
    requires t[p].h == 0 ==> at < |leaves| && leaves[at] == p
    ensures p in pages && |pages[p].keys| == |pages[p].rids| && |pages[p].keys| == maxSize
    ensures var pages1 := InnerSplitPages(pages, p, q, maxSize / 2);
            p in pages1 && Splittable(pages, pages1, t, root, leaves, p, q, maxSize / 2, at)
              && pages1.Keys == pages.Keys + {q}
  {
    hide Shape, Chain, Laid, Sized, Holds;
    NodePage(pages, t, root, leaves, p);
  }

  lemma SplittableLeaf(pages: Pages, pages1: Pages, t: Tree, root: int, leaves: seq<int>, p: int, q: int, m: nat,
          at: nat)
    requires Splittable(pages, pages1, t, root, leaves, p, q, m, at) && p in pages1 && pages1[p].isLeaf
    ensures q !in pages && p in pages && m <= |pages[p].keys| && |pages[p].keys| == |pages[p].rids|
    ensures pages1 == InnerSplitPages(pages, p, q, m)
    ensures pages[p].nextLeaf in pages && pages[p].nextLeaf != p
    ensures MidSplit(LeafSplitPages(pages, p, q, m), t, root, leaves, p, q, m, at, ParentMap(pages))
  {
    SplitLeafLaid(pages, t, root, leaves, p, q, m, at);
    hide Shape, Chain, Laid, MidSplit, LeafSplitPages;
  }

  lemma SplittableInner(pages: Pages, pages1: Pages, t: Tree, root: int, leaves: seq<int>, p: int, q: int, m: nat,
          at: nat)
    requires Splittable(pages, pages1, t, root, leaves, p, q, m, at) && p in pages1 && !pages1[p].isLeaf
    ensures p in t && m <= |t[p].rids|
    ensures var kids := t[p].rids[m..];
            && q in pages1 && pages1[q].rids == kids && pages1[q].rids[0..|kids|] == kids && |pages1[q].keys| == |kids|
              && !pages1[q].isLeaf
            && (forall j :: 0 <= j < |kids| ==> pages1[q].rids[j].pageNo in pages1)
  {
    SplitInnerStart(pages, t, root, leaves, p, q, m);
    hide Shape, Chain, Laid;
  }

  lemma SplittableInnerDone(pages: Pages, pages1: Pages, pages': Pages, t: Tree, root: int, leaves: seq<int>, p: int,
          q: int, m: nat, at: nat)
    requires Splittable(pages, pages1, t, root, leaves, p, q, m, at) && p in pages1 && !pages1[p].isLeaf
    requires SameButParents(pages1, pages') && p in t && m <= |t[p].rids|
      && ParentMap(pages') == Adopt(ParentMap(pages1), t[p].rids[m..], q)
    ensures MidSplit(pages', t, root, leaves, p, q, m, at, ParentMap(pages))
  {
    assert pages1 == InnerSplitPages(pages, p, q, m);
    hide Shape, Chain, Laid, MidSplit, SameButParents, Adopt, ParentMap, InnerSplitPages;
    SplitInnerLaid(pages, pages', t, root, leaves, p, q, m, at);
  }

  lemma SplitInnerStart(pages: Pages, t: Tree, root: int, leaves: seq<int>, p: int, q: int, m: nat)
    requires Shape(t, root) && Laid(pages, t, root, leaves) && p in t && t[p].h > 0 && q !in pages && m < |t[p].keys|
    ensures p in pages && |pages[p].keys| == |pages[p].rids| && m < |pages[p].keys| && |t[p].rids| == |t[p].keys|
    ensures var pages1 := InnerSplitPages(pages, p, q, m);
            var kids := t[p].rids[m..];
            && q in pages1 && pages1[q].rids == kids && |pages1[q].keys| == |kids| && !pages1[q].isLeaf
            && (forall j :: 0 <= j < |kids| ==> kids[j].pageNo in pages1)
            && !Names(kids, q)
  {
    hide Shape, Laid;
    NodePage(pages, t, root, leaves, p);
    var kids := t[p].rids[m..];
    forall j | 0 <= j < |kids| ensures kids[j].pageNo in pages && kids[j].pageNo != q {
      KidBelow(t, root, p, m + j);
    }
  }

  lemma SplitInnerLaid(pages: Pages, pages': Pages, t: Tree, root: int, leaves: seq<int>, p: int, q: int, m: nat,
          at: nat)
    requires Shape(t, root) && Chain(t, leaves) && Laid(pages, t, root, leaves)
    requires p in t && t[p].h > 0 && q !in pages && q > LEAF_HEADER_PAGE && 1 <= m < |t[p].keys|
    requires p in pages && |pages[p].keys| == |pages[p].rids| && m < |pages[p].keys| && |t[p].rids| == |t[p].keys|
    requires SameButParents(InnerSplitPages(pages, p, q, m), pages')
    requires ParentMap(pages') == Adopt(ParentMap(InnerSplitPages(pages, p, q, m)), t[p].rids[m..], q)
    ensures MidSplit(pages', t, root, leaves, p, q, m, at, ParentMap(pages))
  {
    var pages1 := InnerSplitPages(pages, p, q, m);
    var kids := t[p].rids[m..];
    SplitInnerStart(pages, t, root, leaves, p, q, m);
    InnerSplitStored(t, root, pages, p, q, m);
    NodePage(pages, t, root, leaves, p);
    OutsideChain(t, leaves, q, pages);
    hide Shape, Chain, Linked, Stored, Parents, InnerSplitPages, Halves, Adopt, NextMap, PrevMap, SameButParents;
    SameButParentsKeeps(pages1, pages', Halves(t, p, q, m));
    LinkedElsewhere(NextMap(pages), PrevMap(pages), leaves, q, 0, 0);
    AdoptOther(ParentMap(pages), kids, q, q, pages[p].parent);
  }

  lemma OutsideChain(t: Tree, leaves: seq<int>, q: int, pages: Pages)
    requires Chain(t, leaves) && Stored(pages, t) && q !in pages
    ensures q !in leaves
  {
    assert forall j :: 0 <= j < |leaves| ==> leaves[j] in t;
  }

  // What the pages show while a split is pending.
  lemma MidPages(pages: Pages, t: Tree, root: int, leaves: seq<int>, p: int, q: int, m: nat, at: nat,
          par: map<int, int>)
    requires Shape(t, root) && MidSplit(pages, t, root, leaves, p, q, m, at, par)
    ensures t.Keys + {q} <= pages.Keys && q != p && p >= 2
    ensures pages[p].parent == par[p] && (par[p] == NO_PAGE <==> p == root)
    ensures pages[p].keys == t[p].keys[..m] && pages[q].keys == t[p].keys[m..] && pages[p].isLeaf == (t[p].h == 0)
    ensures |pages[p].keys| == |pages[p].rids| && |pages[q].keys| == |pages[q].rids|
    ensures forall x :: x in t && x != p ==>
      pages[x].keys == t[x].keys && pages[x].rids == t[x].rids && pages[x].isLeaf == (t[x].h == 0)
  {
    assert p >= 2 && (par[p] == NO_PAGE <==> p == root);
    MidParent(t, root, p, q, m, par);
    assert ParentMap(pages)[p] == par[p];
    hide Shape, Parents;
    var u := Halves(t, p, q, m);
    forall x | x in t || x == q ensures x in pages {
      assert x in u;
    }
    forall x | x in t && x != p ensures pages[x].keys == t[x].keys && pages[x].rids == t[x].rids
      && pages[x].isLeaf == (t[x].h == 0) {
      assert u[x] == t[x];
    }
    assert ParentMap(pages)[p] == pages[p].parent;
  }

  lemma MidParent(t: Tree, root: int, p: int, q: int, m: nat, par: map<int, int>)
    requires Shape(t, root) && p in t && q !in t && p in par && 1 <= m < |t[p].keys| && |t[p].keys| == |t[p].rids|
    requires Parents(t, root, par)
    ensures Adopt(par, MovedKids(t[p], m), q)[q := par[p]][p] == par[p]
  {
    if Names(MovedKids(t[p], m), p) {
      NamedKid(t, root, p, m, p);
      var j :| m <= j < |t[p].rids| && t[p].Kid(j) == p;
      KidBelow(t, root, p, j);
      assert false;
    }
  }

  // The parent of a split node and the slot of the node in it.
  lemma MidParentPage(pages: Pages, t: Tree, root: int, leaves: seq<int>, p: int, q: int, m: nat, at: nat,
          par: map<int, int>)
    requires Shape(t, root) && MidSplit(pages, t, root, leaves, p, q, m, at, par) && p != root
    ensures var g := par[p];
            && g in t && g in pages && g != p && g != q && t[g].h == t[p].h + 1 && |pages[g].keys| == |pages[g].rids|
            && pages[g].keys == t[g].keys && pages[g].rids == t[g].rids
            && exists i :: 0 <= i < |pages[g].rids| && pages[g].rids[i].pageNo == p
  {
    MidPages(pages, t, root, leaves, p, q, m, at, par);
    var g := par[p];
    var i :| 0 <= i < |t[g].rids| && t[g].Kid(i) == p;
    KidBelow(t, root, g, i);
    assert t[g].Ok();
    assert pages[g].rids[i].pageNo == p;
  }

  // ---------------------------------------------------------------- completing a split

  ghost function PagesWithKid(pages: Pages, g: int, i: nat, key: Key, q: int): Pages
    requires g in pages && q in pages
  {
    pages[g := InsertPair(pages[g], i + 1, key, Rid(q, NO_PAGE))][q := pages[q].(parent := g)]
  }

  lemma KidInserted(n: Node, i: nat, key: Key, q: int)
    requires i < |n.keys| && |n.keys| == |n.rids|
    ensures var n' := InsertPair(n, i + 1, key, Rid(q, NO_PAGE));
            && n'.keys == InsertAt(n.keys, i + 1, key) && n'.rids == InsertAt(n.rids, i + 1, Rid(q, -1))
            && n' == n.(keys := n'.keys, rids := n'.rids)
  {
  }

  lemma PagesWithKidMaps(pages: Pages, g: int, i: nat, key: Key, q: int)
    requires g in pages && q in pages && g != q && i < |pages[g].keys| && |pages[g].keys| == |pages[g].rids|
      && pages[q].parent == g
    ensures var pages' := PagesWithKid(pages, g, i, key, q);
            ParentMap(pages') == ParentMap(pages) && NextMap(pages') == NextMap(pages)
              && PrevMap(pages') == PrevMap(pages)
  {
    var n := InsertPair(pages[g], i + 1, key, Rid(q, NO_PAGE));
    KidInserted(pages[g], i, key, q);
    ParentMapUpdate(pages, g, n);
    ParentMapUpdate(pages[g := n], q, pages[q].(parent := g));
    SameLinks(pages, g, n);
    SameLinks(pages[g := n], q, pages[q].(parent := g));
    assert ParentMap(pages)[g] == pages[g].parent && ParentMap(pages)[q] == g;
  }

  lemma SplitUnderLaid(pages: Pages, t: Tree, root: int, leaves: seq<int>, p: int, q: int, m: nat, at: nat,
          par: map<int, int>, i: nat)
    requires Shape(t, root) && MidSplit(pages, t, root, leaves, p, q, m, at, par) && p != root
    requires var g := par[p]; g in t && g != p && g != q && t[g].h > 0 && i < |t[g].rids| && t[g].Kid(i) == p && q >= 2
    ensures par[p] in pages && q in pages && |t[par[p]].keys| == |t[par[p]].rids|
    ensures Laid(PagesWithKid(pages, par[p], i, t[p].keys[m], q), SplitUnder(t, par[p], i, p, q, m), root,
      LeavesAfterSplit(t[p], leaves, at, q))
  {
    var g := par[p];
    MidPages(pages, t, root, leaves, p, q, m, at, par);
    MidParentPage(pages, t, root, leaves, p, q, m, at, par);
    assert KidOk(t, g, i) && t[g].Ok() && t[p].Ok();
    SplitParents(t, root, g, i, p, q, m, par);
    assert ParentMap(pages)[q] == g;
    hide Shape, Parents, Linked, Adopt, SplitUnder, Stored, Halves, NextMap, PrevMap;
    assert pages[q].parent == g;
    PagesWithKidMaps(pages, g, i, t[p].keys[m], q);
    SplitUnderStored(pages, t, g, i, p, q, m);
  }

  lemma SameLinks(pages: Pages, x: int, n: Node)
    requires x in pages && n.nextLeaf == pages[x].nextLeaf && n.prevLeaf == pages[x].prevLeaf
    ensures NextMap(pages[x := n]) == NextMap(pages) && PrevMap(pages[x := n]) == PrevMap(pages)
  {
  }

  lemma SplitUnderStored(pages: Pages, t: Tree, g: int, i: nat, p: int, q: int, m: nat)
    requires p in t && q !in t && 1 <= m < |t[p].keys| && |t[p].keys| == |t[p].rids|
    requires g in t && g != p && g != q && t[g].h > 0 && i < |t[g].rids| && |t[g].keys| == |t[g].rids|
    requires Stored(pages, Halves(t, p, q, m)) && g in pages && q in pages
    ensures Stored(PagesWithKid(pages, g, i, t[p].keys[m], q), SplitUnder(t, g, i, p, q, m))
  {
    var u := Halves(t, p, q, m);
    assert u[g] == t[g];
    KidInserted(pages[g], i, t[p].keys[m], q);
  }

  lemma SplitUnderSound(t: Tree, root: int, maxSize: nat, leaves: seq<int>, contents: map<Key, Rid>, g: int, i: nat,
          p: int, q: int, at: nat)
    requires Sound(t, root, maxSize, p, leaves, contents) && |t[if p in t then p else root].keys| == maxSize
    requires CanSplit(t, root, g, i, p, q, maxSize / 2)
    requires t[p].h == 0 ==> at < |leaves| && leaves[at] == p
    ensures |t[g].keys| == |t[g].rids| && |t[p].keys| == |t[p].rids|
    ensures var t' := SplitUnder(t, g, i, p, q, maxSize / 2);
            && g in t' && |t'[g].keys| == |t[g].keys| + 1 && |t'[g].keys| <= maxSize
            && Sound(t', root, maxSize, if |t'[g].keys| >= maxSize then g
              else NO_PAGE, LeavesAfterSplit(t[p], leaves, at, q), contents)
  {
    var m := maxSize / 2;
    assert t[g].Ok() && t[p].Ok();
    SplitShape(t, root, g, i, p, q, m);
    SplitSized(t, root, g, i, p, q, m, maxSize);
    SplitChain(t, root, g, i, p, q, m, leaves, at);
    SplitHolds(t, root, g, i, p, q, m, contents);
    hide Shape, Sized, Chain, Holds;
  }

  ghost function PagesWithRoot(pages: Pages, k0: Key, key: Key, p: int, q: int, r: int): Pages
    requires p in pages && q in pages
  {
    pages[r := Node(NO_PAGE, false, 0, 0, [k0, key], [Rid(p, NO_PAGE), Rid(q, NO_PAGE)])]
         [p := pages[p].(parent := r)][q := pages[q].(parent := r)]
  }

  lemma PagesWithRootMaps(pages: Pages, k0: Key, key: Key, p: int, q: int, r: int)
    requires p in pages && q in pages && r !in pages && p != q
    ensures var pages' := PagesWithRoot(pages, k0, key, p, q, r);
            && ParentMap(pages') == ParentMap(pages)[r := NO_PAGE][p := r][q := r]
            && NextMap(pages') == NextMap(pages)[r := 0] && PrevMap(pages') == PrevMap(pages)[r := 0]
  {
    var nr := Node(NO_PAGE, false, 0, 0, [k0, key], [Rid(p, NO_PAGE), Rid(q, NO_PAGE)]);
    var pages1 := pages[r := nr];
    var pages2 := pages1[p := pages[p].(parent := r)];
    SameLinks(pages1, p, pages[p].(parent := r));
    SameLinks(pages2, q, pages[q].(parent := r));
    ParentMapUpdate(pages, r, nr);
    ParentMapUpdate(pages1, p, pages[p].(parent := r));
    ParentMapUpdate(pages2, q, pages[q].(parent := r));
  }

  lemma SplitRootLaid(pages: Pages, t: Tree, leaves: seq<int>, p: int, q: int, m: nat, at: nat, par: map<int, int>,
          r: int)
    requires Shape(t, p) && Chain(t, leaves) && MidSplit(pages, t, p, leaves, p, q, m, at, par)
    requires r !in pages && r >= 2 && q >= 2
    ensures p in pages && q in pages && r !in t && r != q
    ensures Laid(PagesWithRoot(pages, t[p].keys[0], t[p].keys[m], p, q, r), SplitRoot(t, p, q, r, m), r,
      LeavesAfterSplit(t[p], leaves, at, q))
  {
    MidPages(pages, t, p, leaves, p, q, m, at, par);
    assert t[p].Ok();
    SplitRootParents(t, p, q, r, m, par);
    RootOutsideLeaves(pages, t, p, leaves, at, q, r);
    hide Shape, Chain, Linked, Stored, Parents, Adopt, NextMap, PrevMap, ParentMap, SplitRoot;
    var leaves' := LeavesAfterSplit(t[p], leaves, at, q);
    LinkedElsewhere(NextMap(pages), PrevMap(pages), leaves', r, 0, 0);
    SplitRootStored(pages, t, p, q, m, r);
    PagesWithRootMaps(pages, t[p].keys[0], t[p].keys[m], p, q, r);
    RootParentMap(Adopt(par, MovedKids(t[p], m), q), p, q, r, par[p]);
  }

  lemma RootParentMap(par: map<int, int>, p: int, q: int, r: int, v: int)
    requires p != r && q != r
    ensures par[q := v][r := NO_PAGE][p := r][q := r] == par[q := r][p := r][r := -1]
  {
  }

  lemma RootOutsideLeaves(pages: Pages, t: Tree, p: int, leaves: seq<int>, at: nat, q: int, r: int)
    requires Chain(t, leaves) && p in t && t.Keys + {q} <= pages.Keys && r !in pages
    requires t[p].h == 0 ==> at < |leaves|
    ensures r !in LeavesAfterSplit(t[p], leaves, at, q)
  {
    assert forall j :: 0 <= j < |leaves| ==> leaves[j] in t;
  }

  lemma SplitRootStored(pages: Pages, t: Tree, p: int, q: int, m: nat, r: int)
    requires p in t && q !in t && 1 <= m < |t[p].keys| && |t[p].keys| == |t[p].rids| && r != q && r !in pages && r !in t
    requires Stored(pages, Halves(t, p, q, m)) && p in pages && q in pages
    ensures Stored(PagesWithRoot(pages, t[p].keys[0], t[p].keys[m], p, q, r), SplitRoot(t, p, q, r, m))
  {
  }

  lemma SplitRootSound(t: Tree, maxSize: nat, leaves: seq<int>, contents: map<Key, Rid>, p: int, q: int, r: int,
          at: nat)
    requires Sound(t, p, maxSize, p, leaves, contents) && |t[p].keys| == maxSize
    requires CanSplitRoot(t, p, q, r, maxSize / 2)
    requires t[p].h == 0 ==> at < |leaves| && leaves[at] == p
    ensures |t[p].keys| == |t[p].rids|
    ensures Sound(SplitRoot(t, p, q, r, maxSize / 2), r, maxSize, NO_PAGE, LeavesAfterSplit(t[p], leaves, at, q),
      contents)
  {
    assert t[p].Ok();
    SplitRootShape(t, p, q, r, maxSize / 2);
    SplitRootSized(t, p, q, r, maxSize / 2, maxSize);
    SplitRootChain(t, p, q, r, maxSize / 2, leaves, at);
    SplitRootHolds(t, p, q, r, maxSize / 2, contents);
    hide Shape, Sized, Chain, Holds;
  }

  // ---------------------------------------------------------------- insertion into a leaf

  lemma LeafInsertSound(t: Tree, root: int, maxSize: nat, leaves: seq<int>, contents: map<Key, Rid>, p: int, pos: nat,
          k: Key, v: Rid)
    requires Sound(t, root, maxSize, NO_PAGE, leaves, contents) && p in t && IsSlot(t[p], pos, k) && t[p].Covers(k)
      && k !in contents
    ensures |t[p].keys| == |t[p].rids|
    ensures var t' := t[p := WithEntry(t[p], pos, k, v)];
            && |t'[p].keys| == |t[p].keys| + 1 <= maxSize && |t'[p].keys| == |t'[p].rids|
            && Sound(t', root, maxSize, if |t'[p].keys| >= maxSize then p else NO_PAGE, leaves, contents[k := v])
  {
    assert t[p].Ok() && p >= 2;
    LeafInsertShape(t, root, p, pos, k, v);
    LeafInsertChain(t, root, p, pos, k, v, leaves);
    LeafInsertHolds(t, root, p, pos, k, v, contents);
    LeafInsertSized(t, root, p, pos, k, v, maxSize);
    hide Shape, Sized, Chain, Holds;
  }

  lemma LeafInsertSized(t: Tree, root: int, p: int, pos: nat, k: Key, v: Rid, maxSize: nat)
    requires Shape(t, root) && Sized(t, root, maxSize, NO_PAGE) && p in t && IsSlot(t[p], pos, k)
      && |t[p].keys| == |t[p].rids|
    ensures var t' := t[p := WithEntry(t[p], pos, k, v)];
            |t[p].keys| + 1 <= maxSize && Sized(t', root, maxSize, if |t'[p].keys| >= maxSize then p else NO_PAGE)
  {
    assert Fits(t[p], p == root, maxSize);
  }

  lemma LeafInsertChain(t: Tree, root: int, p: int, pos: nat, k: Key, v: Rid, leaves: seq<int>)
    requires Nodes(t, root) && p in t && IsSlot(t[p], pos, k) && Chain(t, leaves)
    ensures Chain(t[p := WithEntry(t[p], pos, k, v)], leaves)
  {
  }

  lemma EntryInserted(n: Node, pos: nat, k: Key, v: Rid)
    requires pos <= |n.keys| && |n.keys| == |n.rids|
    ensures InsertPair(n, pos, k, v) == n.(keys := InsertAt(n.keys, pos, k), rids := InsertAt(n.rids, pos, v))
  {
  }

  // A page whose entries change and nothing else.
  lemma EntriesChanged(pages: Pages, p: int, n: Node)
    requires p in pages && n == pages[p].(keys := n.keys, rids := n.rids)
    ensures ParentMap(pages[p := n]) == ParentMap(pages)
    ensures NextMap(pages[p := n]) == NextMap(pages) && PrevMap(pages[p := n]) == PrevMap(pages)
  {
    SameLinks(pages, p, n);
    ParentMapUpdate(pages, p, n);
    assert ParentMap(pages)[p] == pages[p].parent;
  }

  lemma StoredUpdate(pages: Pages, t: Tree, p: int, n: Node, m: TNode)
    requires Stored(pages, t) && n.isLeaf == (m.h == 0) && n.keys == m.keys && n.rids == m.rids
    ensures Stored(pages[p := n], t[p := m])
  {
  }

  lemma LeafInsertLaid(pages: Pages, t: Tree, root: int, leaves: seq<int>, p: int, pos: nat, k: Key, v: Rid)
    requires Shape(t, root) && Laid(pages, t, root, leaves) && p in t && IsSlot(t[p], pos, k)
    ensures |t[p].keys| == |t[p].rids| && p in pages
    ensures Laid(pages[p := InsertPair(pages[p], pos, k, v)], t[p := WithEntry(t[p], pos, k, v)], root, leaves)
  {
    NodePage(pages, t, root, leaves, p);
    var n := InsertPair(pages[p], pos, k, v);
    EntryInserted(pages[p], pos, k, v);
    EntriesChanged(pages, p, n);
    LeafInsertParents(t, root, p, pos, k, v, ParentMap(pages));
    StoredUpdate(pages, t, p, n, WithEntry(t[p], pos, k, v));
    hide Shape, Parents, Linked, Stored, NextMap, PrevMap, ParentMap;
  }

  lemma LeafInsertParents(t: Tree, root: int, p: int, pos: nat, k: Key, v: Rid, par: map<int, int>)
    requires Nodes(t, root) && p in t && IsSlot(t[p], pos, k) && Parents(t, root, par)
    ensures Parents(t[p := WithEntry(t[p], pos, k, v)], root, par)
  {
    var t' := t[p := WithEntry(t[p], pos, k, v)];
    assert forall q :: q in t && t[q].h > 0 ==> t'[q] == t[q];
  }

  // ---------------------------------------------------------------- one step of insert_into_parent

  // p has been split and its new neighbour q waits to be entered into the parent.
  ghost predicate Pending(pages: Pages, t: Tree, root: int, maxSize: nat, leaves: seq<int>, contents: map<Key, Rid>,
          p: int, q: int, at: nat, par: map<int, int>) {
    && p in t && q !in t && p in par && |t[p].keys| == maxSize && |t[p].rids| == maxSize && q >= 2
    && Sound(t, root, maxSize, p, leaves, contents)
    && MidSplit(pages, t, root, leaves, p, q, maxSize / 2, at, par)
  }

  lemma RootTop(t: Tree, root: int, p: int)
    requires Shape(t, root) && p in t
    ensures root in t && t[p].h <= t[root].h
  {
  }

  lemma PendingPages(pages: Pages, t: Tree, root: int, maxSize: nat, leaves: seq<int>, contents: map<Key, Rid>, p: int,
          q: int, at: nat, par: map<int, int>)
    requires Pending(pages, t, root, maxSize, leaves, contents, p, q, at, par)
    ensures p in pages && q in pages && p in t && p != q && |pages[p].keys| > 0 && |pages[q].keys| > 0
    ensures |t[p].keys| == maxSize && maxSize / 2 < maxSize && pages[p].keys[0] == t[p].keys[0]
      && pages[q].keys[0] == t[p].keys[maxSize / 2]
    ensures root in t && t[p].h <= t[root].h
    ensures pages[p].parent == NO_PAGE <==> p == root
    ensures p != root ==>
              && var g := pages[p].parent;
              && g in t && g in pages && g != p && g != q && g == par[p] && t[g].h == t[p].h + 1
              && |pages[g].keys| == |pages[g].rids|
              && exists i :: 0 <= i < |pages[g].rids| && pages[g].rids[i].pageNo == p
    ensures t.Keys + {q} <= pages.Keys && q !in t && p in par
  {
    hide Shape, Sized, Chain, Holds, MidSplit;
    MidPages(pages, t, root, leaves, p, q, maxSize / 2, at, par);
    if p != root {
      MidParentPage(pages, t, root, leaves, p, q, maxSize / 2, at, par);
    }
    RootTop(t, root, p);
  }

  lemma PendingUnder(pages: Pages, t: Tree, root: int, maxSize: nat, leaves: seq<int>, contents: map<Key, Rid>, p: int,
          q: int, at: nat, par: map<int, int>, i: nat)
    requires Pending(pages, t, root, maxSize, leaves, contents, p, q, at, par) && p in t && p in par && p != root
    requires par[p] in pages && i < |pages[par[p]].rids| && pages[par[p]].rids[i].pageNo == p
    ensures var g := par[p];
            && g in t && q in pages && i < |t[g].rids| == |t[g].keys| && maxSize / 2 < |t[p].keys| == |t[p].rids|
            && (t[p].h == 0 ==> at < |leaves|)
            && var t' := SplitUnder(t, g, i, p, q, maxSize / 2);
            && g in t' && t'[g].h == t[p].h + 1 && t'[g].h > 0 && |t'[g].keys| <= maxSize
            && t'.Keys == t.Keys + {q} && q !in t && root in t' && t'[root].h == t[root].h
            && Sound(t', root, maxSize, if |t'[g].keys| >= maxSize then g
              else NO_PAGE, LeavesAfterSplit(t[p], leaves, at, q), contents)
            && Laid(PagesWithKid(pages, g, i, t[p].keys[maxSize / 2], q), t', root,
              LeavesAfterSplit(t[p], leaves, at, q))
  {
    var g := par[p];
    assert t[p].h == 0 ==> at < |leaves| && leaves[at] == p;
    hide Shape, Sized, Chain, Holds, MidSplit, Laid;
    MidPages(pages, t, root, leaves, p, q, maxSize / 2, at, par);
    MidParentPage(pages, t, root, leaves, p, q, maxSize / 2, at, par);
    RootTop(t, root, p);
    assert t[g].h > 0 && t[g].Kid(i) == p;
    SplitUnderLaid(pages, t, root, leaves, p, q, maxSize / 2, at, par, i);
    SplitUnderSound(t, root, maxSize, leaves, contents, g, i, p, q, at);
    SplitUnderDomain(t, g, i, p, q, maxSize / 2, root);
    hide *;
  }

  lemma SplitUnderDomain(t: Tree, g: int, i: nat, p: int, q: int, m: nat, root: int)
    requires g in t && p in t && q !in t && g != p && root in t
    requires i < |t[g].rids| && |t[g].rids| == |t[g].keys| && m < |t[p].keys| && |t[p].keys| == |t[p].rids|
    ensures var t' := SplitUnder(t, g, i, p, q, m);
            t'.Keys == t.Keys + {q} && g in t' && t'[g].h == t[g].h && root in t' && t'[root].h == t[root].h
  {
  }

  lemma PendingRoot(pages: Pages, t: Tree, maxSize: nat, leaves: seq<int>, contents: map<Key, Rid>, p: int, q: int,
          at: nat, par: map<int, int>, r: int)
    requires Pending(pages, t, p, maxSize, leaves, contents, p, q, at, par) && r !in pages && r >= 2
    ensures p in t && maxSize / 2 < |t[p].keys| == |t[p].rids| && 0 < maxSize / 2 && (t[p].h == 0 ==> at < |leaves|)
    ensures p in pages && q in pages && q !in t && r !in t && r != q
    ensures var t' := SplitRoot(t, p, q, r, maxSize / 2);
            && t'.Keys == t.Keys + {q, r}
            && Sound(t', r, maxSize, NO_PAGE, LeavesAfterSplit(t[p], leaves, at, q), contents)
            && Laid(PagesWithRoot(pages, t[p].keys[0], t[p].keys[maxSize / 2], p, q, r), t', r,
              LeavesAfterSplit(t[p], leaves, at, q))
  {
    hide Shape, Sized, Chain, Holds, MidSplit, Laid;
    MidPages(pages, t, p, leaves, p, q, maxSize / 2, at, par);
    assert CanSplitRoot(t, p, q, r, maxSize / 2);
    assert t[p].h == 0 ==> at < |leaves| && leaves[at] == p by {
      MidLeaf(pages, t, p, leaves, p, q, maxSize / 2, at, par);
    }
    SplitRootLaid(pages, t, leaves, p, q, maxSize / 2, at, par, r);
    SplitRootSound(t, maxSize, leaves, contents, p, q, r, at);
    hide *;
    SplitRootDomain(t, p, q, r, maxSize / 2);
  }

  lemma MidLeaf(pages: Pages, t: Tree, root: int, leaves: seq<int>, p: int, q: int, m: nat, at: nat, par: map<int, int>)
    requires MidSplit(pages, t, root, leaves, p, q, m, at, par)
    ensures p in t && (t[p].h == 0 ==> at < |leaves| && leaves[at] == p)
  {
  }

  lemma SplitRootDomain(t: Tree, p: int, q: int, r: int, m: nat)
    requires p in t && 0 < m < |t[p].keys| == |t[p].rids|
    ensures SplitRoot(t, p, q, r, m).Keys == t.Keys + {q, r}
  {
  }

  lemma KeyAdded(t: Tree, t': Tree, q: int)
    requires t'.Keys == t.Keys + {q} && q !in t
    ensures |t'| == |t| + 1
  {
    assert |t'.Keys| == |t'| && |t.Keys| == |t|;
  }

  lemma KeysAdded(t: Tree, t': Tree, q: int, r: int)
    requires t'.Keys == t.Keys + {q, r} && q !in t && r !in t && q != r
    ensures |t'| == |t| + 2
  {
    assert t'.Keys == t.Keys + {q} + {r};
    assert |t'.Keys| == |t'| && |t.Keys| == |t|;
  }

  lemma IntroWhole(pages: Pages, t: Tree, root: int, numPages: int, nextPageNo: int, maxSize: nat, exc: int,
          leaves: seq<int>, contents: map<Key, Rid>)
    requires Sound(t, root, maxSize, exc, leaves, contents) && Laid(pages, t, root, leaves)
      && Counted(pages, t, numPages, nextPageNo, 0)
    ensures Whole(pages, t, root, numPages, nextPageNo, maxSize, exc, leaves, contents)
  {
  }

  lemma GrowRootCounted(pages: Pages, t: Tree, t': Tree, numPages: int, nextPageNo: int, k0: Key, key: Key, p: int,
          q: int)
    requires Counted(pages, t, numPages, nextPageNo, 1) && p in pages && q in pages
    requires t'.Keys == t.Keys + {q, nextPageNo} && q !in t && nextPageNo !in t && q != nextPageNo
    ensures Counted(PagesWithRoot(pages, k0, key, p, q, nextPageNo), t', numPages + 1, nextPageNo + 1, 0)
  {
    KeysAdded(t, t', q, nextPageNo);
  }

  // All that growing a new root needs and gives.
  lemma GrowRootStep(pages: Pages, t: Tree, p: int, numPages: int, nextPageNo: int, maxSize: nat, leaves: seq<int>,
          contents: map<Key, Rid>, q: int, at: nat, par: map<int, int>)
    requires Pending(pages, t, p, maxSize, leaves, contents, p, q, at, par)
      && Counted(pages, t, numPages, nextPageNo, 1)
    ensures p in t && maxSize / 2 < |t[p].keys| == |t[p].rids| && 0 < maxSize / 2 && (t[p].h == 0 ==> at < |leaves|)
    ensures p in pages && q in pages && p != q && nextPageNo !in pages
    ensures |pages[p].keys| > 0 && |pages[q].keys| > 0 && pages[p].keys[0] == t[p].keys[0]
      && pages[q].keys[0] == t[p].keys[maxSize / 2]
    ensures Whole(PagesWithRoot(pages, pages[p].keys[0], pages[q].keys[0], p, q, nextPageNo),
      SplitRoot(t, p, q, nextPageNo, maxSize / 2),
                  nextPageNo, numPages + 1, nextPageNo + 1, maxSize, NO_PAGE, LeavesAfterSplit(t[p], leaves, at,
                    q), contents)
  {
    assert nextPageNo !in pages && nextPageNo >= 2;
    hide *;
    PendingPages(pages, t, p, maxSize, leaves, contents, p, q, at, par);
    PendingRoot(pages, t, maxSize, leaves, contents, p, q, at, par, nextPageNo);
    var k0, key := pages[p].keys[0], pages[q].keys[0];
    var t', pages' := SplitRoot(t, p, q, nextPageNo, maxSize / 2), PagesWithRoot(pages, k0, key, p, q, nextPageNo);
    GrowRootCounted(pages, t, t', numPages, nextPageNo, k0, key, p, q);
    IntroWhole(pages', t', nextPageNo, numPages + 1, nextPageNo + 1, maxSize, NO_PAGE,
      LeavesAfterSplit(t[p], leaves, at, q), contents);
  }

  lemma EnterKidCounted(pages: Pages, t: Tree, t': Tree, numPages: int, nextPageNo: int, g: int, i: nat, key: Key,
          q: int)
    requires Counted(pages, t, numPages, nextPageNo, 1) && g in pages && q in pages
    requires t'.Keys == t.Keys + {q} && q !in t
    ensures Counted(PagesWithKid(pages, g, i, key, q), t', numPages, nextPageNo, 0)
  {
    KeyAdded(t, t', q);
  }

  // All that entering a kid into its parent needs and gives.
  lemma EnterKidStep(pages: Pages, t: Tree, root: int, numPages: int, nextPageNo: int, maxSize: nat, leaves: seq<int>,
          contents: map<Key, Rid>, p: int, q: int, at: nat, par: map<int, int>, i: nat)
    requires Pending(pages, t, root, maxSize, leaves, contents, p, q, at, par)
      && Counted(pages, t, numPages, nextPageNo, 1) && p != root
    requires p in pages && pages[p].parent in pages && i < |pages[pages[p].parent].rids|
      && pages[pages[p].parent].rids[i].pageNo == p
    ensures p in t && q in pages && |pages[q].keys| > 0
    ensures var g := pages[p].parent;
            && g in t && i < |t[g].rids| == |t[g].keys| && maxSize / 2 < |t[p].keys| == |t[p].rids|
              && (t[p].h == 0 ==> at < |leaves|)
            && var t' := SplitUnder(t, g, i, p, q, maxSize / 2);
            && var pages' := PagesWithKid(pages, g, i, pages[q].keys[0], q);
            && g in t' && t'[g].h == t[p].h + 1 && |t'[g].keys| <= maxSize && g in pages'
              && |pages'[g].keys| == |t'[g].keys|
            && root in t && root in t' && t'[root].h == t[root].h && t[p].h < t[root].h
            && Whole(pages', t', root, numPages, nextPageNo, maxSize, if |t'[g].keys| >= maxSize then g
              else NO_PAGE, LeavesAfterSplit(t[p], leaves, at, q), contents)
  {
    hide *;
    PendingPages(pages, t, root, maxSize, leaves, contents, p, q, at, par);
    PendingUnder(pages, t, root, maxSize, leaves, contents, p, q, at, par, i);
    var g, leaves' := pages[p].parent, LeavesAfterSplit(t[p], leaves, at, q);
    var t', pages' := SplitUnder(t, g, i, p, q, maxSize / 2), PagesWithKid(pages, g, i, pages[q].keys[0], q);
    EnterKidCounted(pages, t, t', numPages, nextPageNo, g, i, pages[q].keys[0], q);
    var exc := if |t'[g].keys| >= maxSize then g else NO_PAGE;
    NodePageSize(pages', t', root, leaves', maxSize, exc, contents, g);
    SoundTop(t', root, maxSize, exc, leaves', contents, g);
    IntroWhole(pages', t', root, numPages, nextPageNo, maxSize, exc, leaves', contents);
  }

  lemma SoundTop(t: Tree, root: int, maxSize: nat, exc: int, leaves: seq<int>, contents: map<Key, Rid>, p: int)
    requires Sound(t, root, maxSize, exc, leaves, contents) && p in t
    ensures root in t && t[p].h <= t[root].h
  {
  }

  lemma SplitCounted(pages: Pages, pages': Pages, t: Tree, numPages: int, nextPageNo: int)
    requires Counted(pages, t, numPages, nextPageNo, 0) && pages'.Keys == pages.Keys + {nextPageNo}
    ensures Counted(pages', t, numPages + 1, nextPageNo + 1, 1) && nextPageNo !in pages && nextPageNo >= 2
  {
    assert forall x :: x in pages' ==> x in pages || x == nextPageNo;
  }

  lemma IntroPending(pages: Pages, t: Tree, root: int, maxSize: nat, leaves: seq<int>, contents: map<Key, Rid>, p: int,
          q: int, at: nat, par: map<int, int>)
    requires p in t && q !in t && p in par && |t[p].keys| == maxSize && |t[p].rids| == maxSize && q >= 2
    requires Sound(t, root, maxSize, p, leaves, contents) && MidSplit(pages, t, root, leaves, p, q, maxSize / 2, at,
      par)
    ensures Pending(pages, t, root, maxSize, leaves, contents, p, q, at, par)
  {
    hide Sound, MidSplit;
  }

  lemma WholeNode(pages: Pages, t: Tree, root: int, numPages: int, nextPageNo: int, maxSize: nat, exc: int,
          leaves: seq<int>, contents: map<Key, Rid>, p: int)
    requires Whole(pages, t, root, numPages, nextPageNo, maxSize, exc, leaves, contents) && p in t
    ensures p in pages && p in ParentMap(pages) && |t[p].rids| == |t[p].keys| && t.Keys <= pages.Keys
    ensures Sound(t, root, maxSize, exc, leaves, contents) && Laid(pages, t, root, leaves)
      && Counted(pages, t, numPages, nextPageNo, 0)
  {
    hide Sized, Chain, Holds;
    NodePage(pages, t, root, leaves, p);
  }

  // What a search starts from.
  lemma SearchStart(pages: Pages, t: Tree, root: int, numPages: int, nextPageNo: int, maxSize: nat, exc: int,
          leaves: seq<int>, contents: map<Key, Rid>, k: Key)
    requires Whole(pages, t, root, numPages, nextPageNo, maxSize, exc, leaves, contents)
    ensures Shape(t, root) && Laid(pages, t, root, leaves) && root in t && t[root].Covers(k)
  {
    hide Sized, Chain, Holds, Laid;
  }

  // A split makes the index pending.
  lemma SplitPending(pages: Pages, pages': Pages, t: Tree, root: int, numPages: int, nextPageNo: int, maxSize: nat,
          leaves: seq<int>, contents: map<Key, Rid>, p: int, q: int, at: nat)
    requires Whole(pages, t, root, numPages, nextPageNo, maxSize, p, leaves, contents)
    requires p in t && |t[p].keys| == maxSize && q == nextPageNo
    requires MidSplit(pages', t, root, leaves, p, q, maxSize / 2, at, ParentMap(pages))
      && pages'.Keys == pages.Keys + {q}
    ensures Pending(pages', t, root, maxSize, leaves, contents, p, q, at, ParentMap(pages))
    ensures Counted(pages', t, numPages + 1, nextPageNo + 1, 1)
    ensures q in pages' && |pages'[q].keys| > 0
  {
    hide *;
    WholeNode(pages, t, root, numPages, nextPageNo, maxSize, p, leaves, contents, p);
    SplitCounted(pages, pages', t, numPages, nextPageNo);
    IntroPending(pages', t, root, maxSize, leaves, contents, p, q, at, ParentMap(pages));
    PendingPages(pages', t, root, maxSize, leaves, contents, p, q, at, ParentMap(pages));
  }

  lemma WholeSplitStart(pages: Pages, t: Tree, root: int, numPages: int, nextPageNo: int, maxSize: nat,
          leaves: seq<int>, contents: map<Key, Rid>, p: int, at: nat)
    requires Whole(pages, t, root, numPages, nextPageNo, maxSize, p, leaves, contents)
    requires p in t && |t[p].keys| == maxSize
    requires t[p].h == 0 ==> at < |leaves| && leaves[at] == p
    ensures p in pages && |pages[p].keys| == |pages[p].rids| && |pages[p].keys| == maxSize && nextPageNo !in pages
    ensures var pages1 := InnerSplitPages(pages, p, nextPageNo, maxSize / 2);
            && p in pages1 && Splittable(pages, pages1, t, root, leaves, p, nextPageNo, maxSize / 2, at)
            && pages1.Keys == pages.Keys + {nextPageNo}
  {
    assert nextPageNo !in pages && nextPageNo > LEAF_HEADER_PAGE;
    hide Sound, Laid, Splittable, InnerSplitPages;
    SplitStart(pages, t, root, maxSize, leaves, contents, p, nextPageNo, at);
  }

  lemma LeafGrowsLeaves(n: TNode, leaves: seq<int>, at: nat, q: int)
    requires n.h == 0 && at < |leaves|
    ensures LeavesAfterSplit(n, leaves, at, q) == InsertAt(leaves, at + 1, q)
  {
  }

  lemma InnerKeepsLeaves(n: TNode, leaves: seq<int>, at: nat, q: int)
    requires n.h > 0
    ensures LeavesAfterSplit(n, leaves, at, q) == leaves
  {
  }

  // What a search for a key in its leaf relies on.
  lemma SearchedLeaf(pages: Pages, t: Tree, root: int, numPages: int, nextPageNo: int, maxSize: nat, exc: int,
          leaves: seq<int>, contents: map<Key, Rid>, p: int, k: Key)
    requires Whole(pages, t, root, numPages, nextPageNo, maxSize, exc, leaves, contents) && p in t && t[p].h == 0
      && t[p].Covers(k)
    ensures p in pages && |pages[p].keys| == |pages[p].rids| && pages[p].keys == t[p].keys && pages[p].rids == t[p].rids
    ensures forall i, j :: 0 <= i < j < |pages[p].keys| ==> pages[p].keys[i] < pages[p].keys[j]
    ensures k in contents <==> k in pages[p].keys
    ensures forall i :: 0 <= i < |pages[p].keys| && pages[p].keys[i] == k ==>
      k in contents && contents[k] == pages[p].rids[i]
    ensures p in leaves
  {
    LeafPage(pages, t, root, leaves, p);
    Located(t, root, contents, p, k);
    forall i | 0 <= i < |pages[p].keys| && pages[p].keys[i] == k ensures k in contents
      && contents[k] == pages[p].rids[i] {
      assert EntryOk(t, contents, p, i);
    }
    hide Shape, Sized, Laid;
  }

  lemma InsertCounted(pages: Pages, t: Tree, numPages: int, nextPageNo: int, p: int, n: Node, m: TNode)
    requires Counted(pages, t, numPages, nextPageNo, 0) && p in t && p in pages
    ensures Counted(pages[p := n], t[p := m], numPages, nextPageNo, 0)
  {
    var t' := t[p := m];
    assert t'.Keys == t.Keys;
    assert |t'.Keys| == |t'| && |t.Keys| == |t|;
  }

  lemma EntryHeight(n: TNode, pos: nat, k: Key, v: Rid)
    requires pos <= |n.keys| && pos <= |n.rids|
    ensures WithEntry(n, pos, k, v).h == n.h
  {
  }

  lemma ShapeOf(t: Tree, root: int, maxSize: nat, exc: int, leaves: seq<int>, contents: map<Key, Rid>)
    requires Sound(t, root, maxSize, exc, leaves, contents)
    ensures Shape(t, root)
  {
    hide Sized, Chain, Holds;
  }

  // All that inserting into a leaf needs and gives.
  lemma InsertStep(pages: Pages, t: Tree, root: int, numPages: int, nextPageNo: int, maxSize: nat, leaves: seq<int>,
          contents: map<Key, Rid>, p: int, pos: nat, k: Key, v: Rid)
    requires Whole(pages, t, root, numPages, nextPageNo, maxSize, NO_PAGE, leaves, contents)
    requires p in t && t[p].h == 0 && t[p].Covers(k) && IsSlot(t[p], pos, k) && k !in contents
    ensures p in pages && |t[p].keys| == |t[p].rids| && pos <= |t[p].keys|
    ensures var t' := t[p := WithEntry(t[p], pos, k, v)];
            && |t'[p].keys| <= maxSize && t'[p].h == 0
            && |InsertPair(pages[p], pos, k, v).keys| == |t'[p].keys|
            && Whole(pages[p := InsertPair(pages[p], pos, k, v)], t', root, numPages, nextPageNo, maxSize,
                     if |t'[p].keys| >= maxSize then p else NO_PAGE, leaves, contents[k := v])
  {
    assert pos <= |t[p].keys|;
    hide Sound, Laid, Counted, Shape;
    assert Laid(pages, t, root, leaves) && Counted(pages, t, numPages, nextPageNo, 0);
    hide *;
    ShapeOf(t, root, maxSize, NO_PAGE, leaves, contents);
    LeafInsertLaid(pages, t, root, leaves, p, pos, k, v);
    LeafInsertSound(t, root, maxSize, leaves, contents, p, pos, k, v);
    EntryHeight(t[p], pos, k, v);
    var t' := t[p := WithEntry(t[p], pos, k, v)];
    var n := InsertPair(pages[p], pos, k, v);
    var exc := if |t'[p].keys| >= maxSize then p else NO_PAGE;
    InsertCounted(pages, t, numPages, nextPageNo, p, n, t'[p]);
    NodePageSize(pages[p := n], t', root, leaves, maxSize, exc, contents[k := v], p);
    IntroWhole(pages[p := n], t', root, numPages, nextPageNo, maxSize, exc, leaves, contents[k := v]);
  }

  lemma LeavesDistinct(pages: Pages, t: Tree, root: int, numPages: int, nextPageNo: int, maxSize: nat, exc: int,
          leaves: seq<int>, contents: map<Key, Rid>)
    requires Whole(pages, t, root, numPages, nextPageNo, maxSize, exc, leaves, contents)
    ensures Distinct(leaves) && |leaves| > 0
    ensures forall i :: 0 <= i < |leaves| ==> leaves[i] in t && t[leaves[i]].h == 0 && leaves[i] in pages
  {
    hide Sized, Holds, Linked, Parents, Levels, Kids;
  }

  lemma LastAfterInsert(leaves: seq<int>, at: nat, q: int, last: int)
    requires Distinct(leaves) && at < |leaves| && last == leaves[|leaves| - 1]
    ensures InsertAt(leaves, at + 1, q)[0] == leaves[0]
    ensures InsertAt(leaves, at + 1, q)[|leaves|] == if leaves[at] == last then q else last
  {
  }
}
