/** The B+ tree index: pages updated in place, standing for a finite map from keys to record ids. */
module IndexHandle {
  import opened RecordIds
  import opened IndexTree
  import opened IndexTreeSplit
  import opened IndexTreeMerge
  import opened IndexTreeErase
  import opened IndexNode
  import opened IndexPages
  import opened IndexState
  import opened IndexStateErase
  import opened IndexStateBalance
  import opened IndexOrder

  const INIT_ROOT_PAGE := 2
  const INIT_NUM_PAGES := 3

  class IxIndexHandle {
    // the file header
    const order: nat
    var rootPage: int
    var firstLeaf: int
    var lastLeaf: int
    var numPages: int
    // the pages of the file and the next page number the disk manager hands out
    var pages: Pages
    var nextPageNo: int
    // what the file stands for
    ghost var t: Tree
    ghost var leaves: seq<int>
    ghost var contents: map<Key, Rid>

    function MaxSize(): nat {
      order + 1
    }

    function MinSize(): nat {
      MaxSize() / 2
    }

    // The index is sound, and first and last leaf are where the header says.
    ghost predicate Valid()
      reads this
    {
      && Whole(pages, t, rootPage, numPages, nextPageNo, MaxSize(), NO_PAGE, leaves, contents)
      && |leaves| > 0 && firstLeaf == leaves[0] && lastLeaf == leaves[|leaves| - 1]
    }

    // A new index file: the leaf header page and an empty leaf as root.
    constructor (order: nat)
      requires order > 2
      ensures Valid() && contents == map[] && this.order == order
    {
      this.order := order;
      rootPage, firstLeaf, lastLeaf := INIT_ROOT_PAGE, INIT_ROOT_PAGE, INIT_ROOT_PAGE;
      numPages, nextPageNo := INIT_NUM_PAGES, INIT_NUM_PAGES;
      pages := map[
        LEAF_HEADER_PAGE := Node(NO_PAGE, true, INIT_ROOT_PAGE, INIT_ROOT_PAGE, [], []),
        INIT_ROOT_PAGE := Node(NO_PAGE, true, LEAF_HEADER_PAGE, LEAF_HEADER_PAGE, [], [])
      ];
      t := map[INIT_ROOT_PAGE := TNode(0, Open, Open, [], [])];
      leaves := [INIT_ROOT_PAGE];
      contents := map[];
      EmptyIndex(order + 1);
    }

    // ---------------------------------------------------------------- search

    method FindLeafPage(key: Key) returns (p: int)
      requires Whole(pages, t, rootPage, numPages, nextPageNo, MaxSize(), NO_PAGE, leaves, contents)
      ensures p in t && t[p].h == 0 && t[p].Covers(key)
    {
      hide *;
      p := rootPage;
      SearchStart(pages, t, rootPage, numPages, nextPageNo, MaxSize(), NO_PAGE, leaves, contents, key);
      while true
        invariant p in t && t[p].Covers(key)
        decreases t[p].h
      {
        NodePage(pages, t, rootPage, leaves, p);
        if pages[p].isLeaf {
          break;
        }
        InnerSorted(t, rootPage, p);
        var pos := UpperBound(pages[p], key);
        Descend(t, rootPage, p, pos, key);
        p := pages[p].rids[pos - 1].pageNo;
      }
    }

    // Position of the key in a leaf, and whether the key is there.
    method LeafLookup(p: int, key: Key) returns (pos: nat, found: bool)
      requires p in pages
      requires forall i, j :: 0 <= i < j < |pages[p].keys| ==> pages[p].keys[i] < pages[p].keys[j]
      ensures pos <= |pages[p].keys|
      ensures forall i :: 0 <= i < pos ==> pages[p].keys[i] < key
      ensures forall i :: pos <= i < |pages[p].keys| ==> key <= pages[p].keys[i]
      ensures !found ==> forall i :: pos <= i < |pages[p].keys| ==> key < pages[p].keys[i]
      ensures found <==> key in pages[p].keys
      ensures found <==> pos < |pages[p].keys| && pages[p].keys[pos] == key
    {
      pos := LowerBound(pages[p], key);
      found := pos < |pages[p].keys| && pages[p].keys[pos] == key;
    }

    method GetValue(key: Key) returns (found: bool, rid: Rid)
      requires Valid()
      ensures found <==> key in contents
      ensures found ==> rid == contents[key]
    {
      var p := FindLeafPage(key);
      LeafPage(pages, t, rootPage, leaves, p);
      Located(t, rootPage, contents, p, key);
      var pos;
      pos, found := LeafLookup(p, key);
      if found {
        assert EntryOk(t, contents, p, pos);
        rid := pages[p].rids[pos];
      } else {
        rid := Rid(NO_PAGE, NO_PAGE);
      }
    }

    // ---------------------------------------------------------------- places in the leaf list

    // The first place whose key is at least the given one, or the end of the list.
    method LowerBoundPlace(key: Key) returns (iid: Iid, ghost n: nat)
      requires Valid()
      ensures Points(t, leaves, iid, n) && Cuts(Keys(t, leaves), n, key, false)
    {
      hide Whole;
      var p := FindLeafPage(key);
      SearchedLeaf(pages, t, rootPage, numPages, nextPageNo, MaxSize(), NO_PAGE, leaves, contents, p, key);
      var pos := LowerBound(pages[p], key);
      n := BoundPlace(pages, t, rootPage, numPages, nextPageNo, MaxSize(), leaves, contents, lastLeaf, p, pos, key,
        false);
      if pos >= |pages[p].keys| {
        if p == lastLeaf {
          iid := Iid(p, pos);
        } else {
          iid := Iid(pages[p].nextLeaf, 0);
        }
      } else {
        iid := Iid(p, pos);
      }
    }

    // The first place whose key is above the given one, or the end of the list.
    method UpperBoundPlace(key: Key) returns (iid: Iid, ghost n: nat)
      requires Valid()
      ensures Points(t, leaves, iid, n) && Cuts(Keys(t, leaves), n, key, true)
    {
      hide Whole;
      var p := FindLeafPage(key);
      SearchedLeaf(pages, t, rootPage, numPages, nextPageNo, MaxSize(), NO_PAGE, leaves, contents, p, key);
      var pos := LowerBound(pages[p], key);
      if pos < |pages[p].keys| && pages[p].keys[pos] == key {
        pos := pos + 1;
      }
      n := BoundPlace(pages, t, rootPage, numPages, nextPageNo, MaxSize(), leaves, contents, lastLeaf, p, pos, key,
        true);
      if pos >= |pages[p].keys| {
        if p == lastLeaf {
          iid := Iid(p, pos);
        } else {
          iid := Iid(pages[p].nextLeaf, 0);
        }
      } else {
        iid := Iid(p, pos);
      }
    }

    method LeafBegin() returns (iid: Iid)
      requires Valid()
      ensures Points(t, leaves, iid, 0)
    {
      WholeRow(pages, t, rootPage, numPages, nextPageNo, MaxSize(), leaves, contents);
      hide Whole, Points;
      PlaceAfter(t, leaves, 0, 0);
      iid := Iid(firstLeaf, 0);
    }

    method LeafEnd() returns (iid: Iid)
      requires Valid()
      ensures Points(t, leaves, iid, |Keys(t, leaves)|)
    {
      WholeRow(pages, t, rootPage, numPages, nextPageNo, MaxSize(), leaves, contents);
      hide Whole, Points;
      PlaceAfter(t, leaves, |leaves| - 1, |t[lastLeaf].keys|);
      FlatStep(t, leaves, |leaves| - 1);
      iid := Iid(lastLeaf, |pages[lastLeaf].keys|);
    }

    // The rid at a place; the source throws where found is false.
    method GetRid(iid: Iid, ghost n: nat) returns (found: bool, rid: Rid)
      requires Valid() && Points(t, leaves, iid, n)
      ensures found <==> n < |Keys(t, leaves)|
      ensures found ==> n < |Rids(t, leaves)| && rid == Rids(t, leaves)[n]
    {
      PlaceRead(pages, t, rootPage, numPages, nextPageNo, MaxSize(), leaves, contents, iid, n);
      hide Whole, Points;
      if iid.slotNo >= |pages[iid.pageNo].keys| {
        found, rid := false, Rid(NO_PAGE, NO_PAGE);
      } else {
        found, rid := true, pages[iid.pageNo].rids[iid.slotNo];
      }
    }

    // ---------------------------------------------------------------- split

    // A new zeroed page at the end of the file.
    method CreateNode() returns (q: int)
      modifies this
      ensures t == old(t) && leaves == old(leaves) && contents == old(contents)
      ensures rootPage == old(rootPage) && firstLeaf == old(firstLeaf) && lastLeaf == old(lastLeaf)
      ensures q == old(nextPageNo) && nextPageNo == q + 1 && numPages == old(numPages) + 1
      ensures pages == old(pages)[q := Node(0, false, 0, 0, [], [])]
    {
      numPages := numPages + 1;
      q := nextPageNo;
      nextPageNo := nextPageNo + 1;
      pages := pages[q := Node(0, false, 0, 0, [], [])];
    }

    // Makes page p the parent of its kid i, if p has kids.
    method MaintainChild(p: int, i: nat)
      requires p in pages && i < |pages[p].rids|
      requires !pages[p].isLeaf ==> pages[p].rids[i].pageNo in pages
      modifies this
      ensures t == old(t) && leaves == old(leaves) && contents == old(contents)
      ensures rootPage == old(rootPage) && firstLeaf == old(firstLeaf) && lastLeaf == old(lastLeaf)
      ensures numPages == old(numPages) && nextPageNo == old(nextPageNo)
      ensures pages == if old(pages[p]).isLeaf then old(pages)
        else WithParent(old(pages), old(pages[p]).rids[i].pageNo, p)
    {
      if !pages[p].isLeaf {
        var c := pages[p].rids[i].pageNo;
        pages := pages[c := pages[c].(parent := p)];
      }
    }

    // Entries from..to of q name kids: each of them gets q as its parent.
    method MaintainChildren(q: int, from: nat, to: nat)
      requires q in pages && from <= to <= |pages[q].rids| && !pages[q].isLeaf
      requires forall j :: from <= j < to ==> pages[q].rids[j].pageNo in pages
      modifies this
      ensures t == old(t) && leaves == old(leaves) && contents == old(contents)
      ensures rootPage == old(rootPage) && firstLeaf == old(firstLeaf) && lastLeaf == old(lastLeaf)
      ensures numPages == old(numPages) && nextPageNo == old(nextPageNo)
      ensures SameButParents(old(pages), pages) && pages.Keys == old(pages).Keys
      ensures ParentMap(pages) == Adopt(old(ParentMap(pages)), old(pages[q]).rids[from..to], q)
    {
      ghost var pages1 := pages;
      ghost var par1 := ParentMap(pages1);
      ghost var kids := pages1[q].rids[from..to];
      AdoptNone(par1, q);
      assert kids[..0] == [];
      assert SameButParents(pages1, pages);
      hide SameButParents;
      for i := from to to
        invariant pages.Keys == pages1.Keys && SameButParents(pages1, pages)
        invariant t == old(t) && leaves == old(leaves) && contents == old(contents)
        invariant rootPage == old(rootPage) && firstLeaf == old(firstLeaf) && lastLeaf == old(lastLeaf)
        invariant numPages == old(numPages) && nextPageNo == old(nextPageNo)
        invariant ParentMap(pages) == Adopt(par1, kids[..i - from], q)
      {
        ghost var before := pages;
        SameButParentsAt(pages1, pages, q);
        MaintainChild(q, i);
        SameButParentsNext(pages1, before, kids[i - from].pageNo, q);
        ParentMapUpdate(before, kids[i - from].pageNo, before[kids[i - from].pageNo].(parent := q));
        AdoptNext(par1, kids, i - from, q);
      }
      assert kids[..to - from] == kids;
    }

    // Moves the upper half of the entries of p to a new page q.
    method MoveUpperHalf(p: int) returns (q: int)
      requires p in pages && |pages[p].keys| == |pages[p].rids| && nextPageNo !in pages
      modifies this
      ensures t == old(t) && leaves == old(leaves) && contents == old(contents)
      ensures rootPage == old(rootPage) && firstLeaf == old(firstLeaf) && lastLeaf == old(lastLeaf)
      ensures q == old(nextPageNo) && nextPageNo == q + 1 && numPages == old(numPages) + 1
      ensures p in old(pages) && pages == InnerSplitPages(old(pages), p, q, |old(pages)[p].keys| / 2)
    {
      ghost var n := pages[p];
      q := CreateNode();
      pages := pages[q := pages[q].(isLeaf := pages[p].isLeaf, parent := pages[p].parent)];
      var pos := |pages[p].keys| / 2;
      pages := pages[q := InsertPairs(pages[q], 0, pages[p].keys[pos..], pages[p].rids[pos..])];
      pages := pages[p := SetSize(pages[p], pos)];
      assert pages[q] == Node(n.parent, n.isLeaf, 0, 0, n.keys[pos..], n.rids[pos..]);
    }

    // The new leaf q enters the leaf list right after p.
    method LinkNewLeaf(p: int, q: int, ghost pos: nat, ghost pages0: Pages)
      requires p in pages0 && q !in pages0 && pos <= |pages0[p].keys| && |pages0[p].keys| == |pages0[p].rids|
      requires pages0[p].nextLeaf in pages0 && pages0[p].nextLeaf != p
      requires pages == InnerSplitPages(pages0, p, q, pos)
      modifies this
      ensures t == old(t) && leaves == old(leaves) && contents == old(contents)
      ensures rootPage == old(rootPage) && firstLeaf == old(firstLeaf) && lastLeaf == old(lastLeaf)
      ensures numPages == old(numPages) && nextPageNo == old(nextPageNo)
      ensures pages == LeafSplitPages(pages0, p, q, pos) && pages.Keys == old(pages).Keys
    {
      pages := pages[q := pages[q].(prevLeaf := p)];
      pages := pages[q := pages[q].(nextLeaf := pages[p].nextLeaf)];
      var oldNext := pages[p].nextLeaf;
      pages := pages[oldNext := pages[oldNext].(prevLeaf := q)];
      pages := pages[p := pages[p].(nextLeaf := q)];
    }

    method FinishLeafSplit(p: int, q: int, ghost m: nat, ghost at: nat, ghost pages0: Pages)
      requires Splittable(pages0, pages, t, rootPage, leaves, p, q, m, at) && p in pages && pages[p].isLeaf
      modifies this
      ensures t == old(t) && leaves == old(leaves) && contents == old(contents)
      ensures rootPage == old(rootPage) && firstLeaf == old(firstLeaf) && lastLeaf == old(lastLeaf)
      ensures numPages == old(numPages) && nextPageNo == old(nextPageNo)
      ensures MidSplit(pages, t, rootPage, leaves, p, q, m, at, ParentMap(pages0)) && pages.Keys == old(pages).Keys
    {
      hide *;
      SplittableLeaf(pages0, pages, t, rootPage, leaves, p, q, m, at);
      LinkNewLeaf(p, q, m, pages0);
    }

    method FinishInnerSplit(p: int, q: int, ghost m: nat, ghost at: nat, ghost pages0: Pages)
      requires Splittable(pages0, pages, t, rootPage, leaves, p, q, m, at) && p in pages && !pages[p].isLeaf
      modifies this
      ensures t == old(t) && leaves == old(leaves) && contents == old(contents)
      ensures rootPage == old(rootPage) && firstLeaf == old(firstLeaf) && lastLeaf == old(lastLeaf)
      ensures numPages == old(numPages) && nextPageNo == old(nextPageNo)
      ensures MidSplit(pages, t, rootPage, leaves, p, q, m, at, ParentMap(pages0)) && pages.Keys == old(pages).Keys
    {
      hide *;
      ghost var pages1 := pages;
      SplittableInner(pages0, pages, t, rootPage, leaves, p, q, m, at);
      MaintainChildren(q, 0, |pages[q].keys|);
      SplittableInnerDone(pages0, pages1, pages, t, rootPage, leaves, p, q, m, at);
    }

    // Moves the upper half of an overfull node to a new right neighbour q.
    method Split(p: int, ghost at: nat) returns (q: int)
      requires Whole(pages, t, rootPage, numPages, nextPageNo, MaxSize(), p, leaves, contents)
      requires p in t && |t[p].keys| == MaxSize()
      requires t[p].h == 0 ==> at < |leaves| && leaves[at] == p
      modifies this
      ensures t == old(t) && leaves == old(leaves) && contents == old(contents)
      ensures rootPage == old(rootPage) && firstLeaf == old(firstLeaf) && lastLeaf == old(lastLeaf)
      ensures MidSplit(pages, t, rootPage, leaves, p, q, MaxSize() / 2, at, old(ParentMap(pages)))
      ensures q == old(nextPageNo) && nextPageNo == q + 1 && numPages == old(numPages) + 1
      ensures pages.Keys == old(pages).Keys + {q}
    {
      hide *;
      ghost var pages0 := pages;
      WholeSplitStart(pages, t, rootPage, numPages, nextPageNo, MaxSize(), leaves, contents, p, at);
      q := MoveUpperHalf(p);
      if pages[p].isLeaf {
        FinishLeafSplit(p, q, MaxSize() / 2, at, pages0);
      } else {
        FinishInnerSplit(p, q, MaxSize() / 2, at, pages0);
      }
    }

    // ---------------------------------------------------------------- insertion

    // A new root above the two halves of the old one.
    method GrowRootPages(p: int, key: Key, q: int)
      requires p in pages && q in pages && p != q && |pages[p].keys| > 0 && nextPageNo !in pages
      modifies this
      ensures t == old(t) && leaves == old(leaves) && contents == old(contents)
      ensures firstLeaf == old(firstLeaf) && lastLeaf == old(lastLeaf)
      ensures rootPage == old(nextPageNo) && nextPageNo == old(nextPageNo) + 1 && numPages == old(numPages) + 1
      ensures p in old(pages) && q in old(pages)
      ensures pages == PagesWithRoot(old(pages), old(pages)[p].keys[0], key, p, q, rootPage)
      ensures forall x :: x in pages ==> x in old(pages) || x == rootPage
    {
      ghost var k0 := pages[p].keys[0];
      var r := CreateNode();
      pages := pages[r := pages[r].(isLeaf := false, parent := NO_PAGE)];
      pages := pages[r := InsertPair(pages[r], 0, pages[p].keys[0], Rid(p, NO_PAGE))];
      pages := pages[r := InsertPair(pages[r], 1, key, Rid(q, NO_PAGE))];
      assert pages[r].keys == [k0, key] && pages[r].rids == [Rid(p, NO_PAGE), Rid(q, NO_PAGE)];
      rootPage := r;
      pages := pages[p := pages[p].(parent := r)];
      pages := pages[q := pages[q].(parent := r)];
    }

    method GrowRoot(p: int, key: Key, q: int, ghost at: nat, ghost par: map<int, int>)
      requires p == rootPage
      requires Pending(pages, t, rootPage, MaxSize(), leaves, contents, p, q, at, par)
        && Counted(pages, t, numPages, nextPageNo, 1)
      requires q in pages && |pages[q].keys| > 0 && key == pages[q].keys[0]
      modifies this
      ensures Whole(pages, t, rootPage, numPages, nextPageNo, MaxSize(), NO_PAGE, leaves, contents)
      ensures contents == old(contents) && firstLeaf == old(firstLeaf) && lastLeaf == old(lastLeaf)
      ensures p in old(t) && (old(t)[p].h == 0 ==> at < |old(leaves)|)
        && leaves == LeavesAfterSplit(old(t)[p], old(leaves), at, q)
    {
      hide *;
      GrowRootStep(pages, t, p, numPages, nextPageNo, MaxSize(), leaves, contents, q, at, par);
      ghost var t', leaves' := SplitRoot(t, p, q, nextPageNo, MaxSize() / 2), LeavesAfterSplit(t[p], leaves, at, q);
      GrowRootPages(p, key, q);
      t, leaves := t', leaves';
    }

    // The parent g of p gets an entry for q; g may be overfull afterwards.
    method EnterKid(p: int, key: Key, q: int, ghost at: nat, ghost par: map<int, int>) returns (g: int)
      requires p != rootPage
      requires Pending(pages, t, rootPage, MaxSize(), leaves, contents, p, q, at, par)
        && Counted(pages, t, numPages, nextPageNo, 1)
      requires q in pages && |pages[q].keys| > 0 && key == pages[q].keys[0]
      modifies this
      ensures g in t && g in pages && |pages[g].keys| == |t[g].keys| <= MaxSize()
      ensures Whole(pages, t, rootPage, numPages, nextPageNo, MaxSize(), if |t[g].keys| >= MaxSize() then g
        else NO_PAGE, leaves, contents)
      ensures contents == old(contents) && firstLeaf == old(firstLeaf) && lastLeaf == old(lastLeaf)
      ensures rootPage == old(rootPage) && rootPage in t && rootPage in old(t) && t[rootPage].h == old(t)[rootPage].h
      ensures p in old(t) && t[g].h == old(t)[p].h + 1 <= t[rootPage].h
      ensures (old(t)[p].h == 0 ==> at < |old(leaves)|) && leaves == LeavesAfterSplit(old(t)[p], old(leaves), at, q)
    {
      hide *;
      PendingPages(pages, t, rootPage, MaxSize(), leaves, contents, p, q, at, par);
      g := pages[p].parent;
      var i := FindChild(pages[g], p);
      EnterKidStep(pages, t, rootPage, numPages, nextPageNo, MaxSize(), leaves, contents, p, q, at, par, i);
      ghost var t', leaves' := SplitUnder(t, g, i, p, q, MaxSize() / 2), LeavesAfterSplit(t[p], leaves, at, q);
      ghost var pages' := PagesWithKid(pages, g, i, key, q);
      EnterKidPages(g, i, key, q);
      t, leaves := t', leaves';
    }

    method EnterKidPages(g: int, i: nat, key: Key, q: int)
      requires g in pages && q in pages && g != q
      modifies this
      ensures g in old(pages) && q in old(pages) && pages == PagesWithKid(old(pages), g, i, key, q)
      ensures t == old(t) && leaves == old(leaves) && contents == old(contents)
      ensures rootPage == old(rootPage) && firstLeaf == old(firstLeaf) && lastLeaf == old(lastLeaf)
      ensures numPages == old(numPages) && nextPageNo == old(nextPageNo)
    {
      pages := pages[g := InsertPair(pages[g], i + 1, key, Rid(q, NO_PAGE))];
      pages := pages[q := pages[q].(parent := g)];
    }

    // Enters q, the new right neighbour of p, into the parent of p, splitting upwards as needed.
    method InsertIntoParent(p: int, key: Key, q: int, ghost at: nat, ghost par: map<int, int>)
      requires Pending(pages, t, rootPage, MaxSize(), leaves, contents, p, q, at, par)
        && Counted(pages, t, numPages, nextPageNo, 1)
      requires q in pages && |pages[q].keys| > 0 && key == pages[q].keys[0]
      modifies this
      ensures Whole(pages, t, rootPage, numPages, nextPageNo, MaxSize(), NO_PAGE, leaves, contents)
      ensures contents == old(contents) && firstLeaf == old(firstLeaf) && lastLeaf == old(lastLeaf)
      ensures p in old(t) && (old(t)[p].h == 0 ==> at < |old(leaves)|)
        && leaves == LeavesAfterSplit(old(t)[p], old(leaves), at, q)
      decreases if p in t && rootPage in t then t[rootPage].h - t[p].h else 0
    {
      hide *;
      PendingPages(pages, t, rootPage, MaxSize(), leaves, contents, p, q, at, par);
      if pages[p].parent == NO_PAGE {
        GrowRoot(p, key, q, at, par);
      } else {
        var g := EnterKid(p, key, q, at, par);
        if |pages[g].keys| >= MaxSize() {
          ghost var pages1 := pages;
          var q' := Split(g, 0);
          SplitPending(pages1, pages, t, rootPage, numPages - 1, nextPageNo - 1, MaxSize(), leaves, contents, g, q', 0);
          InnerKeepsLeaves(t[g], leaves, 0, q');
          InsertIntoParent(g, pages[q'].keys[0], q', 0, ParentMap(pages1));
        }
      }
    }

    // Inserts the entry unless the key is present; returns the leaf the key belongs to.
    method InsertEntry(key: Key, value: Rid) returns (p: int)
      requires Valid()
      modifies this
      ensures Valid()
      ensures contents == if key in old(contents) then old(contents) else old(contents)[key := value]
      ensures p in old(t) && old(t)[p].h == 0 && old(t)[p].Covers(key)
    {
      hide Whole;
      p := FindLeafPage(key);
      SearchedLeaf(pages, t, rootPage, numPages, nextPageNo, MaxSize(), NO_PAGE, leaves, contents, p, key);
      var pos, found := LeafLookup(p, key);
      if !found {
        InsertNew(p, pos, key, value);
      }
    }

    // Inserts a new key into its leaf and splits the leaf if it is full.
    method InsertNew(p: int, pos: nat, key: Key, value: Rid)
      requires Whole(pages, t, rootPage, numPages, nextPageNo, MaxSize(), NO_PAGE, leaves, contents)
      requires |leaves| > 0 && firstLeaf == leaves[0] && lastLeaf == leaves[|leaves| - 1]
      requires p in t && t[p].h == 0 && t[p].Covers(key) && IsSlot(t[p], pos, key) && key !in contents
      modifies this
      ensures Whole(pages, t, rootPage, numPages, nextPageNo, MaxSize(), NO_PAGE, leaves, contents)
      ensures |leaves| > 0 && firstLeaf == leaves[0] && lastLeaf == leaves[|leaves| - 1]
      ensures contents == old(contents)[key := value]
    {
      hide *;
      LeavesDistinct(pages, t, rootPage, numPages, nextPageNo, MaxSize(), NO_PAGE, leaves, contents);
      SearchedLeaf(pages, t, rootPage, numPages, nextPageNo, MaxSize(), NO_PAGE, leaves, contents, p, key);
      InsertStep(pages, t, rootPage, numPages, nextPageNo, MaxSize(), leaves, contents, p, pos, key, value);
      ghost var t' := t[p := WithEntry(t[p], pos, key, value)];
      pages := pages[p := InsertPair(pages[p], pos, key, value)];
      t, contents := t', contents[key := value];
      if |pages[p].keys| >= MaxSize() {
        SplitFullLeaf(p);
      }
    }

    method SplitFullLeaf(p: int)
      requires Whole(pages, t, rootPage, numPages, nextPageNo, MaxSize(), p, leaves, contents)
      requires |leaves| > 0 && firstLeaf == leaves[0] && lastLeaf == leaves[|leaves| - 1]
      requires p in t && t[p].h == 0 && |t[p].keys| == MaxSize() && p in leaves
      modifies this
      ensures Whole(pages, t, rootPage, numPages, nextPageNo, MaxSize(), NO_PAGE, leaves, contents)
      ensures |leaves| > 0 && firstLeaf == leaves[0] && lastLeaf == leaves[|leaves| - 1]
      ensures contents == old(contents)
    {
      hide *;
      LeavesDistinct(pages, t, rootPage, numPages, nextPageNo, MaxSize(), p, leaves, contents);
      ghost var at: nat :| at < |leaves| && leaves[at] == p;
      ghost var pages0, leaves0 := pages, leaves;
      var q := Split(p, at);
      SplitPending(pages0, pages, t, rootPage, numPages - 1, nextPageNo - 1, MaxSize(), leaves, contents, p, q, at);
      LastAfterInsert(leaves, at, q, lastLeaf);
      if lastLeaf == p {
        lastLeaf := q;
      }
      InsertIntoParent(p, pages[q].keys[0], q, at, ParentMap(pages0));
      LeafGrowsLeaves(old(t)[p], leaves0, at, q);
    }

    // ---------------------------------------------------------------- deletion

    // Deletes the entry of the key, if there is one, and says whether there was.
    method DeleteEntry(key: Key) returns (deleted: bool)
      requires Valid()
      modifies this
      ensures Valid()
      ensures deleted <==> key in old(contents)
      ensures contents == old(contents) - {key}
    {
      hide Whole;
      var p := FindLeafPage(key);
      SearchedLeaf(pages, t, rootPage, numPages, nextPageNo, MaxSize(), NO_PAGE, leaves, contents, p, key);
      var pos, found := LeafLookup(p, key);
      if !found {
        return false;
      }
      EraseEntry(p, pos);
      var gone := CoalesceOrRedistribute(p);
      return true;
    }

    // Takes entry pos out of leaf p, and repairs the separators above it.
    method EraseEntry(p: int, pos: nat)
      requires Whole(pages, t, rootPage, numPages, nextPageNo, MaxSize(), NO_PAGE, leaves, contents)
      requires p in t && t[p].h == 0 && pos < |t[p].keys|
      modifies this
      ensures Shrunk(pages, t, rootPage, numPages, nextPageNo, MaxSize(), p, leaves, contents)
      ensures contents == old(contents) - {old(t)[p].keys[pos]} && leaves == old(leaves)
      ensures rootPage == old(rootPage) && firstLeaf == old(firstLeaf) && lastLeaf == old(lastLeaf)
    {
      hide *;
      EraseStep(pages, t, rootPage, numPages, nextPageNo, MaxSize(), leaves, contents, p, pos);
      ghost var pages0, u := pages, Cut(t, p, pos);
      pages := pages[p := ErasePair(pages[p], pos)];
      if |pages[p].keys| > 0 {
        u := MaintainParent(p, pages0, pos, OldFirst(t[p], pos), NewFirst(t[p], pos), u);
      }
      EraseDone(pages0, pages, t, u, rootPage, numPages, nextPageNo, MaxSize(), leaves, contents, p, pos);
      IntroShrunk(pages, u, rootPage, numPages, nextPageNo, MaxSize(), p, leaves, contents - {t[p].keys[pos]});
      t, contents := u, contents - {t[p].keys[pos]};
    }

    // Copies the first key of p upwards until it meets itself; u follows the tree.
    method MaintainParent(p: int, ghost pages0: Pages, ghost pos: nat, ghost a: Key, ghost b: Key, ghost u0: Tree)
      returns (ghost u: Tree)
      requires Erasing(pages0, pages, t, rootPage, leaves, u0, p, pos, a, b, p, a == b)
      modifies this
      ensures t == old(t) && leaves == old(leaves) && contents == old(contents)
      ensures rootPage == old(rootPage) && firstLeaf == old(firstLeaf) && lastLeaf == old(lastLeaf)
      ensures numPages == old(numPages) && nextPageNo == old(nextPageNo)
      ensures Erased(t, u, p, pos, a, b) && Stored(pages, u) && SameButEntries(pages0, pages)
    {
      hide *;
      var curr := p;
      u := u0;
      ghost var done := a == b;
      ErasingRead(pages0, pages, t, rootPage, leaves, u, p, pos, a, b, curr, done);
      while pages[curr].parent != NO_PAGE
        invariant t == old(t) && leaves == old(leaves) && contents == old(contents)
        invariant rootPage == old(rootPage) && firstLeaf == old(firstLeaf) && lastLeaf == old(lastLeaf)
        invariant numPages == old(numPages) && nextPageNo == old(nextPageNo)
        invariant Erasing(pages0, pages, t, rootPage, leaves, u, p, pos, a, b, curr, done)
        invariant curr in pages && curr in t && rootPage in t && (pages[curr].parent == NO_PAGE <==> curr == rootPage)
        decreases t[rootPage].h - t[curr].h
      {
        ErasingRead(pages0, pages, t, rootPage, leaves, u, p, pos, a, b, curr, done);
        var g := pages[curr].parent;
        var rank := FindChild(pages[g], curr);
        ErasingStep(pages0, pages, t, rootPage, leaves, u, p, pos, a, b, curr, done, rank);
        if pages[g].keys[rank] == pages[curr].keys[0] {
          break;
        }
        u := WithKey(u, g, rank, u[curr].keys[0]);
        done := done || t[g].lo != At(a);
        pages := pages[g := SetKey(pages[g], rank, pages[curr].keys[0])];
        curr := g;
        ErasingRead(pages0, pages, t, rootPage, leaves, u, p, pos, a, b, curr, done);
      }
      ErasingEnd(pages0, pages, t, rootPage, leaves, u, p, pos, a, b, curr, done);
    }

    // Brings p back within its size limits; returns whether p has left the tree.
    method CoalesceOrRedistribute(p: int) returns (gone: bool)
      requires Shrunk(pages, t, rootPage, numPages, nextPageNo, MaxSize(), p, leaves, contents)
        && Ends(leaves, firstLeaf, lastLeaf)
      modifies this
      ensures Whole(pages, t, rootPage, numPages, nextPageNo, MaxSize(), NO_PAGE, leaves, contents)
        && Ends(leaves, firstLeaf, lastLeaf)
      ensures contents == old(contents) && t.Keys <= old(t).Keys
      ensures gone <==> p !in t
      decreases if p in t && rootPage in t then t[rootPage].h - t[p].h else 0, 1
    {
      assert MinSize() == MaxSize() / 2;
      hide *;
      ShrunkRead(pages, t, rootPage, numPages, nextPageNo, MaxSize(), p, leaves, contents);
      if pages[p].parent == NO_PAGE {
        gone := AdjustRoot();
        return;
      }
      if |pages[p].keys| >= MinSize() {
        return false;
      }
      var g := pages[p].parent;
      var index := FindChild(pages[g], p);
      var neigh := if index == 0 then pages[g].rids[1].pageNo else pages[g].rids[index - 1].pageNo;
      FindSiblings(pages, t, rootPage, numPages, nextPageNo, MaxSize(), p, leaves, contents, g, index, neigh);
      SiblingFacts(pages, t, rootPage, numPages, nextPageNo, MaxSize(), p, leaves, contents, g, index, neigh);
      if |pages[p].keys| + |pages[neigh].keys| >= MinSize() * 2 {
        Redistribute(neigh, p, g, index);
        return false;
      }
      var parentGone := Coalesce(neigh, p, g, index);
      return true;
    }

    // A root with a single kid is replaced by the kid; an empty leaf stays the root.
    method AdjustRoot() returns (gone: bool)
      requires Shrunk(pages, t, rootPage, numPages, nextPageNo, MaxSize(), rootPage, leaves, contents)
        && Ends(leaves, firstLeaf, lastLeaf)
      modifies this
      ensures Whole(pages, t, rootPage, numPages, nextPageNo, MaxSize(), NO_PAGE, leaves, contents)
        && Ends(leaves, firstLeaf, lastLeaf)
      ensures contents == old(contents) && t.Keys <= old(t).Keys
      ensures gone <==> old(rootPage) !in t
    {
      hide *;
      LowerStep(pages, t, rootPage, numPages, nextPageNo, MaxSize(), leaves, contents);
      if !pages[rootPage].isLeaf && |pages[rootPage].keys| == 1 {
        var c := pages[rootPage].rids[0].pageNo;
        ghost var pages', t' := Lowered(pages, rootPage, c), t - {rootPage};
        LowerPages(c);
        rootPage := c;
        numPages := numPages - 1;
        t := t';
        return true;
      }
      return false;
    }

    method LowerPages(c: int)
      requires rootPage in pages && c in pages && c != rootPage
      modifies this
      ensures t == old(t) && leaves == old(leaves) && contents == old(contents)
      ensures rootPage == old(rootPage) && firstLeaf == old(firstLeaf) && lastLeaf == old(lastLeaf)
      ensures numPages == old(numPages) && nextPageNo == old(nextPageNo)
      ensures rootPage in old(pages) && c in old(pages) && pages == Lowered(old(pages), rootPage, c)
    {
      pages := pages[rootPage := ErasePair(pages[rootPage], 0)];
      pages := pages[c := pages[c].(parent := NO_PAGE)];
    }

    // The neighbour gives p one entry, and the parent learns where the right one of the two starts.
    method Redistribute(neigh: int, p: int, g: int, index: nat)
      requires Siblings(pages, t, rootPage, numPages, nextPageNo, MaxSize(), p, leaves, contents, g, index, neigh)
      requires p in t && neigh in t && |t[p].keys| + |t[neigh].keys| >= MaxSize() / 2 * 2
      modifies this
      ensures Whole(pages, t, rootPage, numPages, nextPageNo, MaxSize(), NO_PAGE, leaves, contents)
      ensures contents == old(contents) && leaves == old(leaves) && t.Keys == old(t).Keys
      ensures firstLeaf == old(firstLeaf) && lastLeaf == old(lastLeaf)
    {
      hide *;
      PassStep(pages, t, rootPage, numPages, nextPageNo, MaxSize(), p, leaves, contents, g, index, neigh);
      ghost var pages0 := pages;
      PassEntry(neigh, p, index);
      MaintainChild(p, if index == 0 then |pages[p].keys| - 1 else 0);
      BalanceStep(pages0, pages, t, rootPage, numPages, nextPageNo, MaxSize(), p, leaves, contents, g, index, neigh);
      ghost var t' := Redistributed(t, g, index, p, neigh);
      if index == 0 {
        var slot := FindChild(pages[g], neigh);
        SlotIs(index);
        pages := pages[g := SetKey(pages[g], slot, pages[neigh].keys[0])];
      } else {
        SlotIs(index);
        pages := pages[g := SetKey(pages[g], index, pages[p].keys[0])];
      }
      t := t';
    }

    method PassEntry(neigh: int, p: int, index: nat)
      requires p in pages && neigh in pages && p != neigh && |pages[neigh].keys| == |pages[neigh].rids| > 0
      modifies this
      ensures t == old(t) && leaves == old(leaves) && contents == old(contents)
      ensures rootPage == old(rootPage) && firstLeaf == old(firstLeaf) && lastLeaf == old(lastLeaf)
      ensures numPages == old(numPages) && nextPageNo == old(nextPageNo)
      ensures p in old(pages) && neigh in old(pages) && pages == Passed(old(pages), p, neigh, index)
    {
      if index == 0 {
        pages := pages[p := InsertPair(pages[p], |pages[p].keys|, pages[neigh].keys[0], pages[neigh].rids[0])];
        pages := pages[neigh := ErasePair(pages[neigh], 0)];
      } else {
        var last := |pages[neigh].keys| - 1;
        pages := pages[p := InsertPair(pages[p], 0, pages[neigh].keys[last], pages[neigh].rids[last])];
        pages := pages[neigh := ErasePair(pages[neigh], last)];
      }
    }

    // Merges p into its neighbour and goes on with the parent; returns whether the parent has left the tree.
    method Coalesce(neigh: int, p: int, g: int, index: nat) returns (parentGone: bool)
      requires Siblings(pages, t, rootPage, numPages, nextPageNo, MaxSize(), p, leaves, contents, g, index, neigh)
      requires p in t && neigh in t && |t[p].keys| + |t[neigh].keys| < MaxSize() / 2 * 2
        && Ends(leaves, firstLeaf, lastLeaf)
      modifies this
      ensures Whole(pages, t, rootPage, numPages, nextPageNo, MaxSize(), NO_PAGE, leaves, contents)
        && Ends(leaves, firstLeaf, lastLeaf)
      ensures contents == old(contents) && t.Keys <= old(t).Keys && p !in t
      ensures parentGone <==> g !in t
      decreases if p in t && rootPage in t then t[rootPage].h - t[p].h else 0, 0
    {
      hide *;
      ghost var pages0 := pages;
      ghost var at := Absorb(neigh, p, g, index);
      MergeStep(pages0, pages, t, rootPage, numPages, nextPageNo, MaxSize(), p, old(leaves), contents, g, index, neigh,
        at);
      ghost var t' := Coalesced(t, g, index, p, neigh);
      EditParent(neigh, g, index, MergedKey(t, g, index, p));
      numPages := numPages - 1;
      t := t';
      parentGone := CoalesceOrRedistribute(g);
    }

    // The parent forgets p; if p came first, the neighbour moves to the front under its new first key.
    method EditParent(neigh: int, g: int, index: nat, ghost k0: Key)
      requires g in pages && neigh in pages && |pages[g].keys| >= 2 && |ErasePair(pages[g], 0).keys| > 0
        && |pages[neigh].keys| > 0 && neigh != g
      requires index == 0 ==> k0 == pages[neigh].keys[0]
      modifies this
      ensures t == old(t) && leaves == old(leaves) && contents == old(contents)
      ensures rootPage == old(rootPage) && firstLeaf == old(firstLeaf) && lastLeaf == old(lastLeaf)
      ensures numPages == old(numPages) && nextPageNo == old(nextPageNo)
      ensures g in old(pages) && |old(pages)[g].keys| >= 2 && pages == old(pages)[g := ParentEdited(old(pages)[g],
        index, k0)]
    {
      if index == 0 {
        pages := pages[g := ErasePair(pages[g], 0)];
        pages := pages[g := SetKey(pages[g], 0, pages[neigh].keys[0])];
      } else {
        pages := pages[g := ErasePair(pages[g], index)];
      }
    }

    // The neighbour takes the entries of p over; leaf list and header forget p.
    method Absorb(neigh: int, p: int, ghost g: int, index: nat) returns (ghost at: nat)
      requires Siblings(pages, t, rootPage, numPages, nextPageNo, MaxSize(), p, leaves, contents, g, index, neigh)
      requires Ends(leaves, firstLeaf, lastLeaf)
      modifies this
      ensures t == old(t) && contents == old(contents) && rootPage == old(rootPage)
      ensures numPages == old(numPages) && nextPageNo == old(nextPageNo)
      ensures p in t && LeafPair(t, old(leaves), p, neigh, index, at) && (t[p].h == 0 ==> at + 1 < |old(leaves)|)
      ensures leaves == LeavesAfterMerge(t[p], old(leaves), at, index)
      ensures HalfMerged(old(pages), pages, t, p, neigh, index, leaves)
      ensures Ends(leaves, firstLeaf, lastLeaf)
    {
      hide *;
      SiblingFacts(pages, t, rootPage, numPages, nextPageNo, MaxSize(), p, leaves, contents, g, index, neigh);
      AbsorbStart(pages, t, rootPage, numPages, nextPageNo, MaxSize(), p, leaves, contents, g, index, neigh);
      ChainOf(t, rootPage, MaxSize(), p, leaves, contents);
      at := FindLeafPair(t, rootPage, leaves, g, index, p, neigh);
      PairAt(t, leaves, p, neigh, index, at);
      ghost var pages0 := pages;
      var size := |pages[neigh].keys|;
      TakeEntries(neigh, p, index);
      if !pages[neigh].isLeaf {
        ghost var pages1 := pages;
        if index == 0 {
          MaintainChildren(neigh, 0, |pages[p].keys|);
        } else {
          MaintainChildren(neigh, size, |pages[neigh].keys|);
        }
        LaidStored(pages0, t, rootPage, leaves);
        AbsorbInner(pages0, pages1, pages, t, p, neigh, index, leaves);
        InnerLeaves(t[p], leaves, at, index);
      } else {
        ForgetLeaf(neigh, p, index, at, pages0);
      }
    }

    method TakeEntries(neigh: int, p: int, index: nat)
      requires p in pages && neigh in pages
      modifies this
      ensures t == old(t) && leaves == old(leaves) && contents == old(contents)
      ensures rootPage == old(rootPage) && firstLeaf == old(firstLeaf) && lastLeaf == old(lastLeaf)
      ensures numPages == old(numPages) && nextPageNo == old(nextPageNo)
      ensures p in old(pages) && neigh in old(pages) && pages == Absorbing(old(pages), p, neigh, index)
      ensures pages.Keys == old(pages).Keys && (p != neigh ==> pages[p] == old(pages)[p])
    {
      if index == 0 {
        pages := pages[neigh := InsertPairs(pages[neigh], 0, pages[p].keys, pages[p].rids)];
      } else {
        pages := pages[neigh := InsertPairs(pages[neigh], |pages[neigh].keys|, pages[p].keys, pages[p].rids)];
      }
    }

    // Takes leaf p, merged into its neighbour, out of the leaf list and the header.
    method ForgetLeaf(neigh: int, p: int, index: nat, ghost at: nat, ghost pages0: Pages)
      requires p in t && neigh in t && |t[p].rids| == |t[p].keys| && t[p].h == 0
      requires Stored(pages, t[neigh := Joined(t[LeftOf(index, p, neigh)], t[RightOf(index, p, neigh)])])
        && SameButEntries(pages0, pages)
      requires LeafPair(t, leaves, p, neigh, index, at) && Ends(leaves, firstLeaf, lastLeaf)
      requires Shape(t, rootPage) && Chain(t, leaves) && Laid(pages0, t, rootPage, leaves)
      modifies this
      ensures t == old(t) && contents == old(contents) && rootPage == old(rootPage)
      ensures numPages == old(numPages) && nextPageNo == old(nextPageNo)
      ensures at + 1 < |old(leaves)| && leaves == LeavesAfterMerge(t[p], old(leaves), at, index)
      ensures HalfMerged(pages0, pages, t, p, neigh, index, leaves)
      ensures Ends(leaves, firstLeaf, lastLeaf)
    {
      hide *;
      LeafAt(t, leaves, p, neigh, index, at);
      AbsorbLeaf(pages0, pages, t, rootPage, p, neigh, index, leaves, if index == 0 then at else at + 1);
      LeafLinks(pages0, t, rootPage, leaves, at);
      EndsAfterMerge(t[p], leaves, at, index, p, neigh, firstLeaf, lastLeaf);
      EraseLeaf(p);
      if index == 0 {
        if firstLeaf == p {
          firstLeaf := neigh;
        }
      } else {
        if lastLeaf == p {
          lastLeaf := neigh;
        }
      }
      leaves := LeavesAfterMerge(t[p], leaves, at, index);
    }

    // The leaves before and after p become neighbours.
    method EraseLeaf(p: int)
      requires p in pages && pages[p].prevLeaf in pages && pages[p].nextLeaf in pages && pages[p].prevLeaf != p
      modifies this
      ensures t == old(t) && leaves == old(leaves) && contents == old(contents)
      ensures rootPage == old(rootPage) && firstLeaf == old(firstLeaf) && lastLeaf == old(lastLeaf)
      ensures numPages == old(numPages) && nextPageNo == old(nextPageNo)
      ensures p in old(pages) && old(pages)[p].prevLeaf in old(pages) && old(pages)[p].nextLeaf in old(pages)
        && pages == Unlinked(old(pages), p)
    {
      var prev := pages[p].prevLeaf;
      pages := pages[prev := pages[prev].(nextLeaf := pages[p].nextLeaf)];
      var next := pages[p].nextLeaf;
      pages := pages[next := pages[next].(prevLeaf := pages[p].prevLeaf)];
    }
  }

  lemma EmptyIndex(maxSize: nat)
    requires maxSize >= 4
    ensures var t: Tree := map[INIT_ROOT_PAGE := TNode(0, Open, Open, [], [])];
            var pages := map[
              LEAF_HEADER_PAGE := Node(NO_PAGE, true, INIT_ROOT_PAGE, INIT_ROOT_PAGE, [], []),
              INIT_ROOT_PAGE := Node(NO_PAGE, true, LEAF_HEADER_PAGE, LEAF_HEADER_PAGE, [], [])];
            && Sound(t, INIT_ROOT_PAGE, maxSize, NO_PAGE, [INIT_ROOT_PAGE], map[])
            && Laid(pages, t, INIT_ROOT_PAGE, [INIT_ROOT_PAGE])
  {
  }
}
