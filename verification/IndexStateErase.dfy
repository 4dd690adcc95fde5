/** What taking an entry out of a leaf, and the climb of `maintain_parent`, do to the index. */
module IndexStateErase {
  import opened RecordIds
  import opened IndexTree
  import opened IndexTreeMerge
  import opened IndexTreeErase
  import opened IndexNode
  import opened IndexPages
  import opened IndexState
  import opened IndexClimb

  // Within its size limits but for the one entry that was just taken out.
  predicate Short(n: TNode, isRoot: bool, maxSize: nat) {
    |n.keys| < maxSize && if isRoot then n.h > 0 ==> |n.keys| >= 1 else |n.keys| + 1 >= maxSize / 2
  }

  // The pages differ in keys and rids only.
  ghost predicate SameButEntries(pages: Pages, pages': Pages) {
    pages'.Keys == pages.Keys && forall x :: x in pages ==> pages'[x] == pages[x].(keys := pages'[x].keys,
      rids := pages'[x].rids)
  }

  lemma SameButEntriesMaps(pages: Pages, pages': Pages)
    requires SameButEntries(pages, pages')
    ensures ParentMap(pages') == ParentMap(pages) && NextMap(pages') == NextMap(pages)
      && PrevMap(pages') == PrevMap(pages)
    ensures pages'.Keys == pages.Keys
  {
    forall x | x in pages ensures pages'[x].parent == pages[x].parent && pages'[x].nextLeaf == pages[x].nextLeaf
      && pages'[x].prevLeaf == pages[x].prevLeaf {
    }
    assert ParentMap(pages') == ParentMap(pages) && NextMap(pages') == NextMap(pages)
      && PrevMap(pages') == PrevMap(pages);
  }

  lemma SameButEntriesNext(pages: Pages, pages': Pages, x: int, n: Node)
    requires SameButEntries(pages, pages') && x in pages' && n == pages'[x].(keys := n.keys, rids := n.rids)
    ensures SameButEntries(pages, pages'[x := n])
  {
  }

  // Entry pos of leaf p has left page p, and the climb has come to page curr.
  ghost predicate Erasing(pages0: Pages, pages: Pages, t: Tree, root: int, leaves: seq<int>, u: Tree, p: int, pos: nat,
          a: Key, b: Key, curr: int, done: bool) {
    && Shape(t, root) && Laid(pages0, t, root, leaves) && Boundary(t, p, pos, a, b) && |t[p].keys| >= 2
    && Climbing(t, root, u, p, pos, a, b, curr, done) && curr in t && (curr == p || t[curr].h > 0)
    && Stored(pages, u) && SameButEntries(pages0, pages)
  }

  lemma EntryErased(n: Node, pos: nat)
    requires pos < |n.keys| && |n.keys| == |n.rids|
    ensures ErasePair(n, pos) == n.(keys := RemoveAt(n.keys, pos), rids := RemoveAt(n.rids, pos))
  {
  }

  lemma StartStored(pages: Pages, t: Tree, p: int, pos: nat, a: Key, b: Key, n: Node)
    requires Stored(pages, t) && p in t && t[p].h == 0 && pos < |t[p].keys| && |t[p].keys| == |t[p].rids|
    requires n.isLeaf && n.keys == RemoveAt(t[p].keys, pos) && n.rids == RemoveAt(t[p].rids, pos)
    ensures Stored(pages[p := n], ClimbStart(t, p, pos, a, b))
  {
  }

  lemma ErasingStart(pages: Pages, t: Tree, root: int, leaves: seq<int>, p: int, pos: nat, a: Key, b: Key)
    requires Shape(t, root) && Laid(pages, t, root, leaves) && Boundary(t, p, pos, a, b) && |t[p].keys| >= 2
    ensures p in pages
    ensures Erasing(pages, pages[p := ErasePair(pages[p], pos)], t, root, leaves, ClimbStart(t, p, pos, a, b), p, pos,
      a, b, p, a == b)
  {
    NodePage(pages, t, root, leaves, p);
    ClimbStarts(t, root, p, pos, a, b);
    EntryErased(pages[p], pos);
    StartStored(pages, t, p, pos, a, b, ErasePair(pages[p], pos));
    RootTop(t, root, p);
    assert t[p].Ok();
    hide Shape, Laid, Stored, Climb, ClimbStart;
    SameButEntriesNext(pages, pages, p, ErasePair(pages[p], pos));
  }

  lemma ClimbSame(t: Tree, u: Tree, p: int, pos: nat, a: Key, b: Key, top: nat, x: int)
    requires Climb(t, u, p, pos, a, b, top) && x in t && |t[p].keys| >= 2
    ensures x in u && u[x].h == t[x].h && |u[x].keys| == |t[x].keys| - if x == p then 1 else 0
    ensures x != p ==> u[x].rids == t[x].rids
    ensures t[p].h == 0
  {
    assert x != p ==> Relabelled(t[x], u[x], a, b);
  }

  lemma SameNode(pages0: Pages, pages: Pages, u: Tree, x: int)
    requires Stored(pages, u) && SameButEntries(pages0, pages) && x in u
    ensures x in pages0 && x in pages && pages[x].parent == pages0[x].parent
    ensures pages[x].keys == u[x].keys && pages[x].rids == u[x].rids
  {
  }

  lemma InnerFull(n: TNode)
    requires n.Ok()
    ensures n.h > 0 ==> |n.keys| > 0
  {
  }

  // A page during the climb.
  lemma ErasingNode(pages0: Pages, pages: Pages, t: Tree, root: int, leaves: seq<int>, u: Tree, p: int, pos: nat,
          a: Key, b: Key, curr: int, done: bool, x: int)
    requires Erasing(pages0, pages, t, root, leaves, u, p, pos, a, b, curr, done) && x in t
    ensures x in pages0 && x in pages && x in u && pages[x].parent == pages0[x].parent
    ensures pages[x].keys == u[x].keys && (x == p || t[x].h > 0 ==> |pages[x].keys| > 0)
    ensures t[x].h > 0 ==> pages[x].rids == pages0[x].rids && |pages[x].keys| == |pages0[x].keys|
  {
    hide Climb, Boundary, Shape, Laid, Stored, SameButEntries;
    var top := if done then t[root].h else t[curr].h;
    assert Climb(t, u, p, pos, a, b, top) && Stored(pages, u) && SameButEntries(pages0, pages) && Shape(t, root)
      && Laid(pages0, t, root, leaves);
    hide *;
    NodePage(pages0, t, root, leaves, x);
    ClimbSame(t, u, p, pos, a, b, top, x);
    SameNode(pages0, pages, u, x);
    InnerFull(t[x]);
  }

  // What the loop reads at curr and its parent.
  lemma ErasingRead(pages0: Pages, pages: Pages, t: Tree, root: int, leaves: seq<int>, u: Tree, p: int, pos: nat,
          a: Key, b: Key, curr: int, done: bool)
    requires Erasing(pages0, pages, t, root, leaves, u, p, pos, a, b, curr, done)
    ensures curr in pages && curr in u && curr in t && root in t && |pages[curr].keys| > 0
      && pages[curr].keys == u[curr].keys
    ensures pages[curr].parent == NO_PAGE <==> curr == root
    ensures curr != root ==>
              && var g := pages[curr].parent;
              && g in pages && g in t && g in u && t[g].h == t[curr].h + 1 <= t[root].h && pages[g].keys == u[g].keys
              && |pages[g].keys| == |pages[g].rids|
              && exists i :: 0 <= i < |pages[g].rids| && pages[g].rids[i].pageNo == curr
  {
    assert curr in t && root in t && Shape(t, root) && Laid(pages0, t, root, leaves);
    hide *;
    ErasingNode(pages0, pages, t, root, leaves, u, p, pos, a, b, curr, done, curr);
    NodePage(pages0, t, root, leaves, curr);
    if curr != root {
      ParentPage(pages0, t, root, leaves, curr);
      var g := pages0[curr].parent;
      RootTop(t, root, g);
      ErasingNode(pages0, pages, t, root, leaves, u, p, pos, a, b, curr, done, g);
    }
  }

  function WithKey(u: Tree, g: int, r: nat, k: Key): Tree
    requires g in u && r < |u[g].keys|
  {
    u[g := u[g].(keys := u[g].keys[r := k])]
  }

  // One turn of the loop: either the climb may stop, or the key is copied up.
  lemma ErasingClimb(pages0: Pages, pages: Pages, t: Tree, root: int, leaves: seq<int>, u: Tree, p: int, pos: nat,
          a: Key, b: Key, curr: int, done: bool, r: nat)
    requires Erasing(pages0, pages, t, root, leaves, u, p, pos, a, b, curr, done) && curr != root
    requires curr in pages && pages[curr].parent in pages && r < |pages[pages[curr].parent].rids|
      && pages[pages[curr].parent].rids[r].pageNo == curr
    ensures curr in t && curr in u && |u[curr].keys| > 0
    ensures var g := pages[curr].parent;
            && g in t && g in u && r < |u[g].keys|
            && (u[g].keys[r] == u[curr].keys[0] ==> done)
            && (u[g].keys[r] != u[curr].keys[0] ==>
                  Climbing(t, root, WithKey(u, g, r, u[curr].keys[0]), p, pos, a, b, g, done || t[g].lo != At(a)))
  {
    ErasingRead(pages0, pages, t, root, leaves, u, p, pos, a, b, curr, done);
    var g := pages[curr].parent;
    assert pages[curr].parent == pages0[curr].parent == ParentMap(pages0)[curr];
    ClimbSame(t, u, p, pos, a, b, if done then t[root].h else t[curr].h, g);
    assert g != p;
    assert t[g].rids == pages[g].rids;
    var par := ParentMap(pages0);
    assert Parents(t, root, par);
    hide Shape, Laid, Stored, SameButEntries, Climbing, Parents, Boundary;
    if done {
      ClimbStale(t, root, u, p, pos, a, b, par, curr, r);
    } else {
      ClimbNext(t, root, u, p, pos, a, b, par, curr, r);
    }
  }

  lemma StoredKey(pages: Pages, u: Tree, g: int, r: nat, k: Key)
    requires Stored(pages, u) && g in u && r < |u[g].keys|
    ensures g in pages && r < |pages[g].keys|
    ensures Stored(pages[g := SetKey(pages[g], r, k)], WithKey(u, g, r, k))
  {
  }

  lemma ErasingStep(pages0: Pages, pages: Pages, t: Tree, root: int, leaves: seq<int>, u: Tree, p: int, pos: nat,
          a: Key, b: Key, curr: int, done: bool, r: nat)
    requires Erasing(pages0, pages, t, root, leaves, u, p, pos, a, b, curr, done) && curr != root
    requires curr in pages && pages[curr].parent in pages && r < |pages[pages[curr].parent].rids|
      && pages[pages[curr].parent].rids[r].pageNo == curr
    ensures curr in t && curr in u && |u[curr].keys| > 0 && pages[curr].keys == u[curr].keys
    ensures var g := pages[curr].parent;
            && g in t && g in u && r < |u[g].keys| && pages[g].keys == u[g].keys
            && (pages[g].keys[r] == pages[curr].keys[0] ==> done)
            && (pages[g].keys[r] != pages[curr].keys[0] ==>
                  Erasing(pages0, pages[g := SetKey(pages[g], r, pages[curr].keys[0])], t, root, leaves,
                    WithKey(u, g, r, u[curr].keys[0]), p, pos, a, b, g, done || t[g].lo != At(a)))
  {
    ErasingRead(pages0, pages, t, root, leaves, u, p, pos, a, b, curr, done);
    ErasingClimb(pages0, pages, t, root, leaves, u, p, pos, a, b, curr, done, r);
    var g := pages[curr].parent;
    hide Shape, Laid, Boundary, Stored, SameButEntries, Climbing, WithKey;
    StoredKey(pages, u, g, r, u[curr].keys[0]);
    SameButEntriesNext(pages0, pages, g, SetKey(pages[g], r, pages[curr].keys[0]));
  }

  lemma ErasingEnd(pages0: Pages, pages: Pages, t: Tree, root: int, leaves: seq<int>, u: Tree, p: int, pos: nat,
          a: Key, b: Key, curr: int, done: bool)
    requires Erasing(pages0, pages, t, root, leaves, u, p, pos, a, b, curr, done)
    requires curr == root || done
    ensures Erased(t, u, p, pos, a, b) && Stored(pages, u) && SameButEntries(pages0, pages)
  {
    assert root in t && t[root].lo == Open;
    ClimbDone(t, root, u, p, pos, a, b);
  }

  // The first key of the leaf before and after, where it is an end of intervals; else two equal keys.
  function OldFirst(n: TNode, pos: nat): Key {
    if pos == 0 && n.lo.At? && |n.keys| >= 2 then n.keys[0] else 0
  }

  function NewFirst(n: TNode, pos: nat): Key {
    if pos == 0 && n.lo.At? && |n.keys| >= 2 then n.keys[1] else 0
  }

  // The tree right after the entry has left the page.
  ghost function Cut(t: Tree, p: int, pos: nat): Tree
    requires p in t && pos < |t[p].keys| && |t[p].keys| == |t[p].rids|
  {
    ClimbStart(t, p, pos, OldFirst(t[p], pos), NewFirst(t[p], pos))
  }

  lemma EraseSizes(t: Tree, root: int, maxSize: nat, leaves: seq<int>, contents: map<Key, Rid>, p: int, pos: nat)
    requires Sound(t, root, maxSize, NO_PAGE, leaves, contents) && p in t && t[p].h == 0 && pos < |t[p].keys|
    ensures |t[p].keys| == |t[p].rids| && (|t[p].keys| >= 2 || (p == root && t[p].lo == Open))
    ensures Boundary(t, p, pos, OldFirst(t[p], pos), NewFirst(t[p], pos))
    ensures root in t && Shape(t, root)
  {
    assert Fits(t[p], p == root, maxSize) && t[p].Ok();
  }

  lemma CutSmall(pages: Pages, t: Tree, root: int, leaves: seq<int>, p: int, pos: nat)
    requires Shape(t, root) && Laid(pages, t, root, leaves) && p in t && t[p].h == 0 && pos < |t[p].keys|
      && |t[p].keys| == |t[p].rids|
    requires OldFirst(t[p], pos) == NewFirst(t[p], pos)
    ensures p in pages
    ensures Erased(t, Cut(t, p, pos), p, pos, OldFirst(t[p], pos), NewFirst(t[p], pos))
    ensures Stored(pages[p := ErasePair(pages[p], pos)], Cut(t, p, pos))
      && SameButEntries(pages, pages[p := ErasePair(pages[p], pos)])
  {
    var a, b := OldFirst(t[p], pos), NewFirst(t[p], pos);
    NodePage(pages, t, root, leaves, p);
    ClimbStarts(t, root, p, pos, a, b);
    ClimbDone(t, root, ClimbStart(t, p, pos, a, b), p, pos, a, b);
    EntryErased(pages[p], pos);
    StartStored(pages, t, p, pos, a, b, ErasePair(pages[p], pos));
    hide Shape, Laid, Stored, Climb, ClimbStart, Erased;
    SameButEntriesNext(pages, pages, p, ErasePair(pages[p], pos));
  }

  // What taking entry pos out of leaf p starts.
  lemma EraseStep(pages: Pages, t: Tree, root: int, numPages: int, nextPageNo: int, maxSize: nat, leaves: seq<int>,
          contents: map<Key, Rid>, p: int, pos: nat)
    requires Whole(pages, t, root, numPages, nextPageNo, maxSize, NO_PAGE, leaves, contents) && p in t && t[p].h == 0
      && pos < |t[p].keys|
    ensures p in pages && |t[p].keys| == |t[p].rids| && |pages[p].keys| == |t[p].keys|
    ensures var pages' := pages[p := ErasePair(pages[p], pos)];
            var a, b := OldFirst(t[p], pos), NewFirst(t[p], pos);
            && |pages'[p].keys| == |t[p].keys| - 1
            && (|t[p].keys| >= 2 ==> Erasing(pages, pages', t, root, leaves, Cut(t, p, pos), p, pos, a, b, p, a == b))
            && (|t[p].keys| < 2 ==>
              Erased(t, Cut(t, p, pos), p, pos, a, b)
              && Stored(pages', Cut(t, p, pos)) && SameButEntries(pages, pages'))
  {
    hide Sound, Laid, Counted;
    assert Sound(t, root, maxSize, NO_PAGE, leaves, contents) && Laid(pages, t, root, leaves);
    hide Whole, Shape, Erasing, Erased, Boundary, Stored, SameButEntries, ClimbStart;
    EraseSizes(t, root, maxSize, leaves, contents, p, pos);
    NodePage(pages, t, root, leaves, p);
    EntryErased(pages[p], pos);
    if |t[p].keys| >= 2 {
      ErasingStart(pages, t, root, leaves, p, pos, OldFirst(t[p], pos), NewFirst(t[p], pos));
    } else {
      CutSmall(pages, t, root, leaves, p, pos);
    }
  }

  lemma ErasedSound(t: Tree, u: Tree, root: int, par: map<int, int>, maxSize: nat, leaves: seq<int>,
          contents: map<Key, Rid>, p: int, pos: nat, a: Key, b: Key)
    requires Sound(t, root, maxSize, NO_PAGE, leaves, contents) && Parents(t, root, par)
    requires Boundary(t, p, pos, a, b) && Erased(t, u, p, pos, a, b)
    ensures Sound(u, root, maxSize, p, leaves, contents - {t[p].keys[pos]}) && Parents(u, root, par) && u.Keys == t.Keys
    ensures Short(u[p], p == root, maxSize) && u[p].h == 0
  {
    ErasedShape(t, root, u, p, pos, a, b, par);
    ErasedParents(t, root, u, p, pos, a, b, par);
    ErasedSized(t, root, u, p, pos, a, b, maxSize);
    ErasedChain(t, root, u, p, pos, a, b, leaves);
    ErasedHolds(t, root, u, p, pos, a, b, contents);
    hide Shape, Parents, Sized, Chain, Holds;
  }

  // The index after the climb: the entry is gone, and only the size of the leaf is open.
  lemma EraseDone(pages0: Pages, pages: Pages, t: Tree, u: Tree, root: int, numPages: int, nextPageNo: int,
          maxSize: nat, leaves: seq<int>, contents: map<Key, Rid>, p: int, pos: nat)
    requires Whole(pages0, t, root, numPages, nextPageNo, maxSize, NO_PAGE, leaves, contents) && p in t && t[p].h == 0
      && pos < |t[p].keys|
    requires Erased(t, u, p, pos, OldFirst(t[p], pos), NewFirst(t[p], pos)) && Stored(pages, u)
      && SameButEntries(pages0, pages)
    ensures Whole(pages, u, root, numPages, nextPageNo, maxSize, p, leaves, contents - {t[p].keys[pos]})
    ensures p in u && u[p].h == 0 && Short(u[p], p == root, maxSize)
  {
    hide Sound, Stored, SameButEntries, Erased, Parents, Linked, ParentMap, NextMap, PrevMap;
    EraseSizes(t, root, maxSize, leaves, contents, p, pos);
    SameButEntriesMaps(pages0, pages);
    ErasedSound(t, u, root, ParentMap(pages0), maxSize, leaves, contents, p, pos, OldFirst(t[p], pos),
      NewFirst(t[p], pos));
    assert |u| == |t| by {
      assert |u.Keys| == |u| && |t.Keys| == |t|;
    }
  }
}
