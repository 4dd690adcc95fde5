/**
 The logical content of a B+ tree file: one logical node per page, each with the
 interval of keys it is responsible for.  The invariants are local (a node, a node and
 one kid, two nodes of one level), so that the page-by-page steps of the index can be
 justified one at a time.
 */
module IndexTree {
  import opened RecordIds

  // A key stands for its position in the order of `ix_compare`, see module KeyOrder.
  type Key = int

  // The end of an interval of keys: unbounded, or at a key.
  datatype Bound = Open | At(key: Key)

  // h: height above the leaves; lo (inclusive) and hi (exclusive): the interval of keys.
  datatype TNode = TNode(h: nat, lo: Bound, hi: Bound, keys: seq<Key>, rids: seq<Rid>) {

    // Key 0 of an inner node on the leftmost spine is a sentinel that may be stale.
    predicate Live(i: int) {
      0 <= i < |keys| && (i >= 1 || h == 0 || lo.At?)
    }

    ghost predicate Ok() {
      && |keys| == |rids|
      && (h > 0 ==> |keys| >= 1)
      && (lo.At? ==> |keys| >= 1 && keys[0] == lo.key)
      && (forall i, j :: Live(i) && i < j < |keys| ==> keys[i] < keys[j])
      && (hi.At? ==> forall i :: Live(i) ==> keys[i] < hi.key)
    }

    function Kid(i: int): int
      requires 0 <= i < |rids|
    {
      rids[i].pageNo
    }

    function KidLo(i: int): Bound
      requires 0 <= i < |keys|
    {
      if i == 0 then lo else At(keys[i])
    }

    function KidHi(i: int): Bound
      requires 0 <= i < |keys|
    {
      if i + 1 < |keys| then At(keys[i + 1]) else hi
    }

    predicate Covers(k: Key) {
      (lo.At? ==> lo.key <= k) && (hi.At? ==> k < hi.key)
    }
  }

  type Tree = map<int, TNode>

  const NO_PAGE := -1

  ghost predicate Before(m: TNode, n: TNode) {
    m.hi.At? && n.lo.At? && m.hi.key <= n.lo.key
  }

  ghost predicate Nodes(t: Tree, root: int) {
    && root in t && t[root].lo == Open && t[root].hi == Open
    && (forall p :: p in t ==> p >= 2 && t[p].Ok() && t[p].h <= t[root].h)
  }

  ghost predicate KidOk(t: Tree, p: int, i: int)
    requires p in t && 0 <= i < |t[p].rids| && |t[p].keys| == |t[p].rids|
  {
    var c := t[p].Kid(i);
    && c in t
    && t[p].rids[i].slotNo == -1
    && t[c].h + 1 == t[p].h
    && t[c].lo == t[p].KidLo(i)
    && t[c].hi == t[p].KidHi(i)
  }

  ghost predicate Kids(t: Tree) {
    forall p, i :: p in t && t[p].h > 0 && 0 <= i < |t[p].rids| && |t[p].keys| == |t[p].rids| ==> KidOk(t, p, i)
  }

  ghost predicate Levels(t: Tree) {
    forall p, q :: p in t && q in t && p != q && t[p].h == t[q].h ==> Before(t[p], t[q]) || Before(t[q], t[p])
  }

  ghost predicate Shape(t: Tree, root: int) {
    Nodes(t, root) && Kids(t) && Levels(t)
  }

  ghost predicate IsKid(n: TNode, c: int) {
    exists i :: 0 <= i < |n.rids| && n.Kid(i) == c
  }

  // Every parent pointer names the real parent.
  ghost predicate Parents(t: Tree, root: int, par: map<int, int>) {
    && root in par && par[root] == -1
    && (forall p, i :: p in t && t[p].h > 0 && 0 <= i < |t[p].rids| ==> t[p].Kid(i) in par && par[t[p].Kid(i)] == p)
    && (forall c {:trigger par[c]} {:trigger c in par} ::
          c in t && c != root ==> c in par && par[c] in t && t[par[c]].h > 0 && IsKid(t[par[c]], c))
  }

  lemma ParentsAre(t: Tree, root: int, par: map<int, int>)
    requires root in par && par[root] == -1
    requires forall p, i :: p in t && t[p].h > 0 && 0 <= i < |t[p].rids| ==>
      t[p].Kid(i) in par && par[t[p].Kid(i)] == p
    requires forall c {:trigger par[c]} {:trigger c in par} :: c in t && c != root ==>
      c in par && par[c] in t && t[par[c]].h > 0 && IsKid(t[par[c]], c)
    ensures Parents(t, root, par)
  {
  }

  lemma ParentKnown(t: Tree, root: int, par: map<int, int>, x: int, j: nat)
    requires Parents(t, root, par) && x in t && t[x].h > 0 && j < |t[x].rids|
    ensures t[x].Kid(j) in par && par[t[x].Kid(j)] == x
  {
  }

  lemma ParentAbove(t: Tree, root: int, par: map<int, int>, c: int)
    requires Parents(t, root, par) && c in t && c != root
    ensures c in par && par[c] in t && t[par[c]].h > 0 && IsKid(t[par[c]], c)
  {
  }

  // A node that is not being repaired is neither overfull nor underfull.
  predicate Fits(n: TNode, isRoot: bool, maxSize: nat) {
    && |n.keys| < maxSize
    && (if isRoot then n.h > 0 ==> |n.keys| >= 2 else |n.keys| >= maxSize / 2)
  }

  ghost predicate Sized(t: Tree, root: int, maxSize: nat, exc: int) {
    forall p :: p in t && p != exc ==> Fits(t[p], p == root, maxSize)
  }

  // The leaves, each once.
  ghost predicate Roll(t: Tree, leaves: seq<int>) {
    && (forall i :: 0 <= i < |leaves| ==> leaves[i] in t && t[leaves[i]].h == 0)
    && (forall i, j :: 0 <= i < j < |leaves| ==> leaves[i] != leaves[j])
    && (forall p :: p in t && t[p].h == 0 ==> p in leaves)
  }

  // Their intervals adjoin in this order and cover all keys.
  ghost predicate Adjoin(t: Tree, leaves: seq<int>) {
    && |leaves| > 0
    && (forall i :: 0 <= i < |leaves| ==> leaves[i] in t)
    && t[leaves[0]].lo == Open && t[leaves[|leaves| - 1]].hi == Open
    && (forall i, j :: 0 <= i && j == i + 1 && j < |leaves| ==> t[leaves[i]].hi == t[leaves[j]].lo)
  }

  ghost predicate Chain(t: Tree, leaves: seq<int>) {
    Roll(t, leaves) && Adjoin(t, leaves)
  }

  ghost predicate Stores(t: Tree, k: Key) {
    exists p :: p in t && t[p].h == 0 && k in t[p].keys
  }

  ghost predicate EntryOk(t: Tree, contents: map<Key, Rid>, p: int, i: int)
    requires p in t && 0 <= i < |t[p].keys| && |t[p].keys| == |t[p].rids|
  {
    t[p].keys[i] in contents && contents[t[p].keys[i]] == t[p].rids[i]
  }

  // The leaves hold exactly the entries of the map.
  ghost predicate Holds(t: Tree, contents: map<Key, Rid>) {
    && (forall p, i :: p in t && t[p].h == 0 && 0 <= i < |t[p].keys| && |t[p].keys| == |t[p].rids| ==>
      EntryOk(t, contents, p, i))
    && (forall k :: k in contents ==> Stores(t, k))
  }

  // ---------------------------------------------------------------- consequences

  lemma KidLiveKey(t: Tree, root: int, p: int, i: int)
    requires Shape(t, root) && p in t && t[p].h > 0 && 0 <= i < |t[p].rids|
    ensures KidOk(t, p, i)
    ensures t[p].Live(i) ==> t[t[p].Kid(i)].lo == At(t[p].keys[i])
  {
  }

  // Two nodes of one level share no key.
  lemma OneCover(t: Tree, root: int, p: int, q: int, k: Key)
    requires Shape(t, root) && p in t && q in t && t[p].h == t[q].h
    requires t[p].Covers(k) && t[q].Covers(k)
    ensures p == q
  {
  }

  // An entry of a leaf lies in the leaf's interval.
  lemma EntryCovered(n: TNode, i: int)
    requires n.Ok() && n.h == 0 && 0 <= i < |n.keys|
    ensures n.Covers(n.keys[i])
  {
    if n.lo.At? && i > 0 {
      assert n.Live(0);
    }
    assert n.Live(i);
  }

  // Whether a key is stored is decided by the one leaf that covers it.
  lemma Located(t: Tree, root: int, contents: map<Key, Rid>, p: int, k: Key)
    requires Shape(t, root) && Holds(t, contents) && p in t && t[p].h == 0 && t[p].Covers(k)
    ensures k in contents <==> k in t[p].keys
  {
    if k in contents {
      assert Stores(t, k);
      var q :| q in t && t[q].h == 0 && k in t[q].keys;
      var i :| 0 <= i < |t[q].keys| && t[q].keys[i] == k;
      EntryCovered(t[q], i);
      OneCover(t, root, p, q, k);
    }
    if k in t[p].keys {
      var i :| 0 <= i < |t[p].keys| && t[p].keys[i] == k;
      assert EntryOk(t, contents, p, i);
    }
  }

  // The kid that `internal_lookup` picks covers the key.
  lemma Descend(t: Tree, root: int, p: int, pos: nat, k: Key)
    requires Shape(t, root) && p in t && t[p].h > 0 && t[p].Covers(k)
    requires 1 <= pos <= |t[p].keys|
    requires forall i :: 1 <= i < pos ==> t[p].keys[i] <= k
    requires forall i :: pos <= i < |t[p].keys| ==> k < t[p].keys[i]
    ensures |t[p].rids| == |t[p].keys|
    ensures var c := t[p].rids[pos - 1].pageNo; c in t && t[c].h < t[p].h && t[c].Covers(k)
  {
    assert KidOk(t, p, pos - 1);
  }

  // An inner node is sorted from key 1 on.
  lemma InnerSorted(t: Tree, root: int, p: int)
    requires Shape(t, root) && p in t && t[p].h > 0
    ensures |t[p].keys| >= 1 && |t[p].keys| == |t[p].rids|
    ensures forall i, j :: 1 <= i < j < |t[p].keys| ==> t[p].keys[i] < t[p].keys[j]
  {
    assert t[p].Ok();
    assert forall i :: 1 <= i < |t[p].keys| ==> t[p].Live(i);
  }
}
