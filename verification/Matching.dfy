/** Maximum bipartite matching by augmenting paths (the gmock class `MaxBipartiteMatchState`). */
module Matching {
  import opened Arithmetic
  import opened Sets

  // Which elements each matcher accepts, flattened row by row.
  datatype MatchMatrix = MatchMatrix(lhs: nat, rhs: nat, matched: seq<bool>) {

    ghost predicate Valid() {
      |matched| == lhs * rhs
    }

    predicate HasEdge(l: nat, r: nat)
      requires Valid() && l < lhs && r < rhs
    {
      RowFits(l, r, lhs, rhs);
      matched[l * rhs + r]
    }

    function SetEdge(l: nat, r: nat, b: bool): (g: MatchMatrix)
      requires Valid() && l < lhs && r < rhs
      ensures g.Valid() && g.lhs == lhs && g.rhs == rhs
    {
      RowFits(l, r, lhs, rhs);
      this.(matched := matched[l * rhs + r := b])
    }
  }

  // Initially there are no edges.
  function NoEdges(lhs: nat, rhs: nat): (g: MatchMatrix)
    ensures g.Valid() && g.lhs == lhs && g.rhs == rhs
    ensures forall l, r :: 0 <= l < lhs && 0 <= r < rhs ==> !g.HasEdge(l, r)
  {
    AreaNat(lhs, rhs);
    var g := MatchMatrix(lhs, rhs, seq(lhs * rhs, _ => false));
    NoneSet(g);
    g
  }

  lemma AreaNat(lhs: nat, rhs: nat)
    ensures lhs * rhs >= 0
  {
  }

  lemma NoneSet(g: MatchMatrix)
    requires g.Valid() && forall i :: 0 <= i < |g.matched| ==> !g.matched[i]
    ensures forall l, r :: 0 <= l < g.lhs && 0 <= r < g.rhs ==> !g.HasEdge(l, r)
  {
    forall l, r | 0 <= l < g.lhs && 0 <= r < g.rhs ensures !g.HasEdge(l, r) {
      RowFits(l, r, g.lhs, g.rhs);
    }
  }

  // Two pairs of nodes share a cell only if they are the same pair.
  lemma CellsApart(l: nat, r: nat, k: nat, q: nat, rhs: nat)
    requires r < rhs && q < rhs && l * rhs + r == k * rhs + q
    ensures l == k && r == q
  {
    if l < k {
      MulMono(l + 1, k, rhs);
    } else if k < l {
      MulMono(k + 1, l, rhs);
    }
  }

  // An edge that is set is there or not as it was set, and every other edge is as before.
  lemma SetEdgeIs(g: MatchMatrix, l: nat, r: nat, b: bool, k: nat, q: nat)
    requires g.Valid() && l < g.lhs && r < g.rhs && k < g.lhs && q < g.rhs
    ensures g.SetEdge(l, r, b).HasEdge(k, q) <==> if k == l && q == r then b else g.HasEdge(k, q)
  {
    RowFits(l, r, g.lhs, g.rhs);
    RowFits(k, q, g.lhs, g.rhs);
    if l * g.rhs + r == k * g.rhs + q {
      CellsApart(l, r, k, q, g.rhs);
    }
  }

  // The matrix of which element each matcher accepts, filled cell by cell.
  method Analyze(lhs: nat, rhs: nat, accepts: (int, int) -> bool) returns (g: MatchMatrix)
    ensures g.Valid() && g.lhs == lhs && g.rhs == rhs
    ensures forall l, r :: 0 <= l < lhs && 0 <= r < rhs ==> (g.HasEdge(l, r) <==> accepts(l, r))
  {
    g := NoEdges(lhs, rhs);
    for l := 0 to lhs
      invariant g.Valid() && g.lhs == lhs && g.rhs == rhs
      invariant forall k, q :: 0 <= k < lhs && 0 <= q < rhs ==> (g.HasEdge(k, q) <==> k < l && accepts(k, q))
    {
      for r := 0 to rhs
        invariant g.Valid() && g.lhs == lhs && g.rhs == rhs
        invariant forall k, q :: 0 <= k < lhs && 0 <= q < rhs ==>
          (g.HasEdge(k, q) <==> (k < l || (k == l && q < r)) && accepts(k, q))
      {
        ghost var g0 := g;
        g := g.SetEdge(l, r, accepts(l, r));
        forall k, q | 0 <= k < lhs && 0 <= q < rhs
          ensures g.HasEdge(k, q) <==> if k == l && q == r then accepts(l, r) else g0.HasEdge(k, q)
        {
          SetEdgeIs(g0, l, r, accepts(l, r), k, q);
        }
      }
    }
  }

  lemma RowFits(l: nat, r: nat, lhs: nat, rhs: nat)
    requires l < lhs && r < rhs
    ensures l * rhs + r < lhs * rhs
  {
    assert (l + 1) * rhs <= lhs * rhs;
  }

  const UNUSED := -1

  // ---------------------------------------------------------------- matchings

  // An edge set in which no left and no right node occurs twice, as a map from left to right.
  ghost predicate IsMatching(g: MatchMatrix, m: map<int, int>)
    requires g.Valid()
  {
    && (forall l :: l in m ==> 0 <= l < g.lhs && 0 <= m[l] < g.rhs && g.HasEdge(l, m[l]))
    && (forall l, k :: l in m && k in m && l != k ==> m[l] != m[k])
  }

  ghost predicate Ranged(g: MatchMatrix, left: seq<int>, right: seq<int>) {
    && |left| == g.lhs && |right| == g.rhs
    && (forall l :: 0 <= l < g.lhs ==> UNUSED <= left[l] < g.rhs)
    && (forall r :: 0 <= r < g.rhs ==> UNUSED <= right[r] < g.lhs)
  }

  // left and right name each other along edges, except that right node but may name a left node that has moved on.
  ghost predicate InverseBut(g: MatchMatrix, left: seq<int>, right: seq<int>, but: int)
    requires g.Valid()
  {
    && Ranged(g, left, right)
    && (forall l :: 0 <= l < g.lhs && left[l] != UNUSED ==> right[left[l]] == l && g.HasEdge(l, left[l]))
    && (forall r :: 0 <= r < g.rhs && right[r] != UNUSED && r != but ==> left[right[r]] == r)
  }

  ghost predicate Neighbours(g: MatchMatrix, l: int, d: set<int>)
    requires g.Valid() && 0 <= l < g.lhs
  {
    forall r :: 0 <= r < g.rhs && g.HasEdge(l, r) ==> r in d
  }

  // From the right nodes of d no augmenting path leads out of d.
  ghost predicate Closed(g: MatchMatrix, right: seq<int>, d: set<int>)
    requires g.Valid()
  {
    && |right| == g.rhs
    && (forall r :: r in d ==> 0 <= r < g.rhs && 0 <= right[r] < g.lhs && Neighbours(g, right[r], d))
  }

  ghost function SeenSet(seen: seq<bool>): set<int> {
    set r | 0 <= r < |seen| && seen[r]
  }

  ghost function UnseenSet(seen: seq<bool>): set<int> {
    set r | 0 <= r < |seen| && !seen[r]
  }

  ghost predicate Grown(seen0: seq<bool>, seen: seq<bool>) {
    |seen| == |seen0| && forall r :: 0 <= r < |seen0| && seen0[r] ==> seen[r]
  }

  // The search from l came to a dead end: all it saw is matched, and leads nowhere else.
  ghost predicate Exhausted(g: MatchMatrix, right: seq<int>, seen0: seq<bool>, seen: seq<bool>, l: int)
    requires g.Valid() && |right| == g.rhs && 0 <= l < g.lhs
  {
    && |seen| == |seen0| == g.rhs && Neighbours(g, l, SeenSet(seen))
    && (forall r :: 0 <= r < g.rhs && seen[r] && !seen0[r] ==>
      0 <= right[r] < g.lhs && Neighbours(g, right[r], SeenSet(seen)))
  }

  // Left node l got a new partner; its old one, if any, still names l.
  ghost predicate Augmented(g: MatchMatrix, left0: seq<int>, right0: seq<int>, seen0: seq<bool>, left: seq<int>,
          right: seq<int>, l: int, d: set<int>)
    requires g.Valid() && |left0| == g.lhs && |right0| == |seen0| == g.rhs && 0 <= l < g.lhs
  {
    && InverseBut(g, left, right, left0[l]) && left[l] != UNUSED && !seen0[left[l]]
    && (forall r :: 0 <= r < g.rhs && (seen0[r] || r in d) ==> right[r] == right0[r])
    && (forall k :: 0 <= k < g.lhs && k != l ==> (left[k] == UNUSED <==> left0[k] == UNUSED))
    && (forall k :: 0 <= k < g.lhs && k != l && 0 <= left0[k] < g.rhs && seen0[left0[k]] ==> left[k] == left0[k])
    && !Neighbours(g, l, d)
  }

  // The edges of l before r have been followed to their dead ends.
  ghost predicate Searching(g: MatchMatrix, right: seq<int>, seen0: seq<bool>, seen: seq<bool>, l: int, r: int)
    requires g.Valid() && |right| == |seen0| == g.rhs && 0 <= l < g.lhs
  {
    && Grown(seen0, seen)
    && (forall k :: 0 <= k < r && k < g.rhs && g.HasEdge(l, k) ==> seen[k])
    && (forall k :: 0 <= k < g.rhs && seen[k] && !seen0[k] ==>
      0 <= right[k] < g.lhs && Neighbours(g, right[k], SeenSet(seen)))
  }

  lemma SearchFailed(g: MatchMatrix, right: seq<int>, seen0: seq<bool>, seen: seq<bool>, seen': seq<bool>, l: int,
          r: nat)
    requires g.Valid() && |right| == |seen0| == g.rhs && 0 <= l < g.lhs && Searching(g, right, seen0, seen, l, r)
    requires r < g.rhs && 0 <= right[r] < g.lhs
    requires Grown(seen[r := true], seen') && Exhausted(g, right, seen[r := true], seen', right[r])
    ensures Searching(g, right, seen0, seen', l, r + 1)
  {
    forall k | 0 <= k < g.rhs && seen'[k] && !seen0[k] ensures 0 <= right[k] < g.lhs
      && Neighbours(g, right[k], SeenSet(seen')) {
      if seen[k] {
        assert SeenSet(seen) <= SeenSet(seen');
      }
    }
  }

  lemma SearchEnds(g: MatchMatrix, right: seq<int>, seen0: seq<bool>, seen: seq<bool>, l: int)
    requires g.Valid() && |right| == |seen0| == g.rhs && 0 <= l < g.lhs && Searching(g, right, seen0, seen, l, g.rhs)
    ensures Exhausted(g, right, seen0, seen, l)
  {
  }

  // A free right node at the end of an edge.
  lemma AugmentFree(g: MatchMatrix, left0: seq<int>, right0: seq<int>, seen0: seq<bool>, l: int, r: int, d: set<int>)
    requires g.Valid() && InverseBut(g, left0, right0, UNUSED) && |seen0| == g.rhs && 0 <= l < g.lhs && 0 <= r < g.rhs
    requires left0[l] != UNUSED ==> seen0[left0[l]]
    requires Closed(g, right0, d) && g.HasEdge(l, r) && !seen0[r] && right0[r] == UNUSED
    ensures Augmented(g, left0, right0, seen0, left0[l := r], right0[r := l], l, d)
  {
    assert r !in d;
  }

  // A right node whose partner has just found another one.
  lemma AugmentMoved(g: MatchMatrix, left0: seq<int>, right0: seq<int>, seen0: seq<bool>, seen1: seq<bool>,
          left1: seq<int>, right1: seq<int>, l: int, r: int, d: set<int>)
    requires g.Valid() && InverseBut(g, left0, right0, UNUSED) && |seen0| == g.rhs && 0 <= l < g.lhs && 0 <= r < g.rhs
    requires left0[l] != UNUSED ==> seen0[left0[l]]
    requires Closed(g, right0, d) && g.HasEdge(l, r) && !seen0[r] && 0 <= right0[r] < g.lhs
    requires Grown(seen0, seen1) && seen1[r] && Augmented(g, left0, right0, seen1, left1, right1, right0[r], d)
    ensures Augmented(g, left0, right0, seen0, left1[l := r], right1[r := l], l, d)
  {
    var k := right0[r];
    assert left0[k] == r && k != l && right1[r] == k;
    assert left1[l] == left0[l];
    assert r !in d;
  }

  class MaxBipartiteMatchState {
    const g: MatchMatrix
    const left: array<int>
    const right: array<int>

    ghost predicate Valid()
      reads left, right
    {
      g.Valid() && left != right && InverseBut(g, left[..], right[..], UNUSED)
    }

    constructor (g: MatchMatrix)
      requires g.Valid()
      ensures Valid() && fresh(left) && fresh(right) && this.g == g
      ensures forall l :: 0 <= l < g.lhs ==> left[l] == UNUSED
    {
      this.g := g;
      left := new int[g.lhs](_ => UNUSED);
      right := new int[g.rhs](_ => UNUSED);
    }

    // Depth-first search for an augmenting path from left node l; d is any set of right nodes without a way out.
    method TryAugment(l: nat, seen: array<bool>, ghost d: set<int>) returns (found: bool)
      requires Valid() && l < g.lhs && seen.Length == g.rhs
      requires left[l] != UNUSED ==> seen[left[l]]
      requires Closed(g, right[..], d)
      modifies left, right, seen
      ensures Grown(old(seen[..]), seen[..])
      ensures !found ==> left[..] == old(left[..]) && right[..] == old(right[..])
      ensures !found ==> Exhausted(g, right[..], old(seen[..]), seen[..], l)
      ensures found ==> Augmented(g, old(left[..]), old(right[..]), old(seen[..]), left[..], right[..], l, d)
      decreases UnseenSet(seen[..])
    {
      ghost var seen0, left0, right0 := seen[..], left[..], right[..];
      for r := 0 to g.rhs
        invariant left[..] == left0 && right[..] == right0
        invariant Searching(g, right0, seen0, seen[..], l, r)
      {
        if seen[r] || !g.HasEdge(l, r) {
          continue;
        }
        ghost var seen1 := seen[..];
        seen[r] := true;
        assert seen[..] == seen1[r := true];
        if right[r] == UNUSED {
          AugmentFree(g, left0, right0, seen0, l, r, d);
          left[l] := r;
          right[r] := l;
          return true;
        }
        assert UnseenSet(seen[..]) < UnseenSet(seen0) by {
          assert r in UnseenSet(seen0) && r !in UnseenSet(seen[..]);
        }
        var ok := TryAugment(right[r], seen, d);
        if ok {
          AugmentMoved(g, left0, right0, seen0, seen1[r := true], left[..], right[..], l, r, d);
          left[l] := r;
          right[r] := l;
          return true;
        }
        SearchFailed(g, right0, seen0, seen1, seen[..], l, r);
      }
      SearchEnds(g, right0, seen0, seen[..], l);
      return false;
    }

    // Tries each left node once, and lists the matched pairs by left node.
    method Compute() returns (result: seq<(int, int)>)
      requires Valid() && forall l :: 0 <= l < g.lhs ==> left[l] == UNUSED
      modifies left, right
      ensures Valid() && Lists(g, result)
      ensures forall m :: IsMatching(g, m) ==> |m| <= |result|
    {
      ghost var deadL: set<int>, deadR: set<int> := {}, {};
      for l := 0 to g.lhs
        invariant Valid()
        invariant forall k :: l <= k < g.lhs ==> left[k] == UNUSED
        invariant Stuck(g, left[..], right[..], l, deadL, deadR)
      {
        assert left[l] == UNUSED;
        var seen := new bool[g.rhs](_ => false);
        ghost var left0, right0, seen0 := left[..], right[..], seen[..];
        var found := TryAugment(l, seen, deadR);
        if found {
          StuckKept(g, left0, right0, seen0, left[..], right[..], l, deadL, deadR);
        } else {
          StuckGrows(g, left0, right0, seen0, seen[..], l, deadL, deadR);
          deadL, deadR := deadL + {l} + Partners(right[..], SeenSet(seen[..])), deadR + SeenSet(seen[..]);
        }
      }
      result := [];
      for l := 0 to left.Length
        invariant result == PairsOf(left[..], l)
      {
        var r := left[l];
        if r == UNUSED {
          continue;
        }
        result := result + [(l, r)];
      }
      PairsListed(g, left[..], right[..]);
      forall m | IsMatching(g, m) ensures |m| <= |result| {
        NoLarger(g, left[..], right[..], deadL, deadR, m);
      }
    }
  }

  // The search from every left node below upto is settled: those without a partner lie in deadL,
  // whose edges all lead to deadR, whose nodes are all matched into deadL.
  ghost predicate Stuck(g: MatchMatrix, left: seq<int>, right: seq<int>, upto: nat, deadL: set<int>, deadR: set<int>)
    requires g.Valid()
  {
    && |left| == g.lhs && Closed(g, right, deadR) && (forall r :: r in deadR ==> right[r] in deadL)
    && (forall l :: l in deadL ==> 0 <= l < g.lhs && Neighbours(g, l, deadR))
    && (forall l :: 0 <= l < upto && l < g.lhs && left[l] == UNUSED ==> l in deadL)
  }

  ghost function Partners(right: seq<int>, s: set<int>): set<int>
    requires forall r :: r in s ==> 0 <= r < |right|
  {
    set r | r in s :: right[r]
  }

  lemma StuckKept(g: MatchMatrix, left0: seq<int>, right0: seq<int>, seen0: seq<bool>, left: seq<int>, right: seq<int>,
          l: nat, deadL: set<int>, deadR: set<int>)
    requires g.Valid() && |left0| == g.lhs && |right0| == |seen0| == g.rhs && l < g.lhs
    requires Stuck(g, left0, right0, l, deadL, deadR) && Augmented(g, left0, right0, seen0, left, right, l, deadR)
    ensures Stuck(g, left, right, l + 1, deadL, deadR)
  {
    forall r | r in deadR ensures right[r] == right0[r] && 0 <= r < g.rhs {
    }
  }

  lemma StuckGrows(g: MatchMatrix, left: seq<int>, right: seq<int>, seen0: seq<bool>, seen: seq<bool>, l: nat,
          deadL: set<int>, deadR: set<int>)
    requires g.Valid() && |left| == g.lhs && |right| == g.rhs && l < g.lhs && Stuck(g, left, right, l, deadL, deadR)
    requires Exhausted(g, right, seen0, seen, l) && forall r :: 0 <= r < |seen0| ==> !seen0[r]
    ensures Stuck(g, left, right, l + 1, deadL + {l} + Partners(right, SeenSet(seen)), deadR + SeenSet(seen))
  {
    var s := SeenSet(seen);
    var deadL', deadR' := deadL + {l} + Partners(right, s), deadR + s;
    forall k | k in deadL' ensures 0 <= k < g.lhs && Neighbours(g, k, deadR') {
      if k !in deadL && k != l {
        var r :| r in s && right[r] == k;
      }
    }
    forall r | r in deadR' ensures 0 <= r < g.rhs && 0 <= right[r] < g.lhs && right[r] in deadL' {
    }
  }

  function PairsOf(left: seq<int>, n: nat): seq<(int, int)>
    requires n <= |left|
  {
    if n == 0 then [] else PairsOf(left, n - 1) + if left[n - 1] == UNUSED then [] else [(n - 1, left[n - 1])]
  }

  ghost function AsMap(left: seq<int>, n: nat): map<int, int>
    requires n <= |left|
  {
    map l | 0 <= l < n && left[l] != UNUSED :: left[l]
  }

  // A list of edges without a repeated left or right node, by left node.
  ghost predicate Lists(g: MatchMatrix, pairs: seq<(int, int)>)
    requires g.Valid()
  {
    && (forall i :: 0 <= i < |pairs| ==>
      0 <= pairs[i].0 < g.lhs && 0 <= pairs[i].1 < g.rhs && g.HasEdge(pairs[i].0, pairs[i].1))
    && (forall i, j :: 0 <= i < j < |pairs| ==> pairs[i].0 < pairs[j].0 && pairs[i].1 != pairs[j].1)
  }

  // The matched pairs of a graph: no matching has more of them.
  method FindMaxBipartiteMatching(g: MatchMatrix) returns (result: seq<(int, int)>)
    requires g.Valid()
    ensures Lists(g, result)
    ensures forall m :: IsMatching(g, m) ==> |m| <= |result|
  {
    var state := new MaxBipartiteMatchState(g);
    result := state.Compute();
  }

  // ---------------------------------------------------------------- why the result is maximum

  lemma {:induction false} PairsSize(left: seq<int>, n: nat)
    requires n <= |left|
    ensures |PairsOf(left, n)| == |AsMap(left, n)|
    ensures forall i :: 0 <= i < |PairsOf(left, n)| ==> var (l, r) := PairsOf(left, n)[i];
      0 <= l < n && left[l] == r && r != UNUSED
    ensures forall i, j :: 0 <= i < j < |PairsOf(left, n)| ==> PairsOf(left, n)[i].0 < PairsOf(left, n)[j].0
  {
    if n > 0 {
      PairsSize(left, n - 1);
      if left[n - 1] == UNUSED {
        assert AsMap(left, n) == AsMap(left, n - 1);
      } else {
        assert AsMap(left, n) == AsMap(left, n - 1)[n - 1 := left[n - 1]];
      }
    }
  }

  lemma PairsListed(g: MatchMatrix, left: seq<int>, right: seq<int>)
    requires g.Valid() && InverseBut(g, left, right, UNUSED)
    ensures Lists(g, PairsOf(left, |left|))
  {
    PairsSize(left, |left|);
  }

  lemma EdgeLeads(g: MatchMatrix, m: map<int, int>, l: int, d: set<int>)
    requires g.Valid() && IsMatching(g, m) && l in m && 0 <= l < g.lhs && Neighbours(g, l, d)
    ensures m[l] in d
  {
  }

  // The nodes outside deadL on the left and those of deadR on the right touch every edge.
  lemma CoverBounds(g: MatchMatrix, m: map<int, int>, deadL: set<int>, deadR: set<int>)
    requires g.Valid() && IsMatching(g, m)
    requires forall l :: l in deadL ==> 0 <= l < g.lhs && Neighbours(g, l, deadR)
    ensures |m| <= |Upto(g.lhs) - deadL| + |deadR|
  {
    var a := m.Keys - deadL;
    var b := m.Keys * deadL;
    assert a <= Upto(g.lhs) - deadL;
    assert forall l, k :: l in m && k in m && l != k ==> m[l] != m[k];
    assert forall l :: l in b ==> 0 <= l < g.lhs && Neighbours(g, l, deadR);
    hide Neighbours, Upto, MatchMatrix.HasEdge;
    forall l | l in b ensures m[l] in deadR {
      EdgeLeads(g, m, l, deadR);
    }
    Injects(m, b, deadR);
    var all := Upto(g.lhs);
    SubsetSize(a, all - deadL);
    assert m.Keys == a + b;
    assert |m| == |m.Keys|;
  }

  // The matching found is as large as that cover.
  lemma FillsCover(g: MatchMatrix, left: seq<int>, right: seq<int>, deadL: set<int>, deadR: set<int>)
    requires g.Valid() && InverseBut(g, left, right, UNUSED) && Stuck(g, left, right, g.lhs, deadL, deadR)
    ensures |Upto(g.lhs) - deadL| + |deadR| <= |AsMap(left, |left|)|
  {
    var m := AsMap(left, |left|);
    var a := Upto(g.lhs) - deadL;
    var b := Partners(right, deadR);
    var back := map r | r in deadR :: right[r];
    Injects(back, deadR, b);
    assert a !! b;
    SubsetSize(a + b, m.Keys);
    assert |a + b| == |a| + |b|;
    assert |m| == |m.Keys|;
  }

  lemma NoLarger(g: MatchMatrix, left: seq<int>, right: seq<int>, deadL: set<int>, deadR: set<int>, m: map<int, int>)
    requires g.Valid() && InverseBut(g, left, right, UNUSED) && Stuck(g, left, right, g.lhs, deadL, deadR)
      && IsMatching(g, m)
    ensures |m| <= |PairsOf(left, |left|)|
  {
    CoverBounds(g, m, deadL, deadR);
    FillsCover(g, left, right, deadL, deadR);
    PairsSize(left, |left|);
  }

  // Some of the accepted pairs, with no element and no matcher twice, as a map from elements to matchers.
  ghost predicate Assigns(lhs: nat, rhs: nat, accepts: (int, int) -> bool, m: map<int, int>) {
    && (forall l :: l in m ==> 0 <= l < lhs && 0 <= m[l] < rhs && accepts(l, m[l]))
    && (forall l, k :: l in m && k in m && l != k ==> m[l] != m[k])
  }

  /**
   As many elements as possible get a matcher of their own that accepts them: the pairs are accepted, no element and no
   matcher comes twice, and no assignment has more pairs.
   */
  method MatchElements(lhs: nat, rhs: nat, accepts: (int, int) -> bool) returns (pairs: seq<(int, int)>)
    ensures forall i :: 0 <= i < |pairs| ==>
      0 <= pairs[i].0 < lhs && 0 <= pairs[i].1 < rhs && accepts(pairs[i].0, pairs[i].1)
    ensures forall i, j :: 0 <= i < j < |pairs| ==> pairs[i].0 != pairs[j].0 && pairs[i].1 != pairs[j].1
    ensures forall m :: Assigns(lhs, rhs, accepts, m) ==> |m| <= |pairs|
  {
    var g := Analyze(lhs, rhs, accepts);
    pairs := FindMaxBipartiteMatching(g);
    forall m | Assigns(lhs, rhs, accepts, m) ensures |m| <= |pairs| {
      assert IsMatching(g, m);
    }
  }
}
