/** The climb of `maintain_parent`: a moved first key reaches its separator, and nothing else. */
module IndexClimb {
  import opened IndexTree
  import opened IndexTreeMerge
  import opened IndexTreeErase
  import opened IndexState

  // n' is n with both ends of the interval relabelled; the keys are another matter.
  ghost predicate Relabelled(n: TNode, n': TNode, a: Key, b: Key) {
    && n'.h == n.h && n'.rids == n.rids && |n'.keys| == |n.keys|
    && n'.lo == ShiftBound(n.lo, a, b) && n'.hi == ShiftBound(n.hi, a, b)
  }

  // The leaves are in their final state, and so are the separators up to height top.
  ghost predicate Climb(t: Tree, u: Tree, p: int, pos: nat, a: Key, b: Key, top: nat) {
    && p in t && u.Keys == t.Keys && t[p].h == 0 && pos < |t[p].keys| && |t[p].keys| == |t[p].rids|
    && (forall x :: x in t && x != p ==> Relabelled(t[x], u[x], a, b))
    && (forall x :: x in t && x != p && t[x].h == 0 ==> u[x].keys == t[x].keys)
    && (forall x, i :: x in t && t[x].h > 0 && t[x].Live(i) ==>
          u[x].keys[i] == if t[x].h <= top then Shift(t[x].keys[i], a, b) else t[x].keys[i])
    && u[p].h == 0 && u[p].lo == ShiftBound(t[p].lo, a, b) && u[p].hi == ShiftBound(t[p].hi, a, b)
    && u[p].keys == RemoveAt(t[p].keys, pos) && u[p].rids == RemoveAt(t[p].rids, pos)
  }

  // Where the climb starts: the entry is gone, the separators are untouched.
  ghost function ClimbStart(t: Tree, p: int, pos: nat, a: Key, b: Key): Tree
    requires p in t && pos < |t[p].keys| && |t[p].keys| == |t[p].rids|
  {
    map x | x in t :: if x == p
      then TNode(0, ShiftBound(t[p].lo, a, b), ShiftBound(t[p].hi, a, b), RemoveAt(t[p].keys, pos),
        RemoveAt(t[p].rids, pos))
      else t[x].(lo := ShiftBound(t[x].lo, a, b), hi := ShiftBound(t[x].hi, a, b))
  }

  lemma ClimbStarts(t: Tree, root: int, p: int, pos: nat, a: Key, b: Key)
    requires Shape(t, root) && p in t && t[p].h == 0 && pos < |t[p].keys| && |t[p].keys| == |t[p].rids|
    ensures Climb(t, ClimbStart(t, p, pos, a, b), p, pos, a, b, 0)
    ensures a == b ==> root in t && Climb(t, ClimbStart(t, p, pos, a, b), p, pos, a, b, t[root].h)
  {
  }

  lemma ClimbDone(t: Tree, root: int, u: Tree, p: int, pos: nat, a: Key, b: Key)
    requires Shape(t, root) && root in t && Climb(t, u, p, pos, a, b, t[root].h)
    ensures Erased(t, u, p, pos, a, b)
  {
    forall x | x in t && t[x].h > 0 ensures Moved(t[x], u[x], a, b) {
      assert Relabelled(t[x], u[x], a, b);
    }
    forall x | x in t && x != p && t[x].h == 0
      ensures u[x].h == 0 && u[x].rids == t[x].rids && u[x].keys == t[x].keys && u[x].lo == ShiftBound(t[x].lo, a, b)
        && u[x].hi == ShiftBound(t[x].hi, a, b)
    {
      assert Relabelled(t[x], u[x], a, b);
    }
  }

  // done: the separator has been reached.
  ghost predicate Climbing(t: Tree, root: int, u: Tree, p: int, pos: nat, a: Key, b: Key, curr: int, done: bool) {
    && curr in t && root in t
    && Climb(t, u, p, pos, a, b, if done then t[root].h else t[curr].h)
    && (!done ==> a != b && t[curr].lo == At(a))
  }

  // The first key of the climbing node: the new first key of the leaf.
  lemma FirstIsNew(t: Tree, root: int, u: Tree, p: int, pos: nat, a: Key, b: Key, curr: int)
    requires Shape(t, root) && Boundary(t, p, pos, a, b) && Climbing(t, root, u, p, pos, a, b, curr, false)
    ensures curr in u && |u[curr].keys| > 0 && u[curr].keys[0] == b
  {
    assert t[curr].Ok() && t[curr].Live(0);
    if t[curr].h == 0 {
      if curr != p {
        assert t[p].Ok() && t[p].Live(0);
        OneStart(t, root, curr, p);
        assert false;
      }
    }
  }

  // One step below the separator: slot r of the parent g holds a and gets b.
  lemma ClimbUp(t: Tree, root: int, u: Tree, p: int, pos: nat, a: Key, b: Key, par: map<int, int>, curr: int, r: nat)
    requires Shape(t, root) && Parents(t, root, par) && Boundary(t, p, pos, a, b)
    requires Climbing(t, root, u, p, pos, a, b, curr, false) && curr != root
    requires var g := par[curr]; r < |t[g].rids| && t[g].Kid(r) == curr
    ensures var g := par[curr];
            && g in u && r < |u[g].keys| && u[g].keys[r] == a && a != b
            && Climb(t, u[g := u[g].(keys := u[g].keys[r := b])], p, pos, a, b, t[g].h)
            && t[g].h == t[curr].h + 1
  {
    hide Shape, Parents;
    NamingKey(t, root, par, curr, r);
    var g := par[curr];
    assert Relabelled(t[g], u[g], a, b);
    var u' := u[g := u[g].(keys := u[g].keys[r := b])];
    forall x, i | x in t && t[x].h > 0 && t[x].Live(i)
      ensures u'[x].keys[i] == if t[x].h <= t[g].h then Shift(t[x].keys[i], a, b) else t[x].keys[i]
    {
      if t[x].h == t[g].h && t[x].keys[i] == a {
        OneSeparator(t, root, par, curr, a, r, x, i);
      }
    }
  }

  // At the separator, every level above is already in its final state.
  lemma ClimbAbove(t: Tree, root: int, u: Tree, p: int, pos: nat, a: Key, b: Key, par: map<int, int>, curr: int)
    requires Shape(t, root) && Parents(t, root, par) && curr in t && curr != root && t[curr].lo == At(a) && root in t
    requires t[par[curr]].h == t[curr].h + 1 && Climb(t, u, p, pos, a, b, t[curr].h + 1)
    requires t[par[curr]].lo != At(a)
    ensures Climb(t, u, p, pos, a, b, t[root].h)
  {
    forall x, i | x in t && t[x].h > 0 && t[x].Live(i)
      ensures t[x].h <= t[root].h && u[x].keys[i] == Shift(t[x].keys[i], a, b)
    {
      RootTop(t, root, x);
      if t[x].h > t[curr].h + 1 {
        NothingAbove(t, root, par, curr, a, x, i);
      }
    }
  }

  lemma ClimbNext(t: Tree, root: int, u: Tree, p: int, pos: nat, a: Key, b: Key, par: map<int, int>, curr: int, r: nat)
    requires Shape(t, root) && Parents(t, root, par) && Boundary(t, p, pos, a, b)
    requires Climbing(t, root, u, p, pos, a, b, curr, false) && curr != root
    requires var g := par[curr]; r < |t[g].rids| && t[g].Kid(r) == curr
    ensures var g := par[curr];
            && g in u && r < |u[g].keys| && curr in u && |u[curr].keys| > 0 && u[g].keys[r] != u[curr].keys[0]
            && var u' := u[g := u[g].(keys := u[g].keys[r := u[curr].keys[0]])];
            Climbing(t, root, u', p, pos, a, b, g, t[g].lo != At(a))
  {
    var g := par[curr];
    FirstIsNew(t, root, u, p, pos, a, b, curr);
    ClimbUp(t, root, u, p, pos, a, b, par, curr, r);
    var u' := u[g := u[g].(keys := u[g].keys[r := b])];
    if t[g].lo != At(a) {
      ClimbAbove(t, root, u', p, pos, a, b, par, curr);
    }
    hide Shape, Parents, Climb;
  }

  // After the separator only a stale sentinel can still differ, and it may be overwritten.
  lemma ClimbStale(t: Tree, root: int, u: Tree, p: int, pos: nat, a: Key, b: Key, par: map<int, int>, curr: int, r: nat)
    requires Shape(t, root) && Parents(t, root, par) && Boundary(t, p, pos, a, b)
    requires Climbing(t, root, u, p, pos, a, b, curr, true) && curr != root
    requires var g := par[curr]; r < |t[g].rids| && t[g].Kid(r) == curr
    requires curr in u && |u[curr].keys| > 0
    ensures var g := par[curr];
            && g in u && r < |u[g].keys|
            && (u[g].keys[r] != u[curr].keys[0] ==>
                  Climbing(t, root, u[g := u[g].(keys := u[g].keys[r := u[curr].keys[0]])], p, pos, a, b, g, true))
  {
    hide Shape, Parents;
    NamingKey(t, root, par, curr, r);
    var g := par[curr];
    assert Relabelled(t[g], u[g], a, b);
    assert !t[g].Live(r) || u[g].keys[r] == u[curr].keys[0] by {
      if t[g].Live(r) {
        ClimbDone(t, root, u, p, pos, a, b);
        ErasedShape(t, root, u, p, pos, a, b, par);
        ErasedParents(t, root, u, p, pos, a, b, par);
        LiveSlot(t, u, g, r, a, b);
        NamingKey(u, root, par, curr, r);
        FirstOfInterval(u, root, curr);
      }
    }
    if !t[g].Live(r) {
      var u' := u[g := u[g].(keys := u[g].keys[r := u[curr].keys[0]])];
      assert Climb(t, u', p, pos, a, b, t[root].h);
    }
  }

  lemma LiveSlot(t: Tree, u: Tree, g: int, r: nat, a: Key, b: Key)
    requires g in t && g in u && Relabelled(t[g], u[g], a, b) && t[g].Live(r)
    ensures u[g].Live(r)
  {
  }

  lemma FirstOfInterval(u: Tree, root: int, x: int)
    requires Shape(u, root) && x in u && u[x].lo.At?
    ensures |u[x].keys| > 0 && u[x].keys[0] == u[x].lo.key
  {
    assert u[x].Ok();
  }
}
