/** The key range that an index scan derives from its conditions: it never shuts a match out. */
module IndexBounds {
  import opened KeyOrder
  import opened Conditions

  datatype Kind = Equal | Lower | Upper

  predicate IsKind(op: CompOp, kind: Kind) {
    match kind
    case Equal => op == OpEq
    case Lower => op == OpGt || op == OpGe
    case Upper => op == OpLt || op == OpLe
  }

  // Every operator but "not equal" bounds a column from one side: what is met is met further up, or further down.
  lemma KindsAre(op: CompOp)
    ensures op != OpNe <==> IsKind(op, Equal) || IsKind(op, Lower) || IsKind(op, Upper)
    ensures IsKind(op, Equal) <==> forall a, b, v :: Holds(op, a, v) && Holds(op, b, v) ==> a == b
    ensures IsKind(op, Lower) ==> forall a, b, v :: a <= b && Holds(op, a, v) ==> Holds(op, b, v)
    ensures IsKind(op, Upper) ==> forall a, b, v :: a <= b && Holds(op, b, v) ==> Holds(op, a, v)
  {
    assert op == OpNe ==> Holds(op, 1, 0) && Holds(op, 2, 0);
    assert op == OpGt || op == OpGe ==> Holds(op, 1, 0) && Holds(op, 2, 0);
    assert op == OpLt || op == OpLe ==> Holds(op, 1, 3) && Holds(op, 2, 3);
  }

  // Condition i bounds the column from the given side.
  predicate Bounds(conds: seq<Cond>, i: int, col: nat, kind: Kind) {
    0 <= i < |conds| && conds[i].isVal && conds[i].col == col && IsKind(conds[i].op, kind)
  }

  // Of several such conditions the last one counts.
  ghost predicate IsLast(conds: seq<Cond>, n: nat, i: int, col: nat, kind: Kind) {
    i < n && Bounds(conds, i, col, kind) && forall j :: i < j < n ==> !Bounds(conds, j, col, kind)
  }

  datatype Bound = None | Bound(value: int, inclusive: bool)

  // b is the bound that the conditions put on the column from that side.
  ghost predicate IsBound(conds: seq<Cond>, n: nat, col: nat, kind: Kind, b: Bound) {
    if b.None? then forall i :: i < n ==> !Bounds(conds, i, col, kind)
    else exists i ::
      IsLast(conds, n, i, col, kind) && b.value == conds[i].val && b.inclusive == (conds[i].op in {OpEq, OpGe, OpLe})
  }

  lemma BoundMet(conds: seq<Cond>, col: nat, kind: Kind, b: Bound, rec: Record)
    requires IsBound(conds, |conds|, col, kind, b) && b.Bound? && col < |rec|
    requires forall i :: 0 <= i < |conds| ==> InRange(conds[i], |rec|)
    requires Matches(rec, conds)
    ensures kind == Equal ==> rec[col] == b.value
    ensures kind == Lower ==> b.value < rec[col] || (b.inclusive && b.value == rec[col])
    ensures kind == Upper ==> rec[col] < b.value || (b.inclusive && b.value == rec[col])
  {
    var i :| IsLast(conds, |conds|, i, col, kind) && b.value == conds[i].val
      && b.inclusive == (conds[i].op in {OpEq, OpGe, OpLe});
    assert Satisfies(rec, conds[i]);
  }

  // One more condition either sets the bound or leaves it.
  lemma NextCond(conds: seq<Cond>, n: nat, col: nat, kind: Kind, b: Bound)
    requires IsBound(conds, n, col, kind, b) && n < |conds|
    ensures IsBound(conds, n + 1, col, kind, if Bounds(conds, n, col, kind)
      then Bound(conds[n].val, conds[n].op in {OpEq, OpGe, OpLe}) else b)
  {
    if Bounds(conds, n, col, kind) {
      assert IsLast(conds, n + 1, n, col, kind);
    } else if b.Bound? {
      var i :| IsLast(conds, n, i, col, kind) && b.value == conds[i].val
        && b.inclusive == (conds[i].op in {OpEq, OpGe, OpLe});
      assert IsLast(conds, n + 1, i, col, kind);
    }
  }

  // The inner loop of beginTuple: the bounds of one index column.
  method ColumnBounds(conds: seq<Cond>, col: nat) returns (eq: Bound, lo: Bound, hi: Bound)
    ensures IsBound(conds, |conds|, col, Equal, eq)
    ensures IsBound(conds, |conds|, col, Lower, lo)
    ensures IsBound(conds, |conds|, col, Upper, hi)
  {
    eq, lo, hi := None, None, None;
    for n := 0 to |conds|
      invariant IsBound(conds, n, col, Equal, eq) && IsBound(conds, n, col, Lower, lo)
        && IsBound(conds, n, col, Upper, hi)
    {
      NextCond(conds, n, col, Equal, eq);
      NextCond(conds, n, col, Lower, lo);
      NextCond(conds, n, col, Upper, hi);
      hide IsBound;
      var cond := conds[n];
      if cond.isVal && cond.col == col {
        match cond.op
        case OpEq => eq := Bound(cond.val, true);
        case OpGt => lo := Bound(cond.val, false);
        case OpGe => lo := Bound(cond.val, true);
        case OpLt => hi := Bound(cond.val, false);
        case OpLe => hi := Bound(cond.val, true);
        case OpNe =>
      }
    }
  }

  // Low and high key, and whether they belong to the range themselves.
  datatype Range = Range(low: Tuple, high: Tuple, lowInc: bool, highInc: bool)

  function Value(b: Bound, default: int): int {
    if b.None? then default else b.value
  }

  function Inclusive(b: Bound): bool {
    b.None? || b.inclusive
  }

  // The first p index columns are fixed by equalities, and the next one may be bounded on either side.
  ghost predicate Derived(conds: seq<Cond>, ixCols: seq<nat>, cols: seq<Column>, r: Range, p: nat)
    requires |ixCols| == |cols|
  {
    && |r.low| == |r.high| == |cols| && p <= |cols|
    && (forall i :: 0 <= i < p ==> r.low[i] == r.high[i] && IsBound(conds, |conds|, ixCols[i], Equal,
      Bound(r.low[i], true)))
    && (forall i :: p < i < |cols| ==> r.low[i] == cols[i].min && r.high[i] == cols[i].max)
    && (if p == |cols| then r.lowInc && r.highInc
        else IsBound(conds, |conds|, ixCols[p], Equal, None) && exists lo, hi :: Bounded(conds, ixCols[p], cols[p], r,
          p, lo, hi))
  }

  ghost predicate Bounded(conds: seq<Cond>, col: nat, column: Column, r: Range, p: nat, lo: Bound, hi: Bound) {
    && p < |r.low| && p < |r.high|
    && IsBound(conds, |conds|, col, Lower, lo) && r.low[p] == Value(lo, column.min) && r.lowInc == Inclusive(lo)
    && IsBound(conds, |conds|, col, Upper, hi) && r.high[p] == Value(hi, column.max) && r.highInc == Inclusive(hi)
  }

  lemma EqualIncluded(conds: seq<Cond>, col: nat, b: Bound)
    requires IsBound(conds, |conds|, col, Equal, b) && b.Bound?
    ensures b.inclusive
  {
  }

  lemma BoundOnce(conds: seq<Cond>, n: nat, col: nat, kind: Kind, a: Bound, b: Bound)
    requires IsBound(conds, n, col, kind, a) && IsBound(conds, n, col, kind, b)
    ensures a == b
  {
    if a.Bound? && b.Bound? {
      var i :| IsLast(conds, n, i, col, kind) && a.value == conds[i].val
        && a.inclusive == (conds[i].op in {OpEq, OpGe, OpLe});
      var j :| IsLast(conds, n, j, col, kind) && b.value == conds[j].val
        && b.inclusive == (conds[j].op in {OpEq, OpGe, OpLe});
      assert !(i < j) && !(j < i);
    }
  }

  lemma PrefixOnce(conds: seq<Cond>, ixCols: seq<nat>, cols: seq<Column>, r: Range, r': Range, p: nat, p': nat)
    requires |ixCols| == |cols| && Derived(conds, ixCols, cols, r, p) && Derived(conds, ixCols, cols, r', p')
    ensures p >= p'
  {
    if p < p' {
      BoundOnce(conds, |conds|, ixCols[p], Equal, None, Bound(r'.low[p], true));
    }
  }

  // The conditions determine the range.
  lemma DerivedOnce(conds: seq<Cond>, ixCols: seq<nat>, cols: seq<Column>, r: Range, r': Range, p: nat, p': nat)
    requires |ixCols| == |cols| && Derived(conds, ixCols, cols, r, p) && Derived(conds, ixCols, cols, r', p')
    ensures r == r' && p == p'
  {
    PrefixOnce(conds, ixCols, cols, r, r', p, p');
    PrefixOnce(conds, ixCols, cols, r', r, p', p);
    forall i | 0 <= i < p ensures r.low[i] == r'.low[i] && r.high[i] == r'.high[i] {
      BoundOnce(conds, |conds|, ixCols[i], Equal, Bound(r.low[i], true), Bound(r'.low[i], true));
    }
    hide IsBound;
    if p < |cols| {
      var lo, hi :| Bounded(conds, ixCols[p], cols[p], r, p, lo, hi);
      var lo', hi' :| Bounded(conds, ixCols[p], cols[p], r', p, lo', hi');
      BoundOnce(conds, |conds|, ixCols[p], Lower, lo, lo');
      BoundOnce(conds, |conds|, ixCols[p], Upper, hi, hi');
    }
    forall i | 0 <= i < |cols| ensures r.low[i] == r'.low[i] && r.high[i] == r'.high[i] {
    }
    assert r.low == r'.low && r.high == r'.high;
  }

  // The bound construction of beginTuple.
  method FindRange(conds: seq<Cond>, ixCols: seq<nat>, cols: seq<Column>) returns (r: Range, ghost p: nat)
    requires |ixCols| == |cols|
    ensures Derived(conds, ixCols, cols, r, p)
  {
    var low: Tuple, high: Tuple := [], [];
    var lowInc, highInc, prefixOpen := true, true, true;
    p := 0;
    ghost var lo, hi := None, None;
    for i := 0 to |cols|
      invariant |low| == |high| == i && p <= i && (prefixOpen <==> p == i)
      invariant forall k :: 0 <= k < p ==> low[k] == high[k] && IsBound(conds, |conds|, ixCols[k], Equal,
        Bound(low[k], true))
      invariant forall k :: p < k < i ==> low[k] == cols[k].min && high[k] == cols[k].max
      invariant p == i ==> lowInc && highInc
      invariant p < i ==> IsBound(conds, |conds|, ixCols[p], Equal, None)
      invariant p < i ==> Bounded(conds, ixCols[p], cols[p], Range(low, high, lowInc, highInc), p, lo, hi)
    {
      var lowHere, highHere := cols[i].min, cols[i].max;
      if prefixOpen {
        var eqB, loB, hiB := ColumnBounds(conds, ixCols[i]);
        if eqB.Bound? {
          EqualIncluded(conds, ixCols[i], eqB);
          lowHere, highHere := eqB.value, eqB.value;
          p := i + 1;
        } else {
          if loB.Bound? {
            lowHere, lowInc := loB.value, loB.inclusive;
          }
          if hiB.Bound? {
            highHere, highInc := hiB.value, hiB.inclusive;
          }
          prefixOpen := false;
          lo, hi := loB, hiB;
        }
      }
      low, high := low + [lowHere], high + [highHere];
    }
    r := Range(low, high, lowInc, highInc);
    assert p < |cols| ==> Bounded(conds, ixCols[p], cols[p], r, p, lo, hi);
  }

  // ---------------------------------------------------------------- no match is shut out

  ghost predicate From(r: Range, k: Tuple) {
    Below(r.low, k) || (r.lowInc && r.low == k)
  }

  ghost predicate To(r: Range, k: Tuple) {
    Below(k, r.high) || (r.highInc && k == r.high)
  }

  // A key that agrees with another one up to the end of a prefix and is nowhere below it behind.
  lemma NotBelow(a: Tuple, k: Tuple, p: nat)
    requires |a| == |k| && p <= |a| && Agree(a, k, p) && forall i :: p <= i < |a| ==> a[i] <= k[i]
    ensures Below(a, k) || a == k
  {
    var i := p;
    while i < |a| && a[i] == k[i]
      invariant p <= i <= |a| && Agree(a, k, i)
    {
      i := i + 1;
    }
    if i < |a| {
      FirstDifference(a, k, i);
    }
  }

  lemma RangeHolds(conds: seq<Cond>, ixCols: seq<nat>, cols: seq<Column>, r: Range, p: nat, rec: Record)
    requires |ixCols| == |cols| && Derived(conds, ixCols, cols, r, p)
    requires (forall i :: 0 <= i < |ixCols| ==> ixCols[i] < |rec|)
      && forall i :: 0 <= i < |conds| ==> InRange(conds[i], |rec|)
    requires InDomain(KeyOf(rec, ixCols), cols) && Matches(rec, conds)
    ensures From(r, KeyOf(rec, ixCols)) && To(r, KeyOf(rec, ixCols))
  {
    var k := KeyOf(rec, ixCols);
    forall i | 0 <= i < p ensures k[i] == r.low[i] == r.high[i] {
      BoundMet(conds, ixCols[i], Equal, Bound(r.low[i], true), rec);
    }
    if p < |cols| {
      var lo, hi :| Bounded(conds, ixCols[p], cols[p], r, p, lo, hi);
      if lo.Bound? { BoundMet(conds, ixCols[p], Lower, lo, rec); }
      if hi.Bound? { BoundMet(conds, ixCols[p], Upper, hi, rec); }
      hide IsBound, Matches;
      if r.low[p] == k[p] { NotBelow(r.low, k, p); } else { FirstDifference(r.low, k, p); }
      if r.high[p] == k[p] { NotBelow(k, r.high, p); } else { FirstDifference(k, r.high, p); }
    } else {
      assert k == r.low == r.high;
    }
  }

  // ---------------------------------------------------------------- what a range over one column lets in

  // Value v is on the right side of the last condition of that kind, if there is one.
  ghost predicate MeetsLast(conds: seq<Cond>, col: nat, kind: Kind, v: int) {
    forall i :: 0 <= i < |conds| && IsLast(conds, |conds|, i, col, kind) ==> Holds(conds[i].op, v, conds[i].val)
  }

  // The bound says just what that condition says.
  lemma BoundMeets(conds: seq<Cond>, col: nat, kind: Kind, b: Bound, v: int)
    requires IsBound(conds, |conds|, col, kind, b)
    ensures b.None? ==> MeetsLast(conds, col, kind, v)
    ensures b.Bound? && kind == Equal ==> (MeetsLast(conds, col, kind, v) <==> v == b.value)
    ensures b.Bound? && kind == Lower ==>
      (MeetsLast(conds, col, kind, v) <==> b.value < v || (b.inclusive && v == b.value))
    ensures b.Bound? && kind == Upper ==>
      (MeetsLast(conds, col, kind, v) <==> v < b.value || (b.inclusive && v == b.value))
  {
    if b.Bound? {
      var i :| IsLast(conds, |conds|, i, col, kind) && b.value == conds[i].val
        && b.inclusive == (conds[i].op in {OpEq, OpGe, OpLe});
      forall j | 0 <= j < |conds| && IsLast(conds, |conds|, j, col, kind) ensures j == i {
        assert !(i < j) && !(j < i);
      }
    }
  }

  // Over one column the range holds exactly the values that meet the last equality, or, without one, the last lower
  // and the last upper condition.
  lemma OneColumnRange(conds: seq<Cond>, col: nat, column: Column, r: Range, p: nat, v: int)
    requires Derived(conds, [col], [column], r, p) && column.min <= v <= column.max
    ensures From(r, [v]) && To(r, [v]) <==>
      MeetsLast(conds, col, Equal, v)
        && (p == 0 ==> MeetsLast(conds, col, Lower, v) && MeetsLast(conds, col, Upper, v))
    ensures p == 0 <==> forall i :: 0 <= i < |conds| ==> !Bounds(conds, i, col, Equal)
  {
    assert r.low == [r.low[0]] && r.high == [r.high[0]];
    OneBelow(r.low[0], v);
    OneBelow(v, r.high[0]);
    if p == 1 {
      BoundMeets(conds, col, Equal, Bound(r.low[0], true), v);
    } else {
      var lo, hi :| Bounded(conds, col, column, r, p, lo, hi);
      BoundMeets(conds, col, Equal, None, v);
      BoundMeets(conds, col, Lower, lo, v);
      BoundMeets(conds, col, Upper, hi, v);
    }
  }

  lemma OneBelow(a: int, b: int)
    ensures Below([a], [b]) <==> a < b
  {
    assert Agree([a], [b], 0);
    if a < b {
      assert [a][0] < [b][0];
    }
  }

  // The condition values are values of the index columns.
  predicate Typed(conds: seq<Cond>, ixCols: seq<nat>, cols: seq<Column>)
    requires |ixCols| == |cols|
  {
    forall i, j :: 0 <= i < |conds| && 0 <= j < |cols| && conds[i].isVal && conds[i].col == ixCols[j] ==>
      cols[j].min <= conds[i].val <= cols[j].max
  }

  lemma BoundTyped(conds: seq<Cond>, ixCols: seq<nat>, cols: seq<Column>, j: nat, kind: Kind, b: Bound)
    requires |ixCols| == |cols| && Typed(conds, ixCols, cols) && j < |cols|
      && IsBound(conds, |conds|, ixCols[j], kind, b) && b.Bound?
    ensures cols[j].min <= b.value <= cols[j].max
  {
  }

  lemma RangeTyped(conds: seq<Cond>, ixCols: seq<nat>, cols: seq<Column>, r: Range, p: nat)
    requires |ixCols| == |cols| && Derived(conds, ixCols, cols, r, p) && Typed(conds, ixCols, cols) && Proper(cols)
    ensures InDomain(r.low, cols) && InDomain(r.high, cols)
  {
    forall i | 0 <= i < |cols| ensures cols[i].min <= r.low[i] <= cols[i].max
      && cols[i].min <= r.high[i] <= cols[i].max {
      if i < p {
        BoundTyped(conds, ixCols, cols, i, Equal, Bound(r.low[i], true));
      } else if i == p {
        var lo, hi :| Bounded(conds, ixCols[p], cols[p], r, p, lo, hi);
        if lo.Bound? { BoundTyped(conds, ixCols, cols, i, Lower, lo); }
        if hi.Bound? { BoundTyped(conds, ixCols, cols, i, Upper, hi); }
      }
    }
  }

  // A range whose ends are in order has no key on the wrong side of both of them.
  lemma NoKeyOutsideBoth(r: Range, k: Tuple)
    requires |r.low| == |r.high| == |k|
    requires Below(r.low, r.high) || (r.low == r.high && (r.lowInc || r.highInc))
    ensures From(r, k) || To(r, k)
  {
    Trichotomy(r.low, k);
    Trichotomy(k, r.high);
    if Below(k, r.low) && Below(r.high, k) {
      BelowChain(r.high, k, r.low);
      Trichotomy(r.low, r.high);
    }
  }

  lemma BelowChain(a: Tuple, b: Tuple, c: Tuple)
    requires |a| == |b| == |c| && Below(a, b) && Below(b, c)
    ensures Below(a, c)
  {
    var i :| 0 <= i < |a| && i < |b| && Agree(a, b, i) && a[i] < b[i];
    var j :| 0 <= j < |b| && j < |c| && Agree(b, c, j) && b[j] < c[j];
    FirstDifference(a, c, if i < j then i else j);
  }
}
