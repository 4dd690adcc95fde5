/** The planner's join tree: scans and joins over the tables of a query, with the conditions hung on them. */
module Planner {
  import opened Conditions
  import NestedLoopJoin

  type Name = string

  datatype Col = Col(tab: Name, name: Name)

  datatype Rhs = ByCol(col: Col) | ByVal(val: int)

  datatype Pred = Pred(lhs: Col, op: CompOp, rhs: Rhs)

  datatype JoinKind = NestLoop | SortMerge

  datatype Plan =
    | Scan(tab: Name, conds: seq<Pred>)
    | Join(kind: JoinKind, left: Plan, right: Plan, conds: seq<Pred>)

  datatype Planned = Planned(plan: Plan) | NoJoinExecutor

  // ---------------------------------------------------------------- conditions

  predicate SameTable(c: Pred) {
    c.rhs.ByCol? && c.lhs.tab == c.rhs.col.tab
  }

  // A condition between two tables.
  predicate Crosses(c: Pred) {
    c.rhs.ByCol? && c.lhs.tab != c.rhs.col.tab
  }

  function SwapOp(op: CompOp): CompOp {
    match op
    case OpEq => OpEq
    case OpNe => OpNe
    case OpLt => OpGt
    case OpGt => OpLt
    case OpLe => OpGe
    case OpGe => OpLe
  }

  // The condition with its sides exchanged.
  function Flip(c: Pred): Pred {
    if c.rhs.ByCol? then Pred(c.rhs.col, SwapOp(c.op), ByCol(c.lhs)) else c
  }

  // Exchanging the sides twice is nothing, and once does not change what the condition says.
  lemma FlipMeans(c: Pred, a: int, b: int)
    ensures Flip(Flip(c)) == c && (Crosses(Flip(c)) <==> Crosses(c))
    ensures c.rhs.ByCol? ==> (Holds(Flip(c).op, b, a) <==> Holds(c.op, a, b))
  {
  }

  // How often a condition occurs, either way round.
  ghost function Uses(conds: seq<Pred>, c: Pred): nat {
    if Flip(c) == c then NestedLoopJoin.Count(conds, c)
    else NestedLoopJoin.Count(conds, c) + NestedLoopJoin.Count(conds, Flip(c))
  }

  lemma UsesConcat(a: seq<Pred>, b: seq<Pred>, c: Pred)
    ensures Uses(a + b, c) == Uses(a, c) + Uses(b, c)
    ensures Uses([], c) == 0
  {
    hide NestedLoopJoin.Count;
    NestedLoopJoin.CountConcat(a, b, c);
    NestedLoopJoin.CountConcat(a, b, Flip(c));
  }

  lemma UsesFlip(p: Pred, c: Pred)
    ensures Uses([Flip(p)], c) == Uses([p], c)
  {
    NestedLoopJoin.CountOne(p, c);
    NestedLoopJoin.CountOne(p, Flip(c));
    NestedLoopJoin.CountOne(Flip(p), c);
    NestedLoopJoin.CountOne(Flip(p), Flip(c));
    hide NestedLoopJoin.Count, SwapOp;
    FlipMeans(p, 0, 0);
    FlipMeans(c, 0, 0);
  }

  // ---------------------------------------------------------------- plans

  ghost function Scope(plan: Plan): set<Name> {
    match plan
    case Scan(tab, _) => {tab}
    case Join(_, left, right, _) => Scope(left) + Scope(right)
  }

  // No table is scanned twice.
  ghost predicate ScansOnce(plan: Plan) {
    match plan
    case Scan(_, _) => true
    case Join(_, left, right, _) => Scope(left) !! Scope(right) && ScansOnce(left) && ScansOnce(right)
  }

  // A join's conditions relate a column of its left input to one of its right input.
  ghost predicate Oriented(plan: Plan) {
    match plan
    case Scan(_, _) => true
    case Join(_, left, right, conds) =>
      && (forall i :: 0 <= i < |conds| ==>
        conds[i].rhs.ByCol? && conds[i].lhs.tab in Scope(left) && conds[i].rhs.col.tab in Scope(right))
      && Oriented(left) && Oriented(right)
  }

  ghost predicate ScanPlaced(tab: Name, conds: seq<Pred>) {
    forall i :: 0 <= i < |conds| ==> conds[i].lhs.tab == tab && (conds[i].rhs.ByCol? ==> conds[i].rhs.col.tab == tab)
  }

  // How many joins of a plan are to be run by sorting.
  ghost function SortMerges(plan: Plan): nat {
    match plan
    case Scan(_, _) => 0
    case Join(kind, left, right, _) =>
      (if kind == SortMerge then 1 else 0) + SortMerges(left) + SortMerges(right)
  }

  // A scan's conditions are about its own table.
  ghost predicate ScansPlaced(plan: Plan) {
    match plan
    case Scan(tab, conds) => ScanPlaced(tab, conds)
    case Join(_, left, right, _) => ScansPlaced(left) && ScansPlaced(right)
  }

  // How many nodes carry a condition, either way round.
  ghost function Attached(plan: Plan, c: Pred): nat {
    match plan
    case Scan(_, conds) => Uses(conds, c)
    case Join(_, left, right, conds) => Attached(left, c) + Attached(right, c) + Uses(conds, c)
  }

  // Every scan of the plan is one of the given scans.
  ghost predicate BuiltFrom(plan: Plan, scans: seq<Plan>) {
    match plan
    case Scan(_, _) => plan in scans
    case Join(_, left, right, _) => BuiltFrom(left, scans) && BuiltFrom(right, scans)
  }

  // ---------------------------------------------------------------- pushing a condition down

  // 0: no column in scope, 1: the left-hand one, 2: the right-hand one, 3: both, and the condition is attached.
  function PushCond(c: Pred, plan: Plan): (int, Plan)
    requires c.rhs.ByCol?
  {
    match plan
    case Scan(tab, _) =>
      (if tab == c.lhs.tab then 1 else if tab == c.rhs.col.tab then 2 else 0, plan)
    case Join(kind, left, right, conds) =>
      var (l, left') := PushCond(c, left);
      if l == 3 then (3, Join(kind, left', right, conds))
      else
        var (r, right') := PushCond(c, right);
        if r == 3 then (3, Join(kind, left, right', conds))
        else if l == 0 || r == 0 then (l + r, plan)
        else (3, Join(kind, left, right, conds + [if l == 2 then Flip(c) else c]))
  }

  function Found(c: Pred, scope: set<Name>): int
    requires c.rhs.ByCol?
  {
    (if c.lhs.tab in scope then 1 else 0) + (if c.rhs.col.tab in scope then 2 else 0)
  }

  lemma {:induction false} PushFinds(c: Pred, plan: Plan)
    requires Crosses(c) && ScansOnce(plan)
    ensures var (res, plan') := PushCond(c, plan);
      res == Found(c, Scope(plan)) && (res != 3 ==> plan' == plan) && Scope(plan') == Scope(plan) && ScansOnce(plan')
  {
    match plan
    case Scan(_, _) =>
    case Join(_, left, right, _) =>
      PushFinds(c, left);
      PushFinds(c, right);
  }

  lemma {:induction false} PushOriented(c: Pred, plan: Plan)
    requires Crosses(c) && ScansOnce(plan) && Oriented(plan)
    ensures Oriented(PushCond(c, plan).1)
  {
    PushFinds(c, plan);
    match plan
    case Scan(_, _) =>
    case Join(_, left, right, _) =>
      PushFinds(c, left);
      PushFinds(c, right);
      PushOriented(c, left);
      PushOriented(c, right);
  }

  lemma {:induction false} PushScans(c: Pred, plan: Plan, scans: seq<Plan>)
    requires c.rhs.ByCol? && BuiltFrom(plan, scans)
    ensures BuiltFrom(PushCond(c, plan).1, scans)
  {
    match plan
    case Scan(_, _) =>
    case Join(_, left, right, _) =>
      PushScans(c, left, scans);
      PushScans(c, right, scans);
  }

  // The condition ends up on exactly one node if both its tables are in scope, and on none otherwise.
  lemma {:induction false} PushAttaches(c: Pred, plan: Plan, x: Pred)
    requires Crosses(c) && ScansOnce(plan)
    ensures Attached(PushCond(c, plan).1, x) == Attached(plan, x) + if Found(c, Scope(plan)) == 3 then Uses([c], x)
      else 0
  {
    hide Uses;
    match plan
    case Scan(_, _) =>
    case Join(_, left, right, conds) =>
      PushFinds(c, left);
      PushFinds(c, right);
      PushAttaches(c, left, x);
      PushAttaches(c, right, x);
      UsesConcat(conds, [c], x);
      UsesConcat(conds, [Flip(c)], x);
      UsesFlip(c, x);
  }

  // ---------------------------------------------------------------- the scans

  // A value condition goes to its table; a condition inside one table goes to whichever table asks first.
  predicate Popped(c: Pred, tab: Name) {
    (c.lhs.tab == tab && c.rhs.ByVal?) || SameTable(c)
  }

  function Solved(conds: seq<Pred>, tab: Name): seq<Pred> {
    if conds == [] then []
    else
      var n := |conds| - 1;
      Solved(conds[..n], tab) + if Popped(conds[n], tab) then [conds[n]] else []
  }

  function Kept(conds: seq<Pred>, tab: Name): seq<Pred> {
    if conds == [] then []
    else
      var n := |conds| - 1;
      Kept(conds[..n], tab) + if Popped(conds[n], tab) then [] else [conds[n]]
  }

  lemma {:induction false} PopSplits(conds: seq<Pred>, tab: Name, c: Pred)
    ensures c in Solved(conds, tab) <==> c in conds && Popped(c, tab)
    ensures c in Kept(conds, tab) <==> c in conds && !Popped(c, tab)
    ensures Uses(Solved(conds, tab), c) + Uses(Kept(conds, tab), c) == Uses(conds, c)
  {
    hide Uses, Popped;
    UsesConcat([], [], c);
    if conds != [] {
      var n := |conds| - 1;
      PopSplits(conds[..n], tab, c);
      UsesConcat(conds[..n], [conds[n]], c);
      UsesConcat(Solved(conds[..n], tab), [conds[n]], c);
      UsesConcat(Solved(conds[..n], tab), [], c);
      UsesConcat(Kept(conds[..n], tab), [conds[n]], c);
      UsesConcat(Kept(conds[..n], tab), [], c);
      assert conds == conds[..n] + [conds[n]];
    }
  }

  method PopConds(conds: seq<Pred>, tab: Name) returns (solved: seq<Pred>, rest: seq<Pred>)
    ensures solved == Solved(conds, tab) && rest == Kept(conds, tab)
  {
    solved, rest := [], conds;
    var it := 0;
    ghost var k := 0;
    while it < |rest|
      invariant 0 <= it <= |rest| && 0 <= k <= |conds| && |rest| - it == |conds| - k
      invariant solved == Solved(conds[..k], tab) && rest[..it] == Kept(conds[..k], tab) && rest[it..] == conds[k..]
      decreases |rest| - it
    {
      assert conds[..k + 1][..k] == conds[..k] && conds[k] == rest[it..][0];
      if Popped(rest[it], tab) {
        solved := solved + [rest[it]];
        ghost var was := rest;
        rest := rest[..it] + rest[it + 1..];
        assert rest[..it] == was[..it] && rest[it..] == was[it..][1..];
      } else {
        assert rest[..it + 1] == rest[..it] + [rest[it]] && rest[it + 1..] == rest[it..][1..];
        it := it + 1;
      }
      k := k + 1;
    }
    assert conds[..k] == conds && rest[..it] == rest;
  }

  ghost predicate Distinct(tables: seq<Name>) {
    forall i, j :: 0 <= i < j < |tables| ==> tables[i] != tables[j]
  }

  // The columns of the query's conditions belong to its tables.
  ghost predicate Known(conds: seq<Pred>, tables: seq<Name>) {
    forall c :: c in conds ==> c.lhs.tab in tables && (c.rhs.ByCol? ==> c.rhs.col.tab in tables)
  }

  // The one table whose scan can check a condition between two of its own columns.
  ghost predicate SameTableFirst(conds: seq<Pred>, first: Name) {
    forall c :: c in conds && SameTable(c) ==> c.lhs.tab == first
  }

  ghost predicate Listed(tables: seq<Name>, scans: seq<Plan>) {
    |scans| == |tables| && forall j :: 0 <= j < |scans| ==> scans[j].Scan? && scans[j].tab == tables[j]
  }

  // What the scans not yet in the tree carry.
  ghost function Unused(scans: seq<Plan>, scanned: seq<bool>, c: Pred): nat
    requires |scanned| == |scans|
  {
    if scans == [] then 0
    else
      var n := |scans| - 1;
      Unused(scans[..n], scanned[..n], c) + if scanned[n] then 0 else Attached(scans[n], c)
  }

  function None(n: nat): (s: seq<bool>)
    ensures |s| == n && forall i :: 0 <= i < n ==> !s[i]
  {
    seq(n, _ => false)
  }

  lemma {:induction false} UnusedPop(scans: seq<Plan>, scanned: seq<bool>, i: nat, c: Pred)
    requires i < |scans| == |scanned| && !scanned[i]
    ensures Unused(scans, scanned[i := true], c) + Attached(scans[i], c) == Unused(scans, scanned, c)
  {
    var n := |scans| - 1;
    if i < n {
      UnusedPop(scans[..n], scanned[..n], i, c);
      assert scanned[i := true][..n] == scanned[..n][i := true];
    } else {
      assert scanned[i := true][..n] == scanned[..n];
    }
  }

  lemma {:induction false} UnusedMore(scans: seq<Plan>, scan: Plan, c: Pred)
    ensures Unused(scans + [scan], None(|scans| + 1), c) == Unused(scans, None(|scans|), c) + Attached(scan, c)
  {
    assert (scans + [scan])[..|scans|] == scans && None(|scans| + 1)[..|scans|] == None(|scans|);
  }

  // Every scan but the first carries only conditions of its own table; the first one does so exactly
  // if every condition inside one table is inside the first.
  ghost predicate ScansOk(scans: seq<Plan>, tables: seq<Name>, conds: seq<Pred>) {
    && |scans| <= |tables| && (forall j :: 0 <= j < |scans| ==> scans[j].Scan?)
    && (forall j :: 1 <= j < |scans| ==> ScanPlaced(tables[j], scans[j].conds))
    && (|scans| > 0 ==> (ScanPlaced(tables[0], scans[0].conds) <==> SameTableFirst(conds, tables[0])))
  }

  ghost predicate RestOk(rest: seq<Pred>, conds: seq<Pred>, tables: seq<Name>, i: nat)
    requires i <= |tables|
  {
    && (forall c :: c in rest ==>
      c in conds && (i > 0 ==> !SameTable(c)) && (c.rhs.ByVal? ==> c.lhs.tab !in tables[..i]))
    && (forall c :: c in conds && Crosses(c) ==> c in rest)
  }

  // The scans take their share of the conditions; what is left goes between two tables.
  method ScanPlans(tables: seq<Name>, conds: seq<Pred>) returns (scans: seq<Plan>, rest: seq<Pred>)
    requires tables != [] && Known(conds, tables)
    ensures Listed(tables, scans) && ScansOk(scans, tables, conds)
    ensures forall c :: c in rest <==> c in conds && Crosses(c)
    ensures forall x :: Unused(scans, None(|scans|), x) + Uses(rest, x) == Uses(conds, x)
  {
    scans, rest := [], conds;
    assert ScansOk(scans, tables, conds) && RestOk(rest, conds, tables, 0);
    assert forall x :: Unused(scans, None(|scans|), x) == 0;
    hide Uses, Attached, Unused, Solved, Kept, ScansOk, RestOk;
    for i := 0 to |tables|
      invariant Listed(tables[..i], scans) && ScansOk(scans, tables, conds) && RestOk(rest, conds, tables, i)
      invariant i == 0 ==> rest == conds
      invariant forall x :: Unused(scans, None(|scans|), x) + Uses(rest, x) == Uses(conds, x)
    {
      var solved, rest' := PopConds(rest, tables[i]);
      ScanStep(scans, tables, conds, rest, i);
      ScanStepUses(scans, tables[i], conds, rest);
      scans, rest := scans + [Scan(tables[i], solved)], rest';
    }
    assert tables[..|tables|] == tables;
    LeftCrosses(rest, conds, tables);
  }

  lemma LeftCrosses(rest: seq<Pred>, conds: seq<Pred>, tables: seq<Name>)
    requires tables != [] && Known(conds, tables) && RestOk(rest, conds, tables, |tables|)
    ensures forall c :: c in rest <==> c in conds && Crosses(c)
  {
    assert tables[..|tables|] == tables;
  }

  lemma ScanStepUses(scans: seq<Plan>, t: Name, conds: seq<Pred>, rest: seq<Pred>)
    requires forall x :: Unused(scans, None(|scans|), x) + Uses(rest, x) == Uses(conds, x)
    ensures forall x ::
      Unused(scans + [Scan(t, Solved(rest, t))], None(|scans| + 1), x) + Uses(Kept(rest, t), x) == Uses(conds, x)
  {
    hide Uses, Unused, Solved, Kept;
    var scan := Scan(t, Solved(rest, t));
    forall x ensures Unused(scans + [scan], None(|scans| + 1), x) + Uses(Kept(rest, t), x) == Uses(conds, x) {
      PopSplits(rest, t, x);
      UnusedMore(scans, scan, x);
      assert Attached(scan, x) == Uses(Solved(rest, t), x);
    }
  }

  lemma ScanStep(scans: seq<Plan>, tables: seq<Name>, conds: seq<Pred>, rest: seq<Pred>, i: nat)
    requires i < |tables| && |scans| == i && RestOk(rest, conds, tables, i) && ScansOk(scans, tables, conds)
    requires i == 0 ==> rest == conds
    ensures RestOk(Kept(rest, tables[i]), conds, tables, i + 1)
    ensures ScansOk(scans + [Scan(tables[i], Solved(rest, tables[i]))], tables, conds)
  {
    var t := tables[i];
    forall c
      ensures c in Solved(rest, t) <==> c in rest && Popped(c, t)
      ensures c in Kept(rest, t) <==> c in rest && !Popped(c, t)
    {
      PopSplits(rest, t, c);
    }
    RestStep(rest, Kept(rest, t), conds, tables, i);
    if i == 0 {
      FirstScan(conds, t);
    } else {
      LaterScan(Solved(rest, t), t);
    }
    hide RestOk, Solved, Kept, Popped, ScanPlaced, SameTableFirst;
  }

  lemma RestStep(rest: seq<Pred>, kept: seq<Pred>, conds: seq<Pred>, tables: seq<Name>, i: nat)
    requires i < |tables| && RestOk(rest, conds, tables, i)
    requires forall c :: c in kept <==> c in rest && !Popped(c, tables[i])
    ensures RestOk(kept, conds, tables, i + 1)
  {
    assert tables[..i + 1] == tables[..i] + [tables[i]];
  }

  lemma LaterScan(solved: seq<Pred>, t: Name)
    requires forall c :: c in solved ==> Popped(c, t) && !SameTable(c)
    ensures ScanPlaced(t, solved)
  {
    forall k | 0 <= k < |solved| ensures solved[k].lhs.tab == t && solved[k].rhs.ByVal? {
      assert solved[k] in solved;
    }
  }

  lemma FirstScan(conds: seq<Pred>, t: Name)
    ensures ScanPlaced(t, Solved(conds, t)) <==> SameTableFirst(conds, t)
  {
    var solved := Solved(conds, t);
    forall c ensures c in solved <==> c in conds && Popped(c, t) {
      PopSplits(conds, t, c);
    }
    hide Solved;
    if ScanPlaced(t, solved) {
      forall c | c in conds && SameTable(c) ensures c.lhs.tab == t {
        var k :| 0 <= k < |solved| && solved[k] == c;
      }
    } else {
      var k :| 0 <= k < |solved| && !(solved[k].lhs.tab == t && (solved[k].rhs.ByCol? ==> solved[k].rhs.col.tab == t));
      assert solved[k] in conds;
    }
  }

  // ---------------------------------------------------------------- the tree

  ghost predicate Crossing(rest: seq<Pred>, tables: seq<Name>) {
    forall i :: 0 <= i < |rest| ==> Crosses(rest[i]) && rest[i].lhs.tab in tables && rest[i].rhs.col.tab in tables
  }

  // The flags and the list of joined tables say which tables the tree scans.
  ghost predicate Marks(tables: seq<Name>, scanned: seq<bool>, joined: seq<Name>, scope: set<Name>) {
    && |scanned| == |tables|
    && (forall j :: 0 <= j < |tables| ==> (scanned[j] <==> tables[j] in scope))
    && (forall j :: 0 <= j < |tables| ==> (scanned[j] <==> tables[j] in joined))
    && (forall t :: t in scope ==> t in tables)
  }

  ghost predicate Tree(plan: Plan, scans: seq<Plan>) {
    ScansOnce(plan) && Oriented(plan) && BuiltFrom(plan, scans)
  }

  // No condition is lost: it is in the tree, on a scan to come, or still to be placed.
  ghost predicate Accounted(conds: seq<Pred>, plan: Plan, scans: seq<Plan>, scanned: seq<bool>, rest: seq<Pred>)
    requires |scanned| == |scans|
  {
    forall x :: Attached(plan, x) + Unused(scans, scanned, x) + Uses(rest, x) == Uses(conds, x)
  }

  ghost predicate Growing(tables: seq<Name>, conds: seq<Pred>, scans: seq<Plan>, scanned: seq<bool>, joined: seq<Name>,
          plan: Plan, rest: seq<Pred>) {
    && Distinct(tables) && Listed(tables, scans)
    && Marks(tables, scanned, joined, Scope(plan)) && Tree(plan, scans) && Accounted(conds, plan, scans, scanned, rest)
  }

  // Takes the scan of a table out of the list; past the end stands for no scan at all.
  method PopScan(tables: seq<Name>, scans: seq<Plan>, tab: Name, scanned: seq<bool>, joined: seq<Name>)
    returns (i: nat, scanned': seq<bool>, joined': seq<Name>)
    requires |scanned| == |scans| && Listed(tables, scans)
    ensures tab in tables ==> (i < |scans| && tables[i] == tab && scans[i].Scan? && scans[i].tab == tab
      && scanned' == scanned[i := true] && joined' == joined + [tab])
    ensures tab !in tables ==> i == |scans| && scanned' == scanned && joined' == joined
  {
    i, scanned', joined' := 0, scanned, joined;
    while i < |scans|
      invariant i <= |scans| && scanned' == scanned && joined' == joined && forall j :: 0 <= j < i ==> tables[j] != tab
    {
      if scans[i].tab == tab {
        scanned', joined' := scanned[i := true], joined + [tab];
        return;
      }
      i := i + 1;
    }
  }

  lemma MarksMore(tables: seq<Name>, scanned: seq<bool>, joined: seq<Name>, scope: set<Name>, i: nat)
    requires Distinct(tables) && Marks(tables, scanned, joined, scope) && i < |tables|
    ensures Marks(tables, scanned[i := true], joined + [tables[i]], scope + {tables[i]})
  {
  }

  ghost predicate Joins(conds: seq<Pred>, left: set<Name>, right: set<Name>) {
    forall i :: 0 <= i < |conds| ==> conds[i].rhs.ByCol? && conds[i].lhs.tab in left && conds[i].rhs.col.tab in right
  }

  lemma TreeOne(scans: seq<Plan>, i: nat, kind: JoinKind, plan: Plan, cs: seq<Pred>)
    requires i < |scans| && scans[i].Scan? && scans[i].tab !in Scope(plan) && Joins(cs, {scans[i].tab}, Scope(plan))
      && Tree(plan, scans)
    ensures Tree(Join(kind, scans[i], plan, cs), scans)
  {
  }

  lemma TreeTwo(scans: seq<Plan>, i: nat, j: nat, kind: JoinKind, cs: seq<Pred>)
    requires i < |scans| && j < |scans| && scans[i].Scan? && scans[j].Scan? && scans[i].tab != scans[j].tab
    requires Joins(cs, {scans[i].tab}, {scans[j].tab})
    ensures Tree(Join(kind, scans[i], scans[j], cs), scans)
    ensures Scope(Join(kind, scans[i], scans[j], cs)) == {scans[i].tab, scans[j].tab}
  {
  }

  // One more table: its scan becomes the left input of a new root.
  lemma GrowOne(tables: seq<Name>, conds: seq<Pred>, scans: seq<Plan>, scanned: seq<bool>, joined: seq<Name>,
          plan: Plan, rest: seq<Pred>,
                i: nat, kind: JoinKind, cs: seq<Pred>, rest': seq<Pred>)
    requires i < |tables| && |scanned| == |tables| && !scanned[i]
    requires Joins(cs, {tables[i]}, Scope(plan))
    requires forall x :: Uses(cs, x) + Uses(rest', x) == Uses(rest, x)
    requires Growing(tables, conds, scans, scanned, joined, plan, rest)
    ensures Growing(tables, conds, scans, scanned[i := true], joined + [tables[i]], Join(kind, scans[i], plan, cs),
      rest')
  {
    var plan' := Join(kind, scans[i], plan, cs);
    assert tables[i] !in Scope(plan) && Scope(plan') == Scope(plan) + {tables[i]};
    TreeOne(scans, i, kind, plan, cs);
    MarksMore(tables, scanned, joined, Scope(plan), i);
    forall x ensures Attached(plan', x) + Unused(scans, scanned[i := true], x) + Uses(rest', x) == Uses(conds, x) {
      UnusedPop(scans, scanned, i, x);
    }
    hide Marks, Distinct, Unused, Uses, Tree, Listed;
  }

  // Two more tables: their join becomes the left input of a new root.
  lemma GrowTwo(tables: seq<Name>, conds: seq<Pred>, scans: seq<Plan>, scanned: seq<bool>, joined: seq<Name>,
          plan: Plan, rest: seq<Pred>,
                i: nat, j: nat, cs: seq<Pred>, rest': seq<Pred>)
    requires i < |tables| && j < |tables| && i != j && |scanned| == |tables| && !scanned[i] && !scanned[j]
    requires Joins(cs, {tables[i]}, {tables[j]})
    requires forall x :: Uses(cs, x) + Uses(rest', x) == Uses(rest, x)
    requires Growing(tables, conds, scans, scanned, joined, plan, rest)
    ensures Growing(tables, conds, scans, scanned[i := true][j := true], joined + [tables[i]] + [tables[j]],
                    Join(NestLoop, Join(NestLoop, scans[i], scans[j], cs), plan, []), rest')
  {
    var pair := Join(NestLoop, scans[i], scans[j], cs);
    var plan' := Join(NestLoop, pair, plan, []);
    assert tables[i] !in Scope(plan) && tables[j] !in Scope(plan) && tables[i] != tables[j];
    TreeTwo(scans, i, j, NestLoop, cs);
    assert Scope(plan') == Scope(plan) + {tables[i]} + {tables[j]};
    assert Tree(plan', scans);
    MarksMore(tables, scanned, joined, Scope(plan), i);
    MarksMore(tables, scanned[i := true], joined + [tables[i]], Scope(plan) + {tables[i]}, j);
    forall x ensures Attached(plan', x) + Unused(scans, scanned[i := true][j := true], x) + Uses(rest',
      x) == Uses(conds, x) {
      UnusedPop(scans, scanned, i, x);
      UnusedPop(scans, scanned[i := true], j, x);
      UsesConcat([], [], x);
    }
    hide Marks, Distinct, Unused, Uses, Tree, Listed;
  }

  // No more tables: the condition sinks into the tree.
  lemma GrowPush(tables: seq<Name>, conds: seq<Pred>, scans: seq<Plan>, scanned: seq<bool>, joined: seq<Name>,
          plan: Plan, rest: seq<Pred>,
                 c: Pred, rest': seq<Pred>)
    requires Crosses(c) && c.lhs.tab in Scope(plan) && c.rhs.col.tab in Scope(plan)
    requires forall x :: Uses([c], x) + Uses(rest', x) == Uses(rest, x)
    requires Growing(tables, conds, scans, scanned, joined, plan, rest)
    ensures Growing(tables, conds, scans, scanned, joined, PushCond(c, plan).1, rest')
  {
    PushFinds(c, plan);
    PushOriented(c, plan);
    PushScans(c, plan, scans);
    hide Marks, Distinct, Unused, Uses, PushCond, Listed;
    forall x ensures Attached(PushCond(c, plan).1, x) + Unused(scans, scanned, x) + Uses(rest', x) == Uses(conds, x) {
      PushAttaches(c, plan, x);
    }
  }

  lemma UsesFirst(rest: seq<Pred>)
    requires rest != []
    ensures forall x :: Uses([rest[0]], x) + Uses(rest[1..], x) == Uses(rest, x)
    ensures forall x :: Uses([Flip(rest[0])], x) + Uses(rest[1..], x) == Uses(rest, x)
  {
    forall x ensures Uses([rest[0]], x) + Uses(rest[1..], x) == Uses(rest, x)
      && Uses([Flip(rest[0])], x) == Uses([rest[0]], x) {
      hide Uses;
      UsesConcat([rest[0]], rest[1..], x);
      UsesFlip(rest[0], x);
      assert rest == [rest[0]] + rest[1..];
    }
  }

  lemma Unscanned(tables: seq<Name>, scanned: seq<bool>, joined: seq<Name>, scope: set<Name>, tab: Name)
    requires Marks(tables, scanned, joined, scope) && tab in tables
    ensures tab in joined <==> tab in scope
    ensures forall j :: 0 <= j < |tables| && tables[j] == tab ==> (scanned[j] <==> tab in joined)
  {
    var j :| 0 <= j < |tables| && tables[j] == tab;
  }

  // One join condition: brings in the tables it still needs, or sinks into the tree.
  method JoinNext(tables: seq<Name>, ghost conds: seq<Pred>, scans: seq<Plan>, scanned: seq<bool>, joined: seq<Name>,
          plan: Plan, rest: seq<Pred>)
    returns (scanned': seq<bool>, joined': seq<Name>, plan': Plan)
    requires rest != [] && Crossing(rest, tables)
    requires Growing(tables, conds, scans, scanned, joined, plan, rest)
    ensures Growing(tables, conds, scans, scanned', joined', plan', rest[1..])
    ensures SortMerges(plan') == SortMerges(plan)
  {
    PushKinds(rest[0], plan);
    NoKinds(tables, scans);
    var c := rest[0];
    var left, right: nat := |tables|, |tables|;
    var reverse := false;
    scanned', joined', plan' := scanned, joined, plan;
    UsesFirst(rest);
    Unscanned(tables, scanned, joined, Scope(plan), c.lhs.tab);
    Unscanned(tables, scanned, joined, Scope(plan), c.rhs.col.tab);
    hide Growing, Accounted, Tree, Marks, Uses, Scope;
    if c.lhs.tab !in joined {
      left, scanned', joined' := PopScan(tables, scans, c.lhs.tab, scanned', joined');
    }
    if c.rhs.col.tab !in joined' {
      right, scanned', joined' := PopScan(tables, scans, c.rhs.col.tab, scanned', joined');
      reverse := true;
    }
    if left < |tables| && right < |tables| {
      GrowTwo(tables, conds, scans, scanned, joined, plan, rest, left, right, [c], rest[1..]);
      plan' := Join(NestLoop, Join(NestLoop, scans[left], scans[right], [c]), plan, []);
    } else if left < |tables| || right < |tables| {
      var cond := c;
      if reverse {
        cond := Flip(c);
        left := right;
      }
      GrowOne(tables, conds, scans, scanned, joined, plan, rest, left, NestLoop, [cond], rest[1..]);
      plan' := Join(NestLoop, scans[left], plan, [cond]);
    } else {
      GrowPush(tables, conds, scans, scanned, joined, plan, rest, c, rest[1..]);
      plan' := PushCond(c, plan).1;
    }
  }

  ghost predicate Sorted(conds: seq<Pred>, scans: seq<Plan>, rest: seq<Pred>) {
    forall x :: Unused(scans, None(|scans|), x) + Uses(rest, x) == Uses(conds, x)
  }

  function NoNames(n: nat): seq<Name> {
    seq(n, _ => "")
  }

  lemma MarksNone(tables: seq<Name>)
    requires "" !in tables
    ensures Marks(tables, None(|tables|), NoNames(|tables|), {})
  {
  }

  // The tree starts as the first table's scan,
  lemma GrowFirst(tables: seq<Name>, conds: seq<Pred>, scans: seq<Plan>)
    requires tables != [] && "" !in tables && Distinct(tables) && Listed(tables, scans) && Sorted(conds, scans, [])
    ensures Growing(tables, conds, scans, None(|tables|)[0 := true], NoNames(|tables|) + [tables[0]], scans[0], [])
  {
    MarksNone(tables);
    MarksMore(tables, None(|tables|), NoNames(|tables|), {}, 0);
    forall x ensures Attached(scans[0], x) + Unused(scans, None(|tables|)[0 := true], x) + Uses([], x) == Uses(conds,
      x) {
      UnusedPop(scans, None(|tables|), 0, x);
    }
    hide Uses, Unused, None, NoNames, Marks, Distinct;
    assert {} + {tables[0]} == Scope(scans[0]);
  }

  // or as the join of the two tables of the first join condition.
  lemma GrowPair(tables: seq<Name>, conds: seq<Pred>, scans: seq<Plan>, rest: seq<Pred>, i: nat, j: nat, kind: JoinKind)
    requires i < |tables| && j < |tables| && i != j && "" !in tables && Distinct(tables) && Listed(tables, scans)
    requires rest != [] && Joins([rest[0]], {tables[i]}, {tables[j]})
    requires Sorted(conds, scans, rest)
    ensures Growing(tables, conds, scans, None(|tables|)[i := true][j := true],
      NoNames(|tables|) + [tables[i]] + [tables[j]],
                    Join(kind, scans[i], scans[j], [rest[0]]), rest[1..])
  {
    var none, plan := None(|tables|), Join(kind, scans[i], scans[j], [rest[0]]);
    MarksNone(tables);
    MarksMore(tables, none, NoNames(|tables|), {}, i);
    MarksMore(tables, none[i := true], NoNames(|tables|) + [tables[i]], {} + {tables[i]}, j);
    UsesFirst(rest);
    forall x ensures Attached(plan, x) + Unused(scans, none[i := true][j := true], x) + Uses(rest[1..],
      x) == Uses(conds, x) {
      UnusedPop(scans, none, i, x);
      UnusedPop(scans, none[i := true], j, x);
    }
    TreeTwo(scans, i, j, kind, [rest[0]]);
    hide Uses, Unused, None, NoNames, Marks, Distinct, Tree;
    assert {} + {tables[i]} + {tables[j]} == Scope(plan);
  }

  // ---------------------------------------------------------------- what the tree is

  // Every table is scanned once and every condition hangs on exactly one node, on a join with a column of each input.
  ghost predicate Covers(plan: Plan, tables: seq<Name>, conds: seq<Pred>) {
    && ScansOnce(plan) && Oriented(plan)
    && (forall t :: t in Scope(plan) <==> t in tables)
    && (forall x :: Attached(plan, x) == Uses(conds, x))
  }

  lemma {:induction false} UnusedNothing(scans: seq<Plan>, scanned: seq<bool>, x: Pred)
    requires |scanned| == |scans| && forall j :: 0 <= j < |scanned| ==> scanned[j]
    ensures Unused(scans, scanned, x) == 0
  {
    if scans != [] {
      UnusedNothing(scans[..|scans| - 1], scanned[..|scans| - 1], x);
    }
  }

  lemma {:induction false} PlacedFrom(plan: Plan, scans: seq<Plan>)
    requires BuiltFrom(plan, scans)
    requires forall j :: 0 <= j < |scans| ==> scans[j].Scan? && ScanPlaced(scans[j].tab, scans[j].conds)
    ensures ScansPlaced(plan)
  {
    match plan
    case Scan(_, _) =>
    case Join(_, left, right, _) =>
      PlacedFrom(left, scans);
      PlacedFrom(right, scans);
  }

  lemma {:induction false} PlacedEach(plan: Plan, tables: seq<Name>, scans: seq<Plan>, j: nat)
    requires j < |tables| && Distinct(tables) && Listed(tables, scans) && BuiltFrom(plan, scans)
    requires tables[j] in Scope(plan) && ScansPlaced(plan)
    ensures ScanPlaced(tables[j], scans[j].conds)
  {
    match plan
    case Scan(_, _) =>
    case Join(_, left, right, _) =>
      if tables[j] in Scope(left) {
        PlacedEach(left, tables, scans, j);
      } else {
        PlacedEach(right, tables, scans, j);
      }
  }

  lemma Grown(tables: seq<Name>, conds: seq<Pred>, scans: seq<Plan>, scanned: seq<bool>, joined: seq<Name>, plan: Plan)
    requires tables != [] && |scanned| == |tables| && forall j :: 0 <= j < |tables| ==> scanned[j]
    requires ScansOk(scans, tables, conds)
    requires Growing(tables, conds, scans, scanned, joined, plan, [])
    ensures Covers(plan, tables, conds)
    ensures ScansPlaced(plan) <==> SameTableFirst(conds, tables[0])
  {
    forall x ensures Attached(plan, x) == Uses(conds, x) {
      UnusedNothing(scans, scanned, x);
      UsesConcat([], [], x);
    }
    if SameTableFirst(conds, tables[0]) {
      PlacedFrom(plan, scans);
    } else if ScansPlaced(plan) {
      PlacedEach(plan, tables, scans, 0);
    }
  }

  lemma RestCrosses(tables: seq<Name>, conds: seq<Pred>, scans: seq<Plan>, rest: seq<Pred>)
    requires Known(conds, tables) && forall c :: c in rest <==> c in conds && Crosses(c)
    requires forall x :: Unused(scans, None(|scans|), x) + Uses(rest, x) == Uses(conds, x)
    requires forall j :: 0 <= j < |scans| ==> scans[j].Scan?
    ensures Crossing(rest, tables) && Sorted(conds, scans, rest)
    ensures rest != [] <==> exists c :: c in conds && Crosses(c)
  {
    if rest != [] {
      assert rest[0] in rest;
    }
    hide Uses, Unused;
    forall i | 0 <= i < |rest| ensures Crosses(rest[i]) && rest[i].lhs.tab in tables && rest[i].rhs.col.tab in tables {
      assert rest[i] in rest;
    }
  }

  lemma OneTable(tables: seq<Name>, conds: seq<Pred>, scans: seq<Plan>, rest: seq<Pred>)
    requires |tables| == 1 && "" !in tables && Distinct(tables) && Listed(tables, scans)
      && ScansOk(scans, tables, conds)
    requires Crossing(rest, tables) && Sorted(conds, scans, rest)
    ensures rest == [] && Covers(scans[0], tables, conds)
    ensures ScansPlaced(scans[0]) <==> SameTableFirst(conds, tables[0])
  {
    GrowFirst(tables, conds, scans);
    Grown(tables, conds, scans, None(1)[0 := true], NoNames(1) + [tables[0]], scans[0]);
  }

  // Scans are not joins, and a condition pushed down changes no join's kind.
  lemma NoKinds(tables: seq<Name>, scans: seq<Plan>)
    requires Listed(tables, scans)
    ensures forall i :: 0 <= i < |scans| ==> SortMerges(scans[i]) == 0
  {
  }

  lemma {:induction false} PushKinds(c: Pred, plan: Plan)
    requires c.rhs.ByCol?
    ensures SortMerges(PushCond(c, plan).1) == SortMerges(plan)
  {
    match plan
    case Scan(_, _) =>
    case Join(_, left, right, _) =>
      PushKinds(c, left);
      PushKinds(c, right);
  }

  // The tables no condition has brought in.
  method JoinOthers(tables: seq<Name>, ghost conds: seq<Pred>, scans: seq<Plan>, scanned: seq<bool>,
          ghost joined: seq<Name>, first: Plan)
    returns (plan: Plan)
    requires tables != [] && ScansOk(scans, tables, conds)
    requires Growing(tables, conds, scans, scanned, joined, first, [])
    ensures Covers(plan, tables, conds)
    ensures ScansPlaced(plan) <==> SameTableFirst(conds, tables[0])
    ensures SortMerges(plan) == SortMerges(first)
  {
    plan := first;
    NoKinds(tables, scans);
    ghost var marks, names := scanned, joined;
    assert |marks| == |tables| && |scans| == |tables|;
    hide Growing, ScansOk, Uses, SameTableFirst;
    for i := 0 to |tables|
      invariant |marks| == |tables| && (forall j :: 0 <= j < i ==> marks[j])
        && forall j :: i <= j < |tables| ==> marks[j] == scanned[j]
      invariant Growing(tables, conds, scans, marks, names, plan, []) && SortMerges(plan) == SortMerges(first)
    {
      if !scanned[i] {
        GrowOne(tables, conds, scans, marks, names, plan, [], i, NestLoop, [], []) by {
          forall x ensures Uses([], x) == 0 {
            UsesConcat([], [], x);
          }
        }
        plan := Join(NestLoop, scans[i], plan, []);
        marks, names := marks[i := true], names + [tables[i]];
      }
    }
    Grown(tables, conds, scans, marks, names, plan);
  }

  /**
   The join tree of a query.  Its scans check only columns of their own table exactly if every condition
   inside one table is inside the first one.
   */
  method MakeOneRel(tables: seq<Name>, conds: seq<Pred>, nestedLoop: bool, sortMerge: bool) returns (out: Planned)
    requires tables != [] && "" !in tables && Distinct(tables) && Known(conds, tables)
    ensures out == NoJoinExecutor <==> !nestedLoop && !sortMerge && exists c :: c in conds && Crosses(c)
    ensures out.Planned? ==> Covers(out.plan, tables, conds)
    ensures out.Planned? ==> (ScansPlaced(out.plan) <==> SameTableFirst(conds, tables[0]))
    ensures out.Planned? ==>
      SortMerges(out.plan) == if !nestedLoop && exists c :: c in conds && Crosses(c) then 1 else 0
  {
    var scans, rest := ScanPlans(tables, conds);
    RestCrosses(tables, conds, scans, rest);
    if |tables| == 1 {
      OneTable(tables, conds, scans, rest);
      NoKinds(tables, scans);
      return Planned(scans[0]);
    }
    NoKinds(tables, scans);
    var plan: Plan;
    var scanned, joined := None(|tables|), NoNames(|tables|);
    hide Growing, Uses, Unused, None, NoNames, Known, ScansOk, Distinct, Sorted;
    if |rest| >= 1 {
      var left, right: nat;
      left, scanned, joined := PopScan(tables, scans, rest[0].lhs.tab, scanned, joined);
      right, scanned, joined := PopScan(tables, scans, rest[0].rhs.col.tab, scanned, joined);
      if nestedLoop {
        plan := Join(NestLoop, scans[left], scans[right], [rest[0]]);
      } else if sortMerge {
        plan := Join(SortMerge, scans[left], scans[right], [rest[0]]);
      } else {
        return NoJoinExecutor;
      }
      GrowPair(tables, conds, scans, rest, left, right, plan.kind);
      rest := rest[1..];
      while rest != []
        invariant Crossing(rest, tables)
        invariant Growing(tables, conds, scans, scanned, joined, plan, rest)
        invariant SortMerges(plan) == if nestedLoop then 0 else 1
        decreases |rest|
      {
        scanned, joined, plan := JoinNext(tables, conds, scans, scanned, joined, plan, rest);
        rest := rest[1..];
      }
    } else {
      GrowFirst(tables, conds, scans);
      plan, scanned, joined := scans[0], scanned[0 := true], joined + [tables[0]];
    }
    plan := JoinOthers(tables, conds, scans, scanned, joined, plan);
    out := Planned(plan);
  }

  // A condition inside the second table goes to the scan of the first, which does not have its columns.
  lemma SecondTableMisplaced(conds: seq<Pred>)
    requires conds == [Pred(Col("b", "x"), OpEq, ByCol(Col("b", "y")))]
    ensures Known(conds, ["a", "b"]) && !SameTableFirst(conds, "a")
    ensures Solved(conds, "a") == conds && Kept(conds, "a") == [] && !ScanPlaced("a", conds)
  {
    assert conds[0] in conds && conds[..0] == [];
    assert Solved(conds, "a") == Solved(conds[..0], "a") + [conds[0]];
  }

  // The plan of that query has a scan whose condition is about another table.
  method MisplacedPlan(nestedLoop: bool, sortMerge: bool) returns (out: Planned)
    ensures out.Planned? && !ScansPlaced(out.plan)
  {
    hide *;
    var conds := [Pred(Col("b", "x"), OpEq, ByCol(Col("b", "y")))];
    SecondTableMisplaced(conds);
    TwoTables(conds);
    out := MakeOneRel(["a", "b"], conds, nestedLoop, sortMerge);
  }

  lemma TwoTables(conds: seq<Pred>)
    requires conds == [Pred(Col("b", "x"), OpEq, ByCol(Col("b", "y")))]
    ensures "" !in ["a", "b"] && Distinct(["a", "b"]) && forall c :: c in conds ==> !Crosses(c)
  {
    assert |"a"| == 1 && |"b"| == 1 && "a"[0] != "b"[0];
  }
}
