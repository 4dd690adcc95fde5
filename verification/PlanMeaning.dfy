/** What a join tree computes when block nested-loop joins run it: the filtered product of the tables. */
module PlanMeaning {
  import opened Conditions
  import opened NestedLoopJoin
  import opened Planner

  type Row = map<Name, int>

  type Db = map<Name, seq<Row>>

  // One row of each table in scope, by its place in the table.
  type Combo = map<Name, nat>

  ghost predicate Picks(db: Db, combo: Combo, tabs: set<Name>) {
    combo.Keys == tabs && forall t :: t in tabs ==> t in db && combo[t] < |db[t]|
  }

  function Value(db: Db, combo: Combo, col: Col): int {
    if col.tab in combo && col.tab in db && combo[col.tab] < |db[col.tab]| && col.name in db[col.tab][combo[col.tab]]
    then db[col.tab][combo[col.tab]][col.name] else 0
  }

  predicate True(db: Db, combo: Combo, c: Pred) {
    Holds(c.op, Value(db, combo, c.lhs), match c.rhs case ByVal(v) => v case ByCol(col) => Value(db, combo, col))
  }

  // A condition is true of a combination if its operator holds between the named columns of the rows chosen.
  lemma TrueOfRows(db: Db, combo: Combo, c: Pred, row: Row, other: Row)
    requires c.lhs.tab in combo && c.lhs.tab in db && combo[c.lhs.tab] < |db[c.lhs.tab]|
    requires row == db[c.lhs.tab][combo[c.lhs.tab]] && c.lhs.name in row
    requires c.rhs.ByCol? ==> var tab := c.rhs.col.tab;
      tab in combo && tab in db && combo[tab] < |db[tab]| && other == db[tab][combo[tab]] && c.rhs.col.name in other
    ensures c.rhs.ByCol? ==> (True(db, combo, c) <==> Holds(c.op, row[c.lhs.name], other[c.rhs.col.name]))
    ensures c.rhs.ByVal? ==> (True(db, combo, c) <==> Holds(c.op, row[c.lhs.name], c.rhs.val))
  {
  }

  predicate AllTrue(db: Db, combo: Combo, conds: seq<Pred>) {
    forall i :: 0 <= i < |conds| ==> True(db, combo, conds[i])
  }

  function Matcher(db: Db, conds: seq<Pred>): (Combo, Combo) -> bool {
    (l: Combo, r: Combo) => AllTrue(db, l + r, conds)
  }

  function Merged(pairs: seq<(Combo, Combo)>): seq<Combo> {
    if pairs == [] then [] else [pairs[0].0 + pairs[0].1] + Merged(pairs[1..])
  }

  // The bytes of a row of the plan, which set the size of the join's blocks.
  function Width(widths: map<Name, nat>, plan: Plan): nat {
    match plan
    case Scan(tab, _) => if tab in widths then widths[tab] else 0
    case Join(_, left, right, _) => Width(widths, left) + Width(widths, right)
  }

  // A scan delivers the matching rows of its table once each, in any order; a join runs over what its inputs deliver.
  ghost predicate Produces(db: Db, widths: map<Name, nat>, plan: Plan, out: seq<Combo>)
    decreases plan
  {
    match plan
    case Scan(tab, conds) =>
      forall c: Combo :: Count(out, c) == if Picks(db, c, {tab}) && AllTrue(db, c, conds) then 1 else 0
    case Join(_, left, right, conds) =>
      exists l, r :: Produces(db, widths, left, l) && Produces(db, widths, right, r)
        && out == Merged(Joined(l, r, Width(widths, left), Matcher(db, conds)))
  }

  // ---------------------------------------------------------------- conditions on the nodes

  ghost predicate Checked(db: Db, plan: Plan, combo: Combo) {
    match plan
    case Scan(_, conds) => AllTrue(db, combo, conds)
    case Join(_, left, right, conds) =>
      AllTrue(db, combo, conds) && Checked(db, left, combo) && Checked(db, right, combo)
  }

  lemma TrueFlip(db: Db, combo: Combo, c: Pred)
    ensures True(db, combo, Flip(c)) <==> True(db, combo, c)
  {
    if c.rhs.ByCol? {
      FlipMeans(c, Value(db, combo, c.lhs), Value(db, combo, c.rhs.col));
    }
  }

  lemma UsesIn(conds: seq<Pred>, c: Pred)
    ensures Uses(conds, c) > 0 <==> c in conds || Flip(c) in conds
  {
  }

  lemma AllTrueIff(db: Db, combo: Combo, conds: seq<Pred>)
    ensures AllTrue(db, combo, conds) <==> forall x :: Uses(conds, x) > 0 ==> True(db, combo, x)
  {
    hide Uses, Flip, True;
    forall x | AllTrue(db, combo, conds) && Uses(conds, x) > 0 ensures True(db, combo, x) {
      UsesIn(conds, x);
      TrueFlip(db, combo, x);
    }
    forall i | 0 <= i < |conds| && forall x :: Uses(conds, x) > 0 ==> True(db, combo, x) ensures True(db, combo,
      conds[i]) {
      UsesIn(conds, conds[i]);
    }
  }

  lemma {:induction false} CheckedIff(db: Db, plan: Plan, combo: Combo)
    ensures Checked(db, plan, combo) <==> forall x :: Attached(plan, x) > 0 ==> True(db, combo, x)
  {
    hide Uses, True, AllTrue;
    match plan
    case Scan(_, conds) =>
      AllTrueIff(db, combo, conds);
      assert forall x :: Attached(plan, x) == Uses(conds, x);
    case Join(_, left, right, conds) =>
      AllTrueIff(db, combo, conds);
      CheckedIff(db, left, combo);
      CheckedIff(db, right, combo);
      assert forall x :: Attached(plan, x) > 0 <==>
        Attached(left, x) > 0 || Attached(right, x) > 0 || Uses(conds, x) > 0;
  }

  // A node looks only at the tables in its scope.
  lemma {:induction false} CheckedLocal(db: Db, plan: Plan, c: Combo, c': Combo)
    requires ScansPlaced(plan) && Oriented(plan)
    requires forall t :: t in Scope(plan) ==> t in c && t in c' && c[t] == c'[t]
    ensures Checked(db, plan, c) <==> Checked(db, plan, c')
  {
    match plan
    case Scan(tab, conds) =>
      forall i | 0 <= i < |conds| ensures True(db, c, conds[i]) <==> True(db, c', conds[i]) {
        assert conds[i].lhs.tab in Scope(plan);
      }
    case Join(_, left, right, conds) =>
      CheckedLocal(db, left, c, c');
      CheckedLocal(db, right, c, c');
      forall i | 0 <= i < |conds| ensures True(db, c, conds[i]) <==> True(db, c', conds[i]) {
        assert conds[i].lhs.tab in Scope(plan) && conds[i].rhs.col.tab in Scope(plan);
      }
  }

  // ---------------------------------------------------------------- merging pairs

  function Only(c: Combo, tabs: set<Name>): Combo {
    map t | t in c && t in tabs :: c[t]
  }

  lemma MergeOne(l: Combo, r: Combo, c: Combo)
    requires l.Keys !! r.Keys
    ensures l + r == c <==> c.Keys == l.Keys + r.Keys && l == Only(c, l.Keys) && r == Only(c, r.Keys)
  {
    if l + r == c {
      assert l == Only(c, l.Keys) && r == Only(c, r.Keys);
    }
    if c.Keys == l.Keys + r.Keys && l == Only(c, l.Keys) && r == Only(c, r.Keys) {
      assert l + r == c;
    }
  }

  lemma {:induction false} MergeCount(pairs: seq<(Combo, Combo)>, a: set<Name>, b: set<Name>, c: Combo)
    requires a !! b && forall i :: 0 <= i < |pairs| ==> pairs[i].0.Keys == a && pairs[i].1.Keys == b
    ensures Count(Merged(pairs), c) == if c.Keys == a + b then Count(pairs, (Only(c, a), Only(c, b))) else 0
  {
    hide Count, Only;
    var want := (Only(c, a), Only(c, b));
    CountConcat<Combo>([], [], c);
    CountConcat<(Combo, Combo)>([], [], want);
    if pairs != [] {
      var p := pairs[0];
      MergeOne(p.0, p.1, c);
      MergeCount(pairs[1..], a, b, c);
      assert pairs == [p] + pairs[1..];
      CountConcat([p], pairs[1..], want);
      CountOne(p, want);
      CountConcat([p.0 + p.1], Merged(pairs[1..]), c);
      CountOne(p.0 + p.1, c);
    }
  }

  lemma CountIn<T>(s: seq<T>, i: nat)
    requires i < |s|
    ensures Count(s, s[i]) > 0
  {
    assert s[i] in multiset(s);
  }

  // ---------------------------------------------------------------- the rows of a plan

  // The combination passes every node of the plan.
  ghost predicate Passes(db: Db, plan: Plan, c: Combo) {
    Picks(db, c, Scope(plan)) && Checked(db, plan, c)
  }

  ghost predicate EachOnce(db: Db, plan: Plan, out: seq<Combo>) {
    forall c :: Count(out, c) == if Passes(db, plan, c) then 1 else 0
  }

  lemma JoinKeys(db: Db, left: Plan, right: Plan, l: seq<Combo>, r: seq<Combo>, width: nat, matches: (Combo,
          Combo) -> bool, i: nat)
    requires EachOnce(db, left, l) && EachOnce(db, right, r)
    requires i < |Joined(l, r, width, matches)|
    ensures Joined(l, r, width, matches)[i].0.Keys == Scope(left)
      && Joined(l, r, width, matches)[i].1.Keys == Scope(right)
  {
    var pairs := Joined(l, r, width, matches);
    JoinedCount(l, r, width, matches, pairs[i].0, pairs[i].1);
    CountIn(pairs, i);
    hide Count, Checked, Joined;
    assert pairs[i] == (pairs[i].0, pairs[i].1);
  }

  lemma JoinRow(db: Db, left: Plan, right: Plan, kind: JoinKind, conds: seq<Pred>, c: Combo)
    requires ScansPlaced(left) && ScansPlaced(right) && Oriented(left) && Oriented(right) && Scope(left) !! Scope(right)
    requires c.Keys == Scope(left) + Scope(right)
    ensures var cl, cr := Only(c, Scope(left)), Only(c, Scope(right));
      Passes(db, Join(kind, left, right, conds), c) <==>
        Matcher(db, conds)(cl, cr) && Passes(db, left, cl) && Passes(db, right, cr)
  {
    var cl, cr := Only(c, Scope(left)), Only(c, Scope(right));
    CheckedLocal(db, left, c, cl);
    CheckedLocal(db, right, c, cr);
    assert cl + cr == c;
    hide AllTrue, ScansPlaced, Oriented;
    assert Scope(Join(kind, left, right, conds)) == Scope(left) + Scope(right);
    assert forall t :: t in Scope(left) ==> cl[t] == c[t];
    assert forall t :: t in Scope(right) ==> cr[t] == c[t];
  }

  lemma JoinRows(db: Db, left: Plan, right: Plan, kind: JoinKind, conds: seq<Pred>, l: seq<Combo>, r: seq<Combo>,
          width: nat)
    requires ScansPlaced(left) && ScansPlaced(right) && Oriented(left) && Oriented(right) && Scope(left) !! Scope(right)
    requires EachOnce(db, left, l) && EachOnce(db, right, r)
    ensures EachOnce(db, Join(kind, left, right, conds), Merged(Joined(l, r, width, Matcher(db, conds))))
  {
    hide Checked, Joined, Count, Picks, ScansPlaced, Oriented, Matcher, Only;
    var pairs := Joined(l, r, width, Matcher(db, conds));
    var plan := Join(kind, left, right, conds);
    forall i | 0 <= i < |pairs| ensures pairs[i].0.Keys == Scope(left) && pairs[i].1.Keys == Scope(right) {
      JoinKeys(db, left, right, l, r, width, Matcher(db, conds), i);
    }
    forall c ensures Count(Merged(pairs), c) == if Passes(db, plan, c) then 1 else 0 {
      MergeCount(pairs, Scope(left), Scope(right), c);
      if c.Keys == Scope(left) + Scope(right) {
        JoinRow(db, left, right, kind, conds, c);
        JoinedCount(l, r, width, Matcher(db, conds), Only(c, Scope(left)), Only(c, Scope(right)));
      } else {
        PicksKeys(db, plan, c);
      }
    }
  }

  lemma PicksKeys(db: Db, plan: Plan, c: Combo)
    ensures Passes(db, plan, c) ==> c.Keys == Scope(plan)
  {
  }

  lemma {:induction false} PlanRows(db: Db, widths: map<Name, nat>, plan: Plan, out: seq<Combo>)
    requires ScansOnce(plan) && ScansPlaced(plan) && Oriented(plan) && Produces(db, widths, plan, out)
    ensures EachOnce(db, plan, out)
  {
    hide AllTrue, Count, Picks, Joined, Merged, Matcher;
    match plan
    case Scan(tab, conds) =>
    case Join(kind, left, right, conds) =>
      var l, r :| Produces(db, widths, left, l) && Produces(db, widths, right, r)
        && out == Merged(Joined(l, r, Width(widths, left), Matcher(db, conds)));
      PlanRows(db, widths, left, l);
      PlanRows(db, widths, right, r);
      JoinRows(db, left, right, kind, conds, l, r, Width(widths, left));
  }

  /**
   The join tree of a query delivers every combination of one row per table that satisfies all the
   query's conditions exactly once, and nothing else, whatever the tree, the scans' order and the
   joins' block sizes.
   */
  lemma TreeAnswersQuery(db: Db, widths: map<Name, nat>, tables: seq<Name>, conds: seq<Pred>, plan: Plan,
          out: seq<Combo>)
    requires Covers(plan, tables, conds) && ScansPlaced(plan) && Produces(db, widths, plan, out)
    ensures forall c :: Count(out, c) == if Picks(db, c, set t | t in tables) && AllTrue(db, c, conds) then 1 else 0
  {
    PlanRows(db, widths, plan, out);
    var tabs := set t | t in tables;
    assert Scope(plan) == tabs;
    forall c ensures Checked(db, plan, c) <==> AllTrue(db, c, conds) {
      CheckedIff(db, plan, c);
      AllTrueIff(db, c, conds);
    }
    hide Count, Checked, AllTrue, Produces, Covers;
  }
}
