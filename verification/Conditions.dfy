/** Records, scan conditions and their evaluation. */
module Conditions {

  // A record as the values of its columns, each by its place in the order of its type.
  type Record = seq<int>

  datatype CompOp = OpEq | OpNe | OpLt | OpGt | OpLe | OpGe

  // Column against a value, or against another column of the same record.
  datatype Cond = Cond(col: nat, op: CompOp, isVal: bool, val: int, rhsCol: nat)

  predicate Holds(op: CompOp, a: int, b: int) {
    match op
    case OpEq => a == b
    case OpNe => a != b
    case OpLt => a < b
    case OpGt => a > b
    case OpLe => a <= b
    case OpGe => a >= b
  }

  function Opposite(op: CompOp): CompOp {
    match op
    case OpEq => OpNe
    case OpNe => OpEq
    case OpLt => OpGe
    case OpGt => OpLe
    case OpLe => OpGt
    case OpGe => OpLt
  }

  // Of an operator and its opposite exactly one holds, and of below, equal and above exactly one.
  lemma OneHolds(op: CompOp, a: int, b: int)
    ensures Holds(Opposite(op), a, b) <==> !Holds(op, a, b)
    ensures Holds(OpEq, a, b) <==> a == b
    ensures Holds(OpLt, a, b) <==> Holds(OpGt, b, a)
    ensures Holds(OpLe, a, b) <==> Holds(OpLt, a, b) || Holds(OpEq, a, b)
    ensures Holds(OpGt, a, b) <==> !Holds(OpLt, a, b) && !Holds(OpEq, a, b)
    ensures a < b ==> Holds(OpLt, a, b)
  {
  }

  predicate InRange(cond: Cond, width: nat) {
    cond.col < width && (!cond.isVal ==> cond.rhsCol < width)
  }

  predicate Satisfies(rec: Record, cond: Cond)
    requires InRange(cond, |rec|)
  {
    Holds(cond.op, rec[cond.col], if cond.isVal then cond.val else rec[cond.rhsCol])
  }

  // A condition on two columns says of a record what the condition with the other column's value says.
  lemma ColumnAsValue(rec: Record, cond: Cond)
    requires InRange(cond, |rec|) && !cond.isVal
    ensures Satisfies(rec, cond) <==> Satisfies(rec, cond.(isVal := true, val := rec[cond.rhsCol]))
  {
  }

  // And one against a value depends on that value and the column alone.
  lemma ValueOnly(rec: Record, other: Record, cond: Cond)
    requires InRange(cond, |rec|) && InRange(cond, |other|) && cond.isVal && other[cond.col] == rec[cond.col]
    ensures Satisfies(other, cond) <==> Satisfies(rec, cond)
    ensures cond.op == OpEq ==> (Satisfies(rec, cond) <==> rec[cond.col] == cond.val)
  {
  }

  predicate Matches(rec: Record, conds: seq<Cond>)
    requires forall i :: 0 <= i < |conds| ==> InRange(conds[i], |rec|)
  {
    forall i :: 0 <= i < |conds| ==> Satisfies(rec, conds[i])
  }

  function CompareValue(a: int, b: int): int {
    if a < b then -1 else if a > b then 1 else 0
  }

  function EvalCompare(cmp: int, op: CompOp): bool {
    match op
    case OpEq => cmp == 0
    case OpNe => cmp != 0
    case OpLt => cmp < 0
    case OpGt => cmp > 0
    case OpLe => cmp <= 0
    case OpGe => cmp >= 0
  }

  // Stops at the first condition that fails.
  method EvalConds(rec: Record, conds: seq<Cond>) returns (ok: bool)
    requires forall i :: 0 <= i < |conds| ==> InRange(conds[i], |rec|)
    ensures ok <==> Matches(rec, conds)
  {
    for k := 0 to |conds|
      invariant forall i :: 0 <= i < k ==> Satisfies(rec, conds[i])
    {
      var rhs := if conds[k].isVal then conds[k].val else rec[conds[k].rhsCol];
      if !EvalCompare(CompareValue(rec[conds[k].col], rhs), conds[k].op) {
        return false;
      }
    }
    return true;
  }
}
