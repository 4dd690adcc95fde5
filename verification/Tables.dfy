/** Tables as maps of records, and what it means to answer a query on one. */
module Tables {
  import opened RecordIds
  import opened Conditions

  type Table = map<Rid, Record>

  ghost predicate Hit(heap: Table, conds: seq<Cond>, rid: Rid) {
    rid in heap && (forall i :: 0 <= i < |conds| ==> InRange(conds[i], |heap[rid]|)) && Matches(heap[rid], conds)
  }

  // The matching records, each once.
  ghost predicate Answers(out: seq<Rid>, heap: Table, conds: seq<Cond>) {
    && (forall i, j :: 0 <= i < j < |out| ==> out[i] != out[j])
    && (forall rid :: rid in out <==> Hit(heap, conds, rid))
  }

  // Any two scans that answer the same question return the same records.
  lemma {:induction false} SameAnswers(a: seq<Rid>, b: seq<Rid>, heap: Table, conds: seq<Cond>)
    requires Answers(a, heap, conds) && Answers(b, heap, conds)
    ensures multiset(a) == multiset(b) && |a| == |b|
  {
    forall rid ensures multiset(a)[rid] == multiset(b)[rid] {
      OnceEach(a, rid);
      OnceEach(b, rid);
    }
    assert |multiset(a)| == |a| && |multiset(b)| == |b|;
  }

  lemma {:induction false} OnceEach(s: seq<Rid>, x: Rid)
    requires forall i, j :: 0 <= i < j < |s| ==> s[i] != s[j]
    ensures multiset(s)[x] == if x in s then 1 else 0
  {
    if |s| > 0 {
      var n := |s| - 1;
      OnceEach(s[..n], x);
      assert s == s[..n] + [s[n]];
    }
  }

  // A condition and its opposite part the records of a table between them.
  lemma OppositeAnswers(a: seq<Rid>, b: seq<Rid>, heap: Table, cond: Cond)
    requires forall rid :: rid in heap ==> InRange(cond, |heap[rid]|)
    requires Answers(a, heap, [cond]) && Answers(b, heap, [cond.(op := Opposite(cond.op))])
    ensures forall rid :: rid in heap <==> rid in a || rid in b
    ensures forall rid :: !(rid in a && rid in b)
  {
    var cond' := cond.(op := Opposite(cond.op));
    forall rid
      ensures Hit(heap, [cond], rid) <==> rid in heap && Satisfies(heap[rid], cond)
      ensures Hit(heap, [cond'], rid) <==> rid in heap && !Satisfies(heap[rid], cond)
    {
      if rid in heap {
        HitOne(heap, cond, rid);
        HitOne(heap, cond', rid);
        OneHolds(cond.op, heap[rid][cond.col], if cond.isVal then cond.val else heap[rid][cond.rhsCol]);
      }
    }
  }

  lemma HitOne(heap: Table, cond: Cond, rid: Rid)
    requires rid in heap && InRange(cond, |heap[rid]|)
    ensures Hit(heap, [cond], rid) <==> Satisfies(heap[rid], cond)
  {
    assert [cond][0] == cond;
  }

  lemma HitIn(heap: Table, conds: seq<Cond>, rid: Rid)
    requires Hit(heap, conds, rid)
    ensures rid in heap
  {
  }
}
