/** Finite sets: an element of a non-empty set, sizes of subsets and of injective images. */
module Sets {

  lemma Empty<T(!new)>(s: set<T>)
    requires forall x :: x !in s
    ensures s == {}
  {
  }

  lemma Member<T(!new)>(s: set<T>) returns (x: T)
    requires s != {}
    ensures x in s
  {
    if forall x :: x !in s {
      Empty(s);
    }
    x :| x in s;
  }

  lemma {:induction false} SubsetSize<T(!new)>(a: set<T>, b: set<T>)
    requires a <= b
    ensures |a| <= |b|
  {
    if a != {} {
      var x := Member(a);
      SubsetSize(a - {x}, b - {x});
    }
  }

  // An injective image is no smaller than its source.
  lemma {:induction false} Injects<T(!new), U>(m: map<T, U>, s: set<T>, image: set<U>)
    requires forall x :: x in s ==> x in m && m[x] in image
    requires forall x, y :: x in s && y in s && x != y ==> m[x] != m[y]
    ensures |s| <= |image|
  {
    if s != {} {
      var x := Member(s);
      Injects(m, s - {x}, image - {m[x]});
    }
  }

  function Upto(n: nat): (s: set<int>)
    ensures forall i :: i in s <==> 0 <= i < n
  {
    if n == 0 then {} else Upto(n - 1) + {n - 1}
  }

  lemma {:induction false} Top(s: set<int>) returns (top: int)
    requires s != {}
    ensures top in s && forall x :: x in s ==> x <= top
  {
    top := Member(s);
    var rest := s - {top};
    if rest != {} {
      var other := Top(rest);
      assert forall x :: x in s ==> x == top || x in rest;
      top := if top < other then other else top;
    } else {
      assert forall x :: x in s ==> x in rest || x == top;
    }
  }

  // A set of integers that begins at from and has no gap is an interval.
  lemma {:induction false} Interval(s: set<int>, from: int)
    requires forall x :: x in s ==> x >= from
    requires forall x, y :: y in s && from <= x < y ==> x in s
    ensures forall x :: x in s <==> from <= x < from + |s|
    decreases s
  {
    if s != {} {
      var top := Top(s);
      var rest := s - {top};
      Interval(rest, from);
      assert |rest| == |s| - 1;
      if top > from {
        assert top - 1 in rest;
      }
      assert top !in rest;
      forall x ensures x in s <==> from <= x < from + |s| {
        assert x in s <==> x in rest || x == top;
      }
    }
  }
}
