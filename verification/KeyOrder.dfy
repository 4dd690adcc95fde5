/** The order of composite index keys, and the number that stands for a key in the index model. */
module KeyOrder {
  import opened Arithmetic

  // A column type, as the range of its values in the order of its comparison.
  datatype Column = Column(min: int, max: int)

  type Tuple = seq<int>

  ghost predicate Proper(cols: seq<Column>) {
    forall i :: 0 <= i < |cols| ==> cols[i].min <= cols[i].max
  }

  ghost predicate InDomain(k: Tuple, cols: seq<Column>) {
    |k| == |cols| && forall i :: 0 <= i < |k| ==> cols[i].min <= k[i] <= cols[i].max
  }

  ghost predicate Agree(a: Tuple, b: Tuple, n: nat) {
    n <= |a| && n <= |b| && forall i :: 0 <= i < n ==> a[i] == b[i]
  }

  // Column c of a record.
  function Field(rec: seq<int>, c: nat): int {
    if c < |rec| then rec[c] else 0
  }

  // The key that an index over some columns takes from a record.
  function KeyOf(rec: seq<int>, cols: seq<nat>): (k: Tuple)
    ensures |k| == |cols| && forall i :: 0 <= i < |k| ==> k[i] == Field(rec, cols[i])
  {
    seq(|cols|, i requires 0 <= i < |cols| => Field(rec, cols[i]))
  }

  // Two records have the same key if and only if they agree in every column of the index.
  lemma SameKeyMeans(a: seq<int>, b: seq<int>, cols: seq<nat>)
    requires forall i :: 0 <= i < |cols| ==> cols[i] < |a| && cols[i] < |b|
    ensures KeyOf(a, cols) == KeyOf(b, cols) <==> forall i :: 0 <= i < |cols| ==> a[cols[i]] == b[cols[i]]
  {
    forall i | 0 <= i < |cols| ensures KeyOf(a, cols)[i] == a[cols[i]] && KeyOf(b, cols)[i] == b[cols[i]] {
    }
  }

  // Lexicographic order: a is below b in the first column in which they differ.
  ghost predicate Below(a: Tuple, b: Tuple) {
    exists i :: 0 <= i < |a| && i < |b| && Agree(a, b, i) && a[i] < b[i]
  }

  // Compares column by column; the first difference decides.
  method IxCompare(a: Tuple, b: Tuple) returns (res: int)
    requires |a| == |b|
    ensures res < 0 <==> Below(a, b)
    ensures res > 0 <==> Below(b, a)
    ensures res == 0 <==> a == b
  {
    for i := 0 to |a|
      invariant Agree(a, b, i)
    {
      res := if a[i] < b[i] then -1 else if a[i] > b[i] then 1 else 0;
      if res != 0 {
        FirstDifference(a, b, i);
        FirstDifference(b, a, i);
        return;
      }
    }
    assert a == b;
    return 0;
  }

  lemma FirstDifference(a: Tuple, b: Tuple, i: nat)
    requires i < |a| == |b| && Agree(a, b, i) && a[i] != b[i]
    ensures Below(a, b) <==> a[i] < b[i]
  {
  }

  // ---------------------------------------------------------------- the code of a key

  function Width(c: Column): int {
    c.max - c.min + 1
  }

  // How many keys there are.
  function Span(cols: seq<Column>): int {
    if cols == [] then 1 else Width(cols[0]) * Span(cols[1..])
  }

  // The number of keys below k, so that keys can be compared as numbers.
  function Code(k: Tuple, cols: seq<Column>): int
    requires |k| == |cols|
  {
    if k == [] then 0 else (k[0] - cols[0].min) * Span(cols[1..]) + Code(k[1..], cols[1..])
  }

  lemma {:induction false} CodeRange(k: Tuple, cols: seq<Column>)
    requires Proper(cols) && InDomain(k, cols)
    ensures 0 <= Code(k, cols) < Span(cols)
  {
    if k != [] {
      CodeRange(k[1..], cols[1..]);
      var d, w, s := k[0] - cols[0].min, Width(cols[0]), Span(cols[1..]);
      assert 0 <= d * s && (d + 1) * s <= w * s by {
        MulMono(0, d, s);
        MulMono(d + 1, w, s);
      }
    }
  }

  lemma CodeHead(k: Tuple, cols: seq<Column>)
    requires |k| == |cols| > 0
    ensures Code(k, cols) == (k[0] - cols[0].min) * Span(cols[1..]) + Code(k[1..], cols[1..])
  {
  }

  lemma HeadDecides(d: int, e: int, s: int, x: int, y: int)
    requires d < e && 0 <= x < s && 0 <= y < s
    ensures d * s + x < e * s + y
  {
    MulMono(d + 1, e, s);
  }

  // The numbers are ordered as the keys are.
  lemma {:induction false} CodeOrder(a: Tuple, b: Tuple, cols: seq<Column>)
    requires Proper(cols) && InDomain(a, cols) && InDomain(b, cols)
    ensures Code(a, cols) < Code(b, cols) <==> Below(a, b)
    ensures Code(a, cols) == Code(b, cols) <==> a == b
  {
    if a != [] {
      CodeRange(a[1..], cols[1..]);
      CodeRange(b[1..], cols[1..]);
      assert a[1..] == b[1..] && a[0] == b[0] ==> a == b by {
        assert a == [a[0]] + a[1..] && b == [b[0]] + b[1..];
      }
      CodeHead(a, cols);
      CodeHead(b, cols);
      hide Span, Code;
      if a[0] == b[0] {
        CodeOrder(a[1..], b[1..], cols[1..]);
        TailBelow(a, b);
        hide Below;
      } else {
        FirstDifference(a, b, 0);
        hide Below;
        var s, d, e := Span(cols[1..]), a[0] - cols[0].min, b[0] - cols[0].min;
        if d < e {
          HeadDecides(d, e, s, Code(a[1..], cols[1..]), Code(b[1..], cols[1..]));
        } else {
          HeadDecides(e, d, s, Code(b[1..], cols[1..]), Code(a[1..], cols[1..]));
        }
      }
    }
  }

  lemma TailBelow(a: Tuple, b: Tuple)
    requires |a| == |b| > 0 && a[0] == b[0]
    ensures Below(a, b) <==> Below(a[1..], b[1..])
  {
    if Below(a, b) {
      var i :| 0 <= i < |a| && i < |b| && Agree(a, b, i) && a[i] < b[i];
      assert Agree(a[1..], b[1..], i - 1) && a[1..][i - 1] < b[1..][i - 1];
    }
    if Below(a[1..], b[1..]) {
      var i :| 0 <= i < |a| - 1 && i < |b| - 1 && Agree(a[1..], b[1..], i) && a[1..][i] < b[1..][i];
      forall j | 0 <= j < i + 1 ensures a[j] == b[j] {
        assert j > 0 ==> a[1..][j - 1] == b[1..][j - 1];
      }
      assert Agree(a, b, i + 1) && a[i + 1] < b[i + 1];
    }
  }

  // Any two keys are comparable, one way only.
  lemma Trichotomy(a: Tuple, b: Tuple)
    requires |a| == |b|
    ensures Below(a, b) || Below(b, a) || a == b
    ensures !(Below(a, b) && Below(b, a)) && !Below(a, a)
  {
    var i := 0;
    while i < |a| && a[i] == b[i]
      invariant i <= |a| && Agree(a, b, i)
    {
      i := i + 1;
    }
    if i < |a| {
      FirstDifference(a, b, i);
      FirstDifference(b, a, i);
    } else {
      assert a == b;
    }
  }
}
