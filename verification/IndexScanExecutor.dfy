/** The index scan executor: bounds, cursor and filter together yield exactly the matching records. */
module IndexScanExecutor {
  import opened RecordIds
  import opened IndexTree
  import opened IndexOrder
  import opened IndexState
  import opened IndexHandle
  import opened IndexScan
  import opened IndexBounds
  import opened KeyOrder
  import opened Conditions
  import opened Tables

  ghost predicate Shaped(heap: Table, conds: seq<Cond>, ixCols: seq<nat>, cols: seq<Column>) {
    && |ixCols| == |cols| && Proper(cols) && Typed(conds, ixCols, cols)
    && (forall rid :: rid in heap ==> forall i :: 0 <= i < |ixCols| ==> ixCols[i] < |heap[rid]|)
    && (forall rid :: rid in heap ==> forall i :: 0 <= i < |conds| ==> InRange(conds[i], |heap[rid]|))
    && (forall rid :: rid in heap ==> InDomain(KeyOf(heap[rid], ixCols), cols))
  }

  // The index holds the key of every record of the table, and nothing else.
  ghost predicate Indexed(heap: Table, conds: seq<Cond>, ixCols: seq<nat>, cols: seq<Column>, contents: map<Key, Rid>) {
    && Shaped(heap, conds, ixCols, cols)
    && (forall rid :: rid in heap ==>
      Code(KeyOf(heap[rid], ixCols), cols) in contents && contents[Code(KeyOf(heap[rid], ixCols), cols)] == rid)
    && (forall k :: k in contents ==> contents[k] in heap && Code(KeyOf(heap[contents[k]], ixCols), cols) == k)
  }

  // ---------------------------------------------------------------- positions and records

  ghost predicate HasKey(heap: Table, ixCols: seq<nat>, cols: seq<Column>, rid: Rid, k: Key)
    requires |ixCols| == |cols|
  {
    rid in heap && (forall j :: 0 <= j < |ixCols| ==> ixCols[j] < |heap[rid]|)
      && Code(KeyOf(heap[rid], ixCols), cols) == k
  }

  // What the list of the index says about the table.
  ghost predicate Listing(heap: Table, ixCols: seq<nat>, cols: seq<Column>, keys: seq<Key>, rids: seq<Rid>) {
    && |keys| == |rids| && Ascending(keys) && |ixCols| == |cols|
    && (forall i :: 0 <= i < |rids| ==> HasKey(heap, ixCols, cols, rids[i], keys[i]))
    && (forall rid :: rid in heap ==> rid in rids)
  }

  lemma ListingOf(heap: Table, conds: seq<Cond>, ixCols: seq<nat>, cols: seq<Column>, contents: map<Key, Rid>,
          keys: seq<Key>, rids: seq<Rid>)
    requires Indexed(heap, conds, ixCols, cols, contents) && Lists(keys, rids, contents)
    ensures Listing(heap, ixCols, cols, keys, rids)
  {
    forall i | 0 <= i < |rids| ensures HasKey(heap, ixCols, cols, rids[i], keys[i]) {
      var k := keys[i];
      assert k in contents && contents[k] in heap;
    }
    forall rid | rid in heap ensures rid in rids {
      var k := Code(KeyOf(heap[rid], ixCols), cols);
      assert k in keys;
      var i :| 0 <= i < |keys| && keys[i] == k;
      assert rids[i] == rid;
    }
  }

  // Between which places the range lies.
  ghost predicate Spans(cols: seq<Column>, r: Range, keys: seq<Key>, n: nat, m: nat)
    requires |r.low| == |r.high| == |cols|
  {
    Cuts(keys, n, Code(r.low, cols), !r.lowInc) && Cuts(keys, m, Code(r.high, cols), r.highInc)
  }

  lemma PlaceInRange(heap: Table, conds: seq<Cond>, ixCols: seq<nat>, cols: seq<Column>, keys: seq<Key>,
          rids: seq<Rid>, r: Range, n: nat, m: nat, i: nat)
    requires Listing(heap, ixCols, cols, keys, rids) && Shaped(heap, conds, ixCols, cols)
    requires InDomain(r.low, cols) && InDomain(r.high, cols) && Spans(cols, r, keys, n, m) && i < |keys|
    ensures rids[i] in heap && (forall j :: 0 <= j < |ixCols| ==> ixCols[j] < |heap[rids[i]]|)
    ensures n <= i <==> From(r, KeyOf(heap[rids[i]], ixCols))
    ensures i < m <==> To(r, KeyOf(heap[rids[i]], ixCols))
  {
    assert HasKey(heap, ixCols, cols, rids[i], keys[i]);
    var k := KeyOf(heap[rids[i]], ixCols);
    assert InDomain(k, cols);
    CodeOrder(r.low, k, cols);
    CodeOrder(k, r.low, cols);
    CodeOrder(r.high, k, cols);
    CodeOrder(k, r.high, cols);
    hide Below, InDomain, Shaped, Ascending;
  }

  // A record on the wrong side of both ends of the range.
  ghost predicate Stray(heap: Table, ixCols: seq<nat>, r: Range, rid: Rid) {
    rid in heap && (forall j :: 0 <= j < |ixCols| ==> ixCols[j] < |heap[rid]|)
    && !From(r, KeyOf(heap[rid], ixCols)) && !To(r, KeyOf(heap[rid], ixCols))
  }

  lemma StrayIffCrossed(heap: Table, conds: seq<Cond>, ixCols: seq<nat>, cols: seq<Column>, keys: seq<Key>,
          rids: seq<Rid>, r: Range, n: nat, m: nat)
    requires Listing(heap, ixCols, cols, keys, rids) && Shaped(heap, conds, ixCols, cols)
    requires InDomain(r.low, cols) && InDomain(r.high, cols) && Spans(cols, r, keys, n, m)
    ensures n > m <==> exists rid :: Stray(heap, ixCols, r, rid)
  {
    if n > m {
      PlaceInRange(heap, conds, ixCols, cols, keys, rids, r, n, m, m);
      assert Stray(heap, ixCols, r, rids[m]);
    }
    if rid :| Stray(heap, ixCols, r, rid) {
      var i :| 0 <= i < |rids| && rids[i] == rid;
      PlaceInRange(heap, conds, ixCols, cols, keys, rids, r, n, m, i);
    }
  }

  lemma HitInRange(heap: Table, conds: seq<Cond>, ixCols: seq<nat>, cols: seq<Column>, keys: seq<Key>, rids: seq<Rid>,
          r: Range, p: nat, n: nat, m: nat, i: nat)
    requires Listing(heap, ixCols, cols, keys, rids) && Shaped(heap, conds, ixCols, cols)
      && Derived(conds, ixCols, cols, r, p)
    requires InDomain(r.low, cols) && InDomain(r.high, cols) && Spans(cols, r, keys, n, m) && i < |keys|
    requires Hit(heap, conds, rids[i])
    ensures n <= i < m
  {
    PlaceInRange(heap, conds, ixCols, cols, keys, rids, r, n, m, i);
    RangeHolds(conds, ixCols, cols, r, p, heap[rids[i]]);
  }

  // ---------------------------------------------------------------- the executor

  // What the executor relies on: a sound index over a table of the right shape.
  ghost predicate Ready(ih: IxIndexHandle, heap: Table, conds: seq<Cond>, ixCols: seq<nat>, cols: seq<Column>)
    reads ih
  {
    ih.Valid() && Indexed(heap, conds, ixCols, cols, ih.contents)
  }

  lemma ReadyFacts(ih: IxIndexHandle, heap: Table, conds: seq<Cond>, ixCols: seq<nat>, cols: seq<Column>)
    requires Ready(ih, heap, conds, ixCols, cols)
    ensures ih.Valid() && Shaped(heap, conds, ixCols, cols) && |ixCols| == |cols| && Proper(cols)
      && Typed(conds, ixCols, cols)
    ensures Listing(heap, ixCols, cols, Keys(ih.t, ih.leaves), Rids(ih.t, ih.leaves))
  {
    hide Whole, Keys, Rids, Lists;
    WholeRow(ih.pages, ih.t, ih.rootPage, ih.numPages, ih.nextPageNo, ih.MaxSize(), ih.leaves, ih.contents);
    ListingOf(heap, conds, ixCols, cols, ih.contents, Keys(ih.t, ih.leaves), Rids(ih.t, ih.leaves));
  }

  // Where the cursor stands, and where it is to stop.
  ghost predicate Standing(ih: IxIndexHandle, scan: IxScan, n: nat, m: nat)
    reads ih, scan
  {
    scan.ih == ih && Points(ih.t, ih.leaves, scan.iid, n) && Points(ih.t, ih.leaves, scan.end, m)
  }

  // No record at the places from a up to b matches.
  ghost predicate Missed(heap: Table, conds: seq<Cond>, rids: seq<Rid>, a: nat, b: nat) {
    forall i :: a <= i < b && i < |rids| ==> !Hit(heap, conds, rids[i])
  }

  lemma HitIs(ih: IxIndexHandle, heap: Table, conds: seq<Cond>, ixCols: seq<nat>, cols: seq<Column>, n: nat)
    requires Ready(ih, heap, conds, ixCols, cols) && n < |Rids(ih.t, ih.leaves)|
    ensures var rid := Rids(ih.t, ih.leaves)[n];
            && rid in heap && (forall i :: 0 <= i < |conds| ==> InRange(conds[i], |heap[rid]|))
            && (Hit(heap, conds, rid) <==> Matches(heap[rid], conds))
  {
    ReadyFacts(ih, heap, conds, ixCols, cols);
    hide Ready, Indexed, Matches, Rids;
    assert HasKey(heap, ixCols, cols, Rids(ih.t, ih.leaves)[n], Keys(ih.t, ih.leaves)[n]);
  }

  lemma AtEnd(ih: IxIndexHandle, scan: IxScan, n: nat, m: nat)
    requires ih.Valid() && Standing(ih, scan, n, m)
    ensures scan.IsEnd() <==> n == m
    ensures n <= |Keys(ih.t, ih.leaves)| == |Rids(ih.t, ih.leaves)|
  {
    hide Whole, Points, Keys, Rids;
    LeavesDistinct(ih.pages, ih.t, ih.rootPage, ih.numPages, ih.nextPageNo, ih.MaxSize(), NO_PAGE, ih.leaves,
      ih.contents);
    PointsOnce(ih.t, ih.leaves, scan.iid, scan.end, n, m);
    PlaceRead(ih.pages, ih.t, ih.rootPage, ih.numPages, ih.nextPageNo, ih.MaxSize(), ih.leaves, ih.contents, scan.iid,
      n);
  }

  class IndexScanExecutor {
    const ih: IxIndexHandle
    const heap: Table
    const conds: seq<Cond>
    const ixCols: seq<nat>
    const cols: seq<Column>
    var rid: Rid

    constructor (ih: IxIndexHandle, heap: Table, conds: seq<Cond>, ixCols: seq<nat>, cols: seq<Column>)
      ensures this.ih == ih && this.heap == heap && this.conds == conds && this.ixCols == ixCols && this.cols == cols
    {
      this.ih, this.heap, this.conds, this.ixCols, this.cols := ih, heap, conds, ixCols, cols;
    }

    // From place n on, to the first matching record or the end of the range; thrown: the list ran out.
    method FindNextValid(scan: IxScan, ghost n: nat, ghost m: nat) returns (thrown: bool, ghost n': nat)
      requires Ready(ih, heap, conds, ixCols, cols) && Standing(ih, scan, n, m)
      modifies this, scan
      ensures n <= n' <= |Rids(ih.t, ih.leaves)| && Missed(heap, conds, Rids(ih.t, ih.leaves), n, n')
      ensures Standing(ih, scan, n', m)
      ensures !thrown ==>
        n' == m || (n' < |Rids(ih.t, ih.leaves)| && rid == Rids(ih.t, ih.leaves)[n'] && Hit(heap, conds, rid))
      ensures thrown ==> n' == |Rids(ih.t, ih.leaves)| && n' != m
      ensures n <= m ==> n' <= m
    {
      hide *;
      ReadyFacts(ih, heap, conds, ixCols, cols);
      n' := n;
      ghost var rids := Rids(ih.t, ih.leaves);
      AtEnd(ih, scan, n', m);
      assert Missed(heap, conds, rids, n, n) by {
        NoneMissed(heap, conds, rids, n);
      }
      while !scan.IsEnd()
        invariant Standing(ih, scan, n', m) && n <= n' <= |rids| && Missed(heap, conds, rids, n, n')
          && (n <= m ==> n' <= m)
        invariant scan.IsEnd() <==> n' == m
        decreases |rids| - n', if scan.IsEnd() then 0 else 1
      {
        Read(ih, scan, n', m);
        var found, r := ih.GetRid(scan.iid, n');
        if !found {
          return true, n';
        }
        rid := r;
        HitIs(ih, heap, conds, ixCols, cols, n');
        var ok := EvalConds(heap[rid], conds);
        if ok {
          return false, n';
        }
        OneMissed(heap, conds, rids, n, n');
        scan.Next(n');
        n' := n' + 1;
        Stepped(ih, scan, n', m);
        AtEnd(ih, scan, n', m);
      }
      thrown := false;
    }

    // beginTuple: the range, its two places and the first match.
    method BeginTuple() returns (thrown: bool, scan: IxScan, ghost r: Range, ghost p: nat, ghost n: nat, ghost m: nat,
            ghost at: nat)
      requires Ready(ih, heap, conds, ixCols, cols)
      modifies this
      ensures fresh(scan)
      ensures |ixCols| == |cols| && Derived(conds, ixCols, cols, r, p) && |r.low| == |r.high| == |cols|
      ensures InDomain(r.low, cols) && InDomain(r.high, cols) && Spans(cols, r, Keys(ih.t, ih.leaves), n, m)
      ensures n <= at <= |Rids(ih.t, ih.leaves)| && Missed(heap, conds, Rids(ih.t, ih.leaves), n, at)
        && Standing(ih, scan, at, m)
      ensures !thrown ==>
        at == m || (at < |Rids(ih.t, ih.leaves)| && rid == Rids(ih.t, ih.leaves)[at] && Hit(heap, conds, rid))
      ensures thrown ==> at == |Rids(ih.t, ih.leaves)| && at != m
      ensures n <= m ==> at <= m
      ensures m <= |Rids(ih.t, ih.leaves)|
    {
      hide *;
      ReadyFacts(ih, heap, conds, ixCols, cols);
      var range;
      range, p := FindRange(conds, ixCols, cols);
      r := range;
      RangeTyped(conds, ixCols, cols, r, p);
      RangeSizes(r, cols);
      var lower, upper;
      if range.lowInc {
        lower, n := ih.LowerBoundPlace(Code(range.low, cols));
      } else {
        lower, n := ih.UpperBoundPlace(Code(range.low, cols));
      }
      if range.highInc {
        upper, m := ih.UpperBoundPlace(Code(range.high, cols));
      } else {
        upper, m := ih.LowerBoundPlace(Code(range.high, cols));
      }
      IntroSpans(cols, r, Keys(ih.t, ih.leaves), n, m);
      scan := new IxScan(ih, lower, upper);
      Stepped(ih, scan, n, m);
      EndBound(ih, upper, m);
      thrown, at := FindNextValid(scan, n, m);
    }

    // beginTuple, then nextTuple until the end: thrown exactly if a key lies on the wrong side of both ends
    // of the range, and otherwise the matching records in the order of their keys.
    method Run() returns (thrown: bool, out: seq<Rid>, ghost r: Range, ghost p: nat)
      requires Ready(ih, heap, conds, ixCols, cols)
      modifies this
      ensures |ixCols| == |cols| && Derived(conds, ixCols, cols, r, p)
      ensures thrown <==> exists rid :: Stray(heap, ixCols, r, rid)
      ensures !thrown ==> Answers(out, heap, conds) && InKeyOrder(out, heap, ixCols, cols)
    {
      hide *;
      ReadyFacts(ih, heap, conds, ixCols, cols);
      ghost var rids, keys := Rids(ih.t, ih.leaves), Keys(ih.t, ih.leaves);
      ghost var n, m, at;
      var scan;
      thrown, scan, r, p, n, m, at := BeginTuple();
      StrayIffCrossed(heap, conds, ixCols, cols, keys, rids, r, n, m);
      out := [];
      if thrown {
        CrossedIfThrown(heap, conds, rids, n, m, at);
        return;
      }
      NotCrossed(heap, conds, ixCols, cols, keys, rids, r, p, n, m, at);
      HitsMissed(heap, conds, rids, n, at);
      AtEnd(ih, scan, at, m);
      while !scan.IsEnd()
        invariant Standing(ih, scan, at, m) && n <= at <= m && (scan.IsEnd() <==> at == m)
        invariant !thrown && out == Hits(heap, conds, rids, n, at)
        invariant at != m ==> at < |rids| && rid == rids[at] && Hit(heap, conds, rid)
        decreases m - at
      {
        out := out + [rid];
        Read(ih, scan, at, m);
        scan.Next(at);
        Stepped(ih, scan, at + 1, m);
        ghost var next;
        thrown, next := FindNextValid(scan, at + 1, m);
        HitsNext(heap, conds, rids, n, at, next);
        at := next;
        AtEnd(ih, scan, at, m);
      }
      HitsAnswer(heap, conds, ixCols, cols, keys, rids, r, p, n, m);
    }
  }

  lemma RangeSizes(r: Range, cols: seq<Column>)
    requires InDomain(r.low, cols) && InDomain(r.high, cols)
    ensures |r.low| == |r.high| == |cols|
  {
  }

  lemma IntroSpans(cols: seq<Column>, r: Range, keys: seq<Key>, n: nat, m: nat)
    requires |r.low| == |r.high| == |cols|
    requires Cuts(keys, n, Code(r.low, cols), !r.lowInc) && Cuts(keys, m, Code(r.high, cols), r.highInc)
    ensures Spans(cols, r, keys, n, m)
  {
    hide Cuts;
  }

  lemma EndBound(ih: IxIndexHandle, end: Iid, m: nat)
    requires ih.Valid() && Points(ih.t, ih.leaves, end, m)
    ensures m <= |Keys(ih.t, ih.leaves)| == |Rids(ih.t, ih.leaves)|
  {
    hide Whole, Points, Keys, Rids;
    PlaceRead(ih.pages, ih.t, ih.rootPage, ih.numPages, ih.nextPageNo, ih.MaxSize(), ih.leaves, ih.contents, end, m);
  }

  // The list ran out: then the range was crossed, for its end would have stopped the scan.
  lemma CrossedIfThrown(heap: Table, conds: seq<Cond>, rids: seq<Rid>, n: nat, m: nat, at: nat)
    requires n <= at == |rids| && at != m && m <= |rids| && (n <= m ==> at <= m)
    ensures n > m
  {
  }

  // No place of a crossed range matches, so it cannot have stopped at one.
  lemma NotCrossed(heap: Table, conds: seq<Cond>, ixCols: seq<nat>, cols: seq<Column>, keys: seq<Key>, rids: seq<Rid>,
          r: Range, p: nat, n: nat, m: nat, at: nat)
    requires Listing(heap, ixCols, cols, keys, rids) && Shaped(heap, conds, ixCols, cols)
      && Derived(conds, ixCols, cols, r, p)
    requires InDomain(r.low, cols) && InDomain(r.high, cols) && Spans(cols, r, keys, n, m)
    requires n <= at && (at == m || (at < |rids| && Hit(heap, conds, rids[at])))
    ensures n <= m
  {
    hide *;
    if at != m {
      SameLength(heap, ixCols, cols, keys, rids);
      HitInRange(heap, conds, ixCols, cols, keys, rids, r, p, n, m, at);
    }
  }

  lemma SameLength(heap: Table, ixCols: seq<nat>, cols: seq<Column>, keys: seq<Key>, rids: seq<Rid>)
    requires Listing(heap, ixCols, cols, keys, rids)
    ensures |keys| == |rids|
  {
  }

  // The matching records at the places from a up to b, in order.
  ghost function Hits(heap: Table, conds: seq<Cond>, rids: seq<Rid>, a: nat, b: nat): seq<Rid>
    requires a <= b <= |rids|
    decreases b - a
  {
    if a == b then [] else Hits(heap, conds, rids, a, b - 1) + if Hit(heap, conds, rids[b - 1]) then [rids[b - 1]]
      else []
  }

  lemma {:induction false} HitsMissed(heap: Table, conds: seq<Cond>, rids: seq<Rid>, a: nat, b: nat)
    requires a <= b <= |rids| && Missed(heap, conds, rids, a, b)
    ensures Hits(heap, conds, rids, a, b) == []
    decreases b - a
  {
    if a < b {
      HitsMissed(heap, conds, rids, a, b - 1);
    }
  }

  lemma {:induction false} HitsNext(heap: Table, conds: seq<Cond>, rids: seq<Rid>, a: nat, at: nat, next: nat)
    requires a <= at < next <= |rids| && Hit(heap, conds, rids[at]) && Missed(heap, conds, rids, at + 1, next)
    ensures Hits(heap, conds, rids, a, next) == Hits(heap, conds, rids, a, at) + [rids[at]]
    decreases next
  {
    if next > at + 1 {
      HitsNext(heap, conds, rids, a, at, next - 1);
    }
  }

  ghost predicate InKeyOrder(out: seq<Rid>, heap: Table, ixCols: seq<nat>, cols: seq<Column>) {
    && (forall i :: 0 <= i < |out| ==> out[i] in heap && |KeyOr(heap, ixCols, out[i])| == |cols|)
    && (forall i, j :: 0 <= i < j < |out| ==>
      Code(KeyOr(heap, ixCols, out[i]), cols) < Code(KeyOr(heap, ixCols, out[j]), cols))
  }

  // The key of a record of the table.
  ghost function KeyOr(heap: Table, ixCols: seq<nat>, rid: Rid): Tuple {
    if rid in heap && forall j :: 0 <= j < |ixCols| ==> ixCols[j] < |heap[rid]| then KeyOf(heap[rid], ixCols) else []
  }

  // Each of the collected records stands at a matching place, later ones at later places.
  lemma {:induction false} HitsPlaced(heap: Table, conds: seq<Cond>, rids: seq<Rid>, a: nat, b: nat)
    returns (at: seq<int>)
    requires a <= b <= |rids|
    ensures |at| == |Hits(heap, conds, rids, a, b)|
    ensures forall i :: 0 <= i < |at| ==>
      a <= at[i] < b && Hits(heap, conds, rids, a, b)[i] == rids[at[i]] && Hit(heap, conds, rids[at[i]])
    ensures forall i, j :: 0 <= i < j < |at| ==> at[i] < at[j]
    ensures forall x :: a <= x < b && Hit(heap, conds, rids[x]) ==> x in at
    decreases b - a
  {
    if a == b {
      at := [];
    } else {
      at := HitsPlaced(heap, conds, rids, a, b - 1);
      if Hit(heap, conds, rids[b - 1]) {
        at := at + [b - 1];
      }
    }
  }

  lemma HitsAnswer(heap: Table, conds: seq<Cond>, ixCols: seq<nat>, cols: seq<Column>, keys: seq<Key>, rids: seq<Rid>,
          r: Range, p: nat, n: nat, m: nat)
    requires n <= m <= |rids|
    requires Listing(heap, ixCols, cols, keys, rids) && Shaped(heap, conds, ixCols, cols)
      && Derived(conds, ixCols, cols, r, p)
    requires InDomain(r.low, cols) && InDomain(r.high, cols) && Spans(cols, r, keys, n, m)
    ensures Answers(Hits(heap, conds, rids, n, m), heap, conds)
      && InKeyOrder(Hits(heap, conds, rids, n, m), heap, ixCols, cols)
  {
    var out := Hits(heap, conds, rids, n, m);
    hide *;
    HitsOrdered(heap, conds, ixCols, cols, keys, rids, n, m);
    forall rid | Hit(heap, conds, rid) ensures rid in out {
      HitsComplete(heap, conds, ixCols, cols, keys, rids, r, p, n, m, rid);
    }
    IntroAnswers(out, heap, conds);
  }

  lemma IntroAnswers(out: seq<Rid>, heap: Table, conds: seq<Cond>)
    requires forall i, j :: 0 <= i < j < |out| ==> out[i] != out[j]
    requires (forall rid :: rid in out ==> Hit(heap, conds, rid)) && forall rid :: Hit(heap, conds, rid) ==> rid in out
    ensures Answers(out, heap, conds)
  {
    hide Hit;
  }

  lemma HitsComplete(heap: Table, conds: seq<Cond>, ixCols: seq<nat>, cols: seq<Column>, keys: seq<Key>,
          rids: seq<Rid>, r: Range, p: nat, n: nat, m: nat, rid: Rid)
    requires n <= m <= |rids|
    requires Listing(heap, ixCols, cols, keys, rids) && Shaped(heap, conds, ixCols, cols)
      && Derived(conds, ixCols, cols, r, p)
    requires InDomain(r.low, cols) && InDomain(r.high, cols) && Spans(cols, r, keys, n, m)
    requires Hit(heap, conds, rid)
    ensures rid in Hits(heap, conds, rids, n, m)
  {
    hide Hits, Shaped, Derived, InDomain, Spans, HasKey, Ascending;
    HitIn(heap, conds, rid);
    hide Hit;
    var i :| 0 <= i < |rids| && rids[i] == rid;
    HitInRange(heap, conds, ixCols, cols, keys, rids, r, p, n, m, i);
    var at := HitsPlaced(heap, conds, rids, n, m);
    var o :| 0 <= o < |at| && at[o] == i;
    assert Hits(heap, conds, rids, n, m)[o] == rid;
  }

  lemma HitsOrdered(heap: Table, conds: seq<Cond>, ixCols: seq<nat>, cols: seq<Column>, keys: seq<Key>, rids: seq<Rid>,
          n: nat, m: nat)
    requires n <= m <= |rids| && Listing(heap, ixCols, cols, keys, rids)
    ensures InKeyOrder(Hits(heap, conds, rids, n, m), heap, ixCols, cols)
    ensures var out := Hits(heap, conds, rids, n, m);
            (forall i, j :: 0 <= i < j < |out| ==> out[i] != out[j])
              && forall rid :: rid in out ==> Hit(heap, conds, rid)
  {
    hide Hits, Hit;
    var out := Hits(heap, conds, rids, n, m);
    var at := HitsPlaced(heap, conds, rids, n, m);
    forall i | 0 <= i < |out| ensures out[i] in heap && |KeyOr(heap, ixCols, out[i])| == |cols|
      && Code(KeyOr(heap, ixCols, out[i]), cols) == keys[at[i]] {
      assert HasKey(heap, ixCols, cols, rids[at[i]], keys[at[i]]);
    }
    hide KeyOr, Code, HasKey;
    forall i, j | 0 <= i < j < |out| ensures out[i] != out[j]
      && Code(KeyOr(heap, ixCols, out[i]), cols) < Code(KeyOr(heap, ixCols, out[j]), cols) {
      assert keys[at[i]] < keys[at[j]];
    }
  }

  // Where the ends of the range are in order, the scan succeeds.
  lemma InOrderSucceeds(heap: Table, ixCols: seq<nat>, r: Range)
    requires |r.low| == |r.high| == |ixCols|
    requires Below(r.low, r.high) || (r.low == r.high && (r.lowInc || r.highInc))
    ensures !exists rid :: Stray(heap, ixCols, r, rid)
  {
    forall rid | rid in heap && forall j :: 0 <= j < |ixCols| ==> ixCols[j] < |heap[rid]| ensures !Stray(heap, ixCols,
      r, rid) {
      NoKeyOutsideBoth(r, KeyOf(heap[rid], ixCols));
    }
  }

  // a > 7 AND a < 3 over a table with the value 5: nothing matches, and whatever range is derived, the record is
  // on the wrong side of both of its ends.
  lemma CrossedRangeThrows(conds: seq<Cond>, cols: seq<Column>, heap: Table)
    requires conds == [Cond(0, OpGt, true, 7, 0), Cond(0, OpLt, true, 3, 0)]
    requires cols == [Column(-0x8000_0000, 0x7fff_ffff)] && heap == map[Rid(1, 0) := [5]]
    ensures forall rid :: !Hit(heap, conds, rid)
    ensures forall r, p: nat :: Derived(conds, [0], cols, r, p) ==> exists rid :: Stray(heap, [0], r, rid)
  {
    var r := Range([7], [3], false, false);
    assert IsLast(conds, 2, 0, 0, Lower) && IsLast(conds, 2, 1, 0, Upper);
    assert Bounded(conds, 0, cols[0], r, 0, Bound(7, false), Bound(3, false));
    var k := KeyOf(heap[Rid(1, 0)], [0]);
    assert k == [5];
    FirstDifference([7], k, 0);
    FirstDifference(k, [3], 0);
    assert !Satisfies([5], conds[0]);
    assert Derived(conds, [0], cols, r, 0) && Stray(heap, [0], r, Rid(1, 0));
    hide Derived, Stray;
    forall r', p': nat | Derived(conds, [0], cols, r', p') ensures exists rid :: Stray(heap, [0], r', rid) {
      DerivedOnce(conds, [0], cols, r, r', 0, p');
    }
  }

  // So the scan throws, although it should find nothing.
  method RunCrossed(scan: IndexScanExecutor) returns (thrown: bool)
    requires Ready(scan.ih, scan.heap, scan.conds, scan.ixCols, scan.cols)
    requires scan.conds == [Cond(0, OpGt, true, 7, 0), Cond(0, OpLt, true, 3, 0)] && scan.ixCols == [0]
    requires scan.cols == [Column(-0x8000_0000, 0x7fff_ffff)] && scan.heap == map[Rid(1, 0) := [5]]
    modifies scan
    ensures thrown && forall rid :: !Hit(scan.heap, scan.conds, rid)
  {
    CrossedRangeThrows(scan.conds, scan.cols, scan.heap);
    hide Ready, Derived, Stray, Hit;
    ghost var r, p;
    var out;
    thrown, out, r, p := scan.Run();
  }

  lemma NoneMissed(heap: Table, conds: seq<Cond>, rids: seq<Rid>, n: nat)
    ensures Missed(heap, conds, rids, n, n)
  {
  }

  lemma OneMissed(heap: Table, conds: seq<Cond>, rids: seq<Rid>, n: nat, n': nat)
    requires Missed(heap, conds, rids, n, n') && n' < |rids| && !Hit(heap, conds, rids[n'])
    ensures Missed(heap, conds, rids, n, n' + 1)
  {
  }

  lemma Read(ih: IxIndexHandle, scan: IxScan, n: nat, m: nat)
    requires Standing(ih, scan, n, m)
    ensures scan.ih == ih && Points(ih.t, ih.leaves, scan.iid, n) && Points(ih.t, ih.leaves, scan.end, m)
  {
    hide Points;
  }

  lemma Stepped(ih: IxIndexHandle, scan: IxScan, n: nat, m: nat)
    requires scan.ih == ih && Points(ih.t, ih.leaves, scan.iid, n) && Points(ih.t, ih.leaves, scan.end, m)
    ensures Standing(ih, scan, n, m)
  {
    hide Points;
  }
}
