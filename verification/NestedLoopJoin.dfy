/** The block nested-loop join: pairs of rows that match, block by block of the left input. */
module NestedLoopJoin {

  datatype Option<T> = None | Some(value: T)

  const BUFFER_SIZE := 50 * 1024 * 1024

  // How many of the n rows left go into a block that already holds some bytes.
  function Fill(n: nat, rowLen: nat, bytes: nat): (k: nat)
    ensures k <= n && (n > 0 ==> k > 0)
  {
    if n == 0 then 0
    else if bytes + rowLen >= BUFFER_SIZE then 1
    else 1 + Fill(n - 1, rowLen, bytes + rowLen)
  }

  // A block ends with the row that fills the buffer, or with the last row there is.
  lemma {:induction false} FillsUp(n: nat, rowLen: nat, bytes: nat)
    requires n > 0 && bytes < BUFFER_SIZE
    ensures var k := Fill(n, rowLen, bytes);
      && bytes + (k - 1) * rowLen < BUFFER_SIZE
      && (k < n ==> bytes + k * rowLen >= BUFFER_SIZE)
  {
    if n > 1 && bytes + rowLen < BUFFER_SIZE {
      FillsUp(n - 1, rowLen, bytes + rowLen);
      var k := Fill(n - 1, rowLen, bytes + rowLen);
      assert (k - 1) * rowLen + rowLen == k * rowLen && k * rowLen + rowLen == (k + 1) * rowLen;
    }
  }

  // The matches of one right row among the first n rows of the block, last first.
  function OneRight<L, R>(block: seq<L>, r: R, n: nat, matches: (L, R) -> bool): seq<(L, R)>
    requires n <= |block|
  {
    if n == 0 then []
    else (if matches(block[n - 1], r) then [(block[n - 1], r)] else []) + OneRight(block, r, n - 1, matches)
  }

  // Those of the rows from m on come before those of the first m.
  lemma {:induction false} BackFirst<L, R>(block: seq<L>, r: R, m: nat, n: nat, matches: (L, R) -> bool)
    requires m <= n <= |block|
    ensures OneRight(block, r, n, matches) == OneRight(block[m..], r, n - m, matches) + OneRight(block, r, m, matches)
  {
    if m < n {
      BackFirst(block, r, m, n - 1, matches);
      assert block[m..][n - 1 - m] == block[n - 1];
    }
  }

  // All matches of a block, right row by right row.
  function OneBlock<L, R>(block: seq<L>, rights: seq<R>, matches: (L, R) -> bool): seq<(L, R)> {
    if rights == [] then []
    else OneRight(block, rights[0], |block|, matches) + OneBlock(block, rights[1..], matches)
  }

  // All matches, block by block.
  function Joined<L, R>(lefts: seq<L>, rights: seq<R>, rowLen: nat, matches: (L, R) -> bool): seq<(L, R)>
    decreases |lefts|
  {
    if lefts == [] then []
    else
      var k := Fill(|lefts|, rowLen, 0);
      OneBlock(lefts[..k], rights, matches) + Joined(lefts[k..], rights, rowLen, matches)
  }

  // ---------------------------------------------------------------- every match, as often as it occurs

  // How often an element occurs.
  ghost function Count<T>(s: seq<T>, x: T): nat {
    multiset(s)[x]
  }

  lemma CountConcat<T>(a: seq<T>, b: seq<T>, x: T)
    ensures Count(a + b, x) == Count(a, x) + Count(b, x)
    ensures Count<T>([], x) == 0
  {
  }

  lemma CountOne<T>(y: T, x: T)
    ensures Count([y], x) == if x == y then 1 else 0
  {
  }

  lemma {:induction false} OneRightCount<L, R>(block: seq<L>, r: R, n: nat, matches: (L, R) -> bool, x: L, y: R)
    requires n <= |block|
    ensures Count(OneRight(block, r, n, matches), (x, y)) == if r == y && matches(x, y) then Count(block[..n], x) else 0
  {
    hide Count;
    if n == 0 {
      CountConcat<(L, R)>([], [], (x, y));
      CountConcat<L>([], [], x);
      assert block[..n] == [];
    } else {
      var l := block[n - 1];
      var here := if matches(l, r) then [(l, r)] else [];
      OneRightCount(block, r, n - 1, matches, x, y);
      CountConcat(here, OneRight(block, r, n - 1, matches), (x, y));
      CountConcat(block[..n - 1], [l], x);
      CountOne((l, r), (x, y));
      CountOne(l, x);
      assert block[..n] == block[..n - 1] + [l];
    }
  }

  lemma Distribute(a: int, b: int, c: int)
    ensures a * (b + c) == a * b + a * c && (b + c) * a == b * a + c * a
  {
  }

  // How often a matching pair occurs in the product.
  function Times(b: bool, m: nat, n: nat): nat {
    if b then m * n else 0
  }

  lemma TimesSum(b: bool, m: nat, n1: nat, n2: nat)
    ensures Times(b, m, n1) + Times(b, m, n2) == Times(b, m, n1 + n2)
    ensures Times(b, n1, m) + Times(b, n2, m) == Times(b, n1 + n2, m)
    ensures Times(b, m, 0) == 0 && Times(b, 0, m) == 0 && Times(b, m, 1) == if b then m else 0
  {
    Distribute(m, n1, n2);
  }

  lemma {:induction false} OneBlockCount<L, R>(block: seq<L>, rights: seq<R>, matches: (L, R) -> bool, x: L, y: R)
    ensures Count(OneBlock(block, rights, matches), (x, y)) == Times(matches(x, y), Count(block, x), Count(rights, y))
  {
    hide Count, Times, OneRight;
    if rights == [] {
      CountConcat<(L, R)>([], [], (x, y));
      CountConcat<R>([], [], y);
      TimesSum(matches(x, y), Count(block, x), 0, 0);
    } else {
      var here, later := OneRight(block, rights[0], |block|, matches), OneBlock(block, rights[1..], matches);
      OneRightCount(block, rights[0], |block|, matches, x, y);
      assert block[..|block|] == block && rights == [rights[0]] + rights[1..];
      OneBlockCount(block, rights[1..], matches, x, y);
      CountConcat(here, later, (x, y));
      CountConcat([rights[0]], rights[1..], y);
      CountOne(rights[0], y);
      TimesSum(matches(x, y), Count(block, x), Count([rights[0]], y), Count(rights[1..], y));
      TimesSum(matches(x, y), Count(block, x), 0, 0);
    }
  }

  /**
   Whatever the block size, the join yields a pair as many times as the product of its inputs has it
   if the pair matches, and not at all otherwise.
   */
  lemma {:induction false} JoinedCount<L, R>(lefts: seq<L>, rights: seq<R>, rowLen: nat, matches: (L, R) -> bool, x: L,
          y: R)
    ensures Count(Joined(lefts, rights, rowLen, matches), (x, y)) == Times(matches(x, y), Count(lefts, x),
      Count(rights, y))
    decreases |lefts|
  {
    hide Count, Times, OneBlock;
    if lefts == [] {
      CountConcat<(L, R)>([], [], (x, y));
      CountConcat<L>([], [], x);
      TimesSum(matches(x, y), Count(rights, y), 0, 0);
    } else {
      var k := Fill(|lefts|, rowLen, 0);
      OneBlockCount(lefts[..k], rights, matches, x, y);
      JoinedCount(lefts[k..], rights, rowLen, matches, x, y);
      CountConcat(OneBlock(lefts[..k], rights, matches), Joined(lefts[k..], rights, rowLen, matches), (x, y));
      CountConcat(lefts[..k], lefts[k..], x);
      assert lefts == lefts[..k] + lefts[k..];
      TimesSum(matches(x, y), Count(rights, y), Count(lefts[..k], x), Count(lefts[k..], x));
    }
  }

  lemma {:induction false} NothingRight<L, R>(lefts: seq<L>, rowLen: nat, matches: (L, R) -> bool)
    ensures Joined(lefts, [], rowLen, matches) == []
    decreases |lefts|
  {
    if lefts != [] {
      NothingRight(lefts[Fill(|lefts|, rowLen, 0)..], rowLen, matches);
    }
  }

  lemma NothingLeft<L, R>(lefts: seq<L>, rights: seq<R>, rowLen: nat, matches: (L, R) -> bool)
    ensures lefts == [] ==> Joined(lefts, rights, rowLen, matches) == []
  {
  }

  // ---------------------------------------------------------------- the executor

  // The matches from a left position and a right position of the block on, and those of the later blocks.
  ghost function From<L, R>(block: seq<L>, p: int, rights: seq<R>, q: int, lefts: seq<L>, rowLen: nat, matches: (L,
          R) -> bool): seq<(L, R)>
    requires -1 <= p < |block| && 0 <= q < |rights|
  {
    OneRight(block, rights[q], p + 1, matches) + OneBlock(block, rights[q + 1..], matches) + Joined(lefts, rights,
      rowLen, matches)
  }

  lemma FromLeft<L, R>(block: seq<L>, p: int, rights: seq<R>, q: int, lefts: seq<L>, rowLen: nat, matches: (L,
          R) -> bool)
    requires 0 <= p < |block| && 0 <= q < |rights|
    ensures From(block, p, rights, q, lefts, rowLen, matches)
         == (if matches(block[p], rights[q]) then [(block[p], rights[q])]
           else []) + From(block, p - 1, rights, q, lefts, rowLen, matches)
  {
    var here := if matches(block[p], rights[q]) then [(block[p], rights[q])] else [];
    var row, later, blocks := OneRight(block, rights[q], p, matches), OneBlock(block, rights[q + 1..],
      matches), Joined(lefts, rights, rowLen, matches);
    hide OneBlock, Joined;
    assert here + row + later + blocks == here + (row + later + blocks);
  }

  lemma FromRight<L, R>(block: seq<L>, rights: seq<R>, q: int, lefts: seq<L>, rowLen: nat, matches: (L, R) -> bool)
    requires 0 <= q < |rights|
    ensures From(block, -1, rights, q, lefts, rowLen, matches)
         == if q + 1 < |rights| then From(block, |block| - 1, rights, q + 1, lefts, rowLen, matches)
           else Joined(lefts, rights, rowLen, matches)
  {
    assert OneRight(block, rights[q], 0, matches) == [];
    hide Joined, OneRight;
    if q + 1 < |rights| {
      assert rights[q + 1..][1..] == rights[q + 2..];
    }
  }

  lemma FromBlock<L, R>(rights: seq<R>, lefts: seq<L>, rowLen: nat, matches: (L, R) -> bool)
    requires lefts != [] && rights != []
    ensures var k := Fill(|lefts|, rowLen, 0);
      Joined(lefts, rights, rowLen, matches) == From(lefts[..k], k - 1, rights, 0, lefts[k..], rowLen, matches)
  {
    hide OneRight;
  }

  // The inputs are the rows that the child executors yield, each with the position of its cursor.
  class NestedLoopJoinExecutor<L, R> {
    const leftRows: seq<L>
    const rightRows: seq<R>
    const rowLen: nat
    const matches: (L, R) -> bool

    var leftAt: nat
    var rightAt: nat
    var buffer: seq<L>
    var leftPos: int
    var rightRec: Option<R>
    var isEnd: bool

    constructor (leftRows: seq<L>, rightRows: seq<R>, rowLen: nat, matches: (L, R) -> bool)
      ensures this.leftRows == leftRows && this.rightRows == rightRows && this.rowLen == rowLen
        && this.matches == matches
    {
      this.leftRows, this.rightRows, this.rowLen, this.matches := leftRows, rightRows, rowLen, matches;
      leftAt, rightAt, buffer, leftPos, rightRec, isEnd := 0, 0, [], -1, None, false;
    }

    // The current block and the current right row are in place.
    ghost predicate Loaded()
      reads this
    {
      && leftAt <= |leftRows| && rightAt < |rightRows| && rightRec == Some(rightRows[rightAt])
      && -1 <= leftPos < |buffer|
    }

    // Standing on a match, or at the end.
    ghost predicate Valid()
      reads this
    {
      isEnd || (Loaded() && leftPos >= 0 && matches(buffer[leftPos], rightRows[rightAt]))
    }

    // The pairs from the current position on.
    ghost function Ahead(): seq<(L, R)>
      requires Loaded()
      reads this
    {
      From(buffer, leftPos, rightRows, rightAt, leftRows[leftAt..], rowLen, matches)
    }

    // The pairs still to come, the current one first.
    ghost function Rest(): seq<(L, R)>
      requires Valid()
      reads this
    {
      if isEnd then [] else Ahead()
    }

    method LoadNextLeftBlock()
      requires leftAt <= |leftRows|
      modifies this
      ensures leftAt == old(leftAt) + Fill(|leftRows| - old(leftAt), rowLen, 0) && leftAt <= |leftRows|
      ensures buffer == leftRows[old(leftAt)..leftAt]
      ensures rightAt == old(rightAt) && leftPos == old(leftPos) && rightRec == old(rightRec) && isEnd == old(isEnd)
    {
      buffer := [];
      var bytes: nat := 0;
      while leftAt < |leftRows|
        invariant old(leftAt) <= leftAt <= |leftRows| && buffer == leftRows[old(leftAt)..leftAt]
        invariant rightAt == old(rightAt) && leftPos == old(leftPos) && rightRec == old(rightRec) && isEnd == old(isEnd)
        invariant Fill(|leftRows| - old(leftAt), rowLen, 0) == leftAt - old(leftAt) + Fill(|leftRows| - leftAt, rowLen,
          bytes)
      {
        buffer := buffer + [leftRows[leftAt]];
        bytes := bytes + rowLen;
        leftAt := leftAt + 1;
        if bytes >= BUFFER_SIZE {
          break;
        }
      }
    }

    // From the current position to the next match.
    method FindMatch()
      requires Loaded() && !isEnd
      modifies this
      ensures Valid() && Rest() == old(Ahead())
    {
      hide From, Joined, OneBlock, OneRight, Fill;
      ghost var ahead := Ahead();
      while true
        invariant Loaded() && !isEnd && Ahead() == ahead
        decreases |leftRows| - leftAt, |rightRows| - rightAt, leftPos + 1
      {
        ghost var block, row, rows := leftAt, rightAt, buffer;
        while leftPos >= 0
          invariant Loaded() && !isEnd && Ahead() == ahead
          invariant leftAt == block && rightAt == row && buffer == rows
        {
          if matches(buffer[leftPos], rightRec.value) {
            return;
          }
          FromLeft(buffer, leftPos, rightRows, rightAt, leftRows[leftAt..], rowLen, matches);
          leftPos := leftPos - 1;
        }
        FromRight(buffer, rightRows, rightAt, leftRows[leftAt..], rowLen, matches);
        rightAt := rightAt + 1;
        if rightAt == |rightRows| {
          ghost var lefts := leftRows[leftAt..];
          LoadNextLeftBlock();
          if buffer == [] {
            assert lefts == [] && Joined(lefts, rightRows, rowLen, matches) == [] by {
              NothingLeft(lefts, rightRows, rowLen, matches);
            }
            isEnd := true;
            return;
          }
          FromBlock(rightRows, lefts, rowLen, matches);
          assert lefts[..|buffer|] == buffer && lefts[|buffer|..] == leftRows[leftAt..];
          rightAt := 0;
        }
        rightRec := Some(rightRows[rightAt]);
        leftPos := |buffer| - 1;
      }
    }

    method BeginTuple()
      modifies this
      ensures Valid() && Rest() == Joined(leftRows, rightRows, rowLen, matches)
    {
      isEnd, leftAt := false, 0;
      LoadNextLeftBlock();
      if buffer == [] {
        isEnd := true;
        return;
      }
      rightAt := 0;
      if rightAt == |rightRows| {
        NothingRight<L, R>(leftRows, rowLen, matches);
        isEnd := true;
        return;
      }
      rightRec := Some(rightRows[rightAt]);
      leftPos := |buffer| - 1;
      FromBlock(rightRows, leftRows, rowLen, matches);
      FindMatch();
    }

    method NextTuple()
      requires Valid() && !isEnd
      modifies this
      ensures Valid() && Rest() == old(Rest())[1..]
    {
      FromLeft(buffer, leftPos, rightRows, rightAt, leftRows[leftAt..], rowLen, matches);
      leftPos := leftPos - 1;
      FindMatch();
    }

    method Next() returns (pair: (L, R))
      requires Valid() && !isEnd
      ensures Rest() != [] && pair == Rest()[0]
    {
      FromLeft(buffer, leftPos, rightRows, rightAt, leftRows[leftAt..], rowLen, matches);
      pair := (buffer[leftPos], rightRec.value);
    }

    // Drains the join.
    method Run() returns (out: seq<(L, R)>)
      modifies this
      ensures out == Joined(leftRows, rightRows, rowLen, matches)
    {
      hide From, Joined;
      out := [];
      BeginTuple();
      ghost var rest := Rest();
      while !isEnd
        invariant Valid() && rest == Rest() && out + rest == Joined(leftRows, rightRows, rowLen, matches)
        decreases |rest|
      {
        var pair := Next();
        NextTuple();
        out, rest := out + [pair], rest[1..];
      }
    }
  }
}
