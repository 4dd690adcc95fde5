/** The byte form of log records: header, values, table name; and the loop that reads a log file back. */
module LogCodec {
  import opened Arithmetic

  type Byte = b: int | 0 <= b < 256

  type Bytes = seq<Byte>

  // ---------------------------------------------------------------- integers

  function Pow256(n: nat): (p: int)
    ensures p > 0
  {
    if n == 0 then 1 else 256 * Pow256(n - 1)
  }

  // The n low bytes of v, least significant first; negative numbers in two's complement.
  function EncInt(n: nat, v: int): (bs: Bytes)
    ensures |bs| == n
  {
    if n == 0 then [] else [v % 256] + EncInt(n - 1, v / 256)
  }

  // Byte k of an integer is its digit of weight 256 to the k.
  lemma {:induction false} LowByteFirst(n: nat, v: int, k: nat)
    requires k < n
    ensures EncInt(n, v)[k] == v / Pow256(k) % 256
  {
    if k > 0 {
      LowByteFirst(n - 1, v / 256, k - 1);
      DivDiv(v, Pow256(k - 1));
    }
  }

  lemma DivDiv(v: int, p: int)
    requires p > 0
    ensures v / 256 / p == v / (256 * p)
  {
    var q, r := v / 256, v % 256;
    var a, b := q / p, q % p;
    assert v == 256 * (a * p + b) + r && 256 * (a * p) == a * (256 * p);
    QuotientIs(v, 256 * p, a, 256 * b + r);
  }

  lemma QuotientIs(v: int, d: int, q: int, r: int)
    requires d > 0 && v == q * d + r && 0 <= r < d
    ensures v / d == q
  {
    var q', r' := v / d, v % d;
    assert q' * d + r' == q * d + r;
    if q' < q {
      MulMono(q' + 1, q, d);
    } else if q < q' {
      MulMono(q + 1, q', d);
    }
  }

  function DecNat(bs: Bytes): int {
    if bs == [] then 0 else bs[0] + 256 * DecNat(bs[1..])
  }

  function DecInt(bs: Bytes): int {
    var v := DecNat(bs);
    if bs != [] && 2 * v >= Pow256(|bs|) then v - Pow256(|bs|) else v
  }

  predicate FitsIn(n: nat, v: int) {
    n > 0 && -Pow256(n) <= 2 * v < Pow256(n)
  }

  lemma OneMoreByte(v: int, q: int, p: int, d: int)
    requires v / 256 == q * p + d
    ensures v == q * (256 * p) + (v % 256 + 256 * d)
  {
    assert 256 * (q * p) == q * (256 * p);
  }

  lemma {:induction false} DecNatEnc(n: nat, v: int)
    ensures exists q :: v == q * Pow256(n) + DecNat(EncInt(n, v)) && 0 <= DecNat(EncInt(n, v)) < Pow256(n)
  {
    if n == 0 {
      assert v == v * Pow256(0) + DecNat(EncInt(0, v));
    } else {
      DecNatEnc(n - 1, v / 256);
      var d, p := DecNat(EncInt(n - 1, v / 256)), Pow256(n - 1);
      var q :| v / 256 == q * p + d && 0 <= d < p;
      assert EncInt(n, v)[1..] == EncInt(n - 1, v / 256);
      assert DecNat(EncInt(n, v)) == v % 256 + 256 * d;
      OneMoreByte(v, q, p, d);
      assert v == q * Pow256(n) + DecNat(EncInt(n, v));
    }
  }

  // An integer survives the round trip through its bytes.
  lemma IntRoundTrip(n: nat, v: int)
    requires FitsIn(n, v)
    ensures DecInt(EncInt(n, v)) == v
  {
    DecNatEnc(n, v);
    var u, p := DecNat(EncInt(n, v)), Pow256(n);
    var q :| v == q * p + u && 0 <= u < p;
    QuotientSmall(q, p, u, v);
  }

  lemma QuotientSmall(q: int, p: int, u: int, v: int)
    requires v == q * p + u && 0 <= u < p && -p <= 2 * v < p
    ensures q == 0 || q == -1
    ensures q == 0 ==> 2 * u < p
    ensures q == -1 ==> 2 * u >= p && v == u - p
  {
    if q >= 1 {
      MulMono(1, q, p);
    } else if q <= -2 {
      MulMono(q, -2, p);
    }
  }

  // ---------------------------------------------------------------- records

  datatype Body =
    | NoBody
    | OneValue(val: Bytes, page: int, slot: int, tab: Bytes)
    | TwoValues(before: Bytes, after: Bytes, page: int, slot: int, tab: Bytes)

  // kind: UPDATE 0, INSERT 1, DELETE 2, begin 3, commit 4, ABORT 5.
  datatype Rec = Rec(kind: int, lsn: int, tid: int, prev: int, body: Body)

  const OFFSET_LSN := 4
  const OFFSET_LOG_TOT_LEN := 8
  const OFFSET_LOG_TID := 12
  const OFFSET_PREV_LSN := 20
  const LOG_HEADER_SIZE := 24

  function EncValue(val: Bytes): Bytes {
    EncInt(4, |val|) + val
  }

  function EncPlace(page: int, slot: int, tab: Bytes): Bytes {
    EncInt(4, page) + EncInt(4, slot) + EncInt(8, |tab|) + tab
  }

  function EncBody(body: Body): Bytes {
    match body
    case NoBody => []
    case OneValue(val, page, slot, tab) => EncValue(val) + EncPlace(page, slot, tab)
    case TwoValues(before, after, page, slot, tab) => EncValue(before) + EncValue(after) + EncPlace(page, slot, tab)
  }

  function TotLen(r: Rec): nat {
    LOG_HEADER_SIZE + |EncBody(r.body)|
  }

  function Encode(r: Rec): (bs: Bytes)
    ensures |bs| == TotLen(r)
  {
    EncInt(4, r.kind) + EncInt(4, r.lsn) + EncInt(4, TotLen(r)) + EncInt(8, r.tid) + EncInt(4, r.prev) + EncBody(r.body)
  }

  ghost predicate FitsPlace(page: int, slot: int, tab: Bytes) {
    FitsIn(4, page) && FitsIn(4, slot) && FitsIn(8, |tab|)
  }

  ghost predicate Fits(r: Rec) {
    && FitsIn(4, r.lsn) && FitsIn(8, r.tid) && FitsIn(4, r.prev) && FitsIn(4, TotLen(r))
    && match r.body
       case NoBody => 3 <= r.kind <= 5
       case OneValue(val, page, slot, tab) => 1 <= r.kind <= 2 && FitsIn(4, |val|) && FitsPlace(page, slot, tab)
       case TwoValues(before, after, page, slot, tab) =>
          r.kind == 0 && FitsIn(4, |before|) && FitsIn(4, |after|) && FitsPlace(page, slot, tab)
  }

  // Where a record has its numbers, from its first byte on.
  lemma HeaderLayout(r: Rec)
    ensures var bs := Encode(r);
      && bs[..4] == EncInt(4, r.kind) && bs[4..8] == EncInt(4, r.lsn) && bs[8..12] == EncInt(4, |bs|)
      && bs[12..20] == EncInt(8, r.tid) && bs[20..24] == EncInt(4, r.prev) && bs[24..] == EncBody(r.body)
    ensures OFFSET_LSN == 4 && OFFSET_LOG_TOT_LEN == 8 && OFFSET_LOG_TID == 12 && OFFSET_PREV_LSN == 20
      && LOG_HEADER_SIZE == 24
  {
  }

  // And its value, its place and the name of its table behind them.
  lemma BodyLayout(val: Bytes, page: int, slot: int, tab: Bytes)
    ensures var bs, n := EncBody(OneValue(val, page, slot, tab)), |val|;
      && |bs| == n + |tab| + 20 && bs[..4] == EncInt(4, n) && bs[4..n + 4] == val
      && bs[n + 4..n + 8] == EncInt(4, page) && bs[n + 8..n + 12] == EncInt(4, slot)
      && bs[n + 12..n + 20] == EncInt(8, |tab|) && bs[n + 20..] == tab
  {
    hide EncInt;
    var a, b, c, d := EncInt(4, |val|), EncInt(4, page), EncInt(4, slot), EncInt(8, |tab|);
    var bs := EncBody(OneValue(val, page, slot, tab));
    assert bs == a + val + (b + c + d + tab);
    Middle(bs, a, val, b + c + d + tab);
    assert bs[|val| + 4..] == b + c + d + tab;
  }

  function EncodeAll(recs: seq<Rec>): Bytes {
    if recs == [] then [] else Encode(recs[0]) + EncodeAll(recs[1..])
  }

  // ---------------------------------------------------------------- reading back

  function IntAt(data: Bytes, at: nat, n: nat): int
    requires at + n <= |data|
  {
    DecInt(data[at..at + n])
  }

  // The bytes at a position are the encoding of an integer.
  lemma ReadInt(data: Bytes, at: nat, n: nat, v: int)
    requires at + n <= |data| && data[at..at + n] == EncInt(n, v) && FitsIn(n, v)
    ensures IntAt(data, at, n) == v
  {
    IntRoundTrip(n, v);
  }

  // Deserialisation, from the start of a record; None where it would read past the bytes given.
  datatype Read<T> = None | Some(value: T, next: nat)

  function ReadValue(data: Bytes, at: nat): Read<Bytes> {
    if at + 4 > |data| then None else
      var size := IntAt(data, at, 4);
      if size < 0 || at + 4 + size > |data| then None else Some(data[at + 4..at + 4 + size], at + 4 + size)
  }

  function ReadTable(data: Bytes, at: nat): Read<Bytes> {
    if at + 8 > |data| then None else
      var size := IntAt(data, at, 8);
      if size < 0 || at + 8 + size > |data| then None else Some(data[at + 8..at + 8 + size], at + 8 + size)
  }

  function ReadBody(data: Bytes, kind: int): Read<Body> {
    if kind >= 3 then Some(NoBody, LOG_HEADER_SIZE) else
      match ReadValue(data, LOG_HEADER_SIZE)
      case None => None
      case Some(first, at1) =>
        if kind != 0 then
          (if at1 + 8 > |data| then None else
            match ReadTable(data, at1 + 8)
            case None => None
            case Some(tab, end) => Some(OneValue(first, IntAt(data, at1, 4), IntAt(data, at1 + 4, 4), tab), end))
        else
          match ReadValue(data, at1)
          case None => None
          case Some(second, at2) =>
            if at2 + 8 > |data| then None else
              match ReadTable(data, at2 + 8)
              case None => None
              case Some(tab, end) => Some(TwoValues(first, second, IntAt(data, at2, 4), IntAt(data, at2 + 4, 4), tab),
                end)
  }

  // One record from the start of data.
  function Decode(data: Bytes): Read<Rec>
  {
    if |data| < LOG_HEADER_SIZE then None else
      var kind := IntAt(data, 0, 4);
      match ReadBody(data, kind)
      case None => None
      case Some(body, end) => Some(Rec(kind, IntAt(data, OFFSET_LSN, 4), IntAt(data, OFFSET_LOG_TID, 8),
        IntAt(data, OFFSET_PREV_LSN, 4), body), end)
  }

  // ---------------------------------------------------------------- round trips

  // A part in the middle of a byte string.
  lemma Middle(data: Bytes, a: Bytes, b: Bytes, c: Bytes)
    requires data == a + b + c
    ensures |a| + |b| <= |data| && data[|a|..|a| + |b|] == b
  {
  }

  lemma ValueRoundTrip(a: Bytes, val: Bytes, rest: Bytes)
    requires FitsIn(4, |val|)
    ensures ReadValue(a + EncValue(val) + rest, |a|) == Some(val, |a| + 4 + |val|)
  {
    var data, len := a + EncValue(val) + rest, EncInt(4, |val|);
    assert data == a + len + (val + rest);
    Middle(data, a, len, val + rest);
    assert data == (a + len) + val + rest;
    Middle(data, a + len, val, rest);
    ReadInt(data, |a|, 4, |val|);
    hide EncInt, FitsIn, IntAt;
  }

  lemma PlaceRoundTrip(a: Bytes, page: int, slot: int, tab: Bytes, rest: Bytes)
    requires FitsPlace(page, slot, tab)
    ensures var data := a + EncPlace(page, slot, tab) + rest;
            && |a| + 8 <= |data| && IntAt(data, |a|, 4) == page && IntAt(data, |a| + 4, 4) == slot
            && ReadTable(data, |a| + 8) == Some(tab, |a| + 16 + |tab|)
  {
    var data, p, s, n := a + EncPlace(page, slot, tab) + rest, EncInt(4, page), EncInt(4, slot), EncInt(8, |tab|);
    assert data == a + p + (s + n + tab + rest);
    Middle(data, a, p, s + n + tab + rest);
    assert data == (a + p) + s + (n + tab + rest);
    Middle(data, a + p, s, n + tab + rest);
    assert data == (a + p + s) + n + (tab + rest);
    Middle(data, a + p + s, n, tab + rest);
    assert data == (a + p + s + n) + tab + rest;
    Middle(data, a + p + s + n, tab, rest);
    ReadInt(data, |a|, 4, page);
    ReadInt(data, |a| + 4, 4, slot);
    ReadInt(data, |a| + 8, 8, |tab|);
    hide EncInt, FitsIn, IntAt;
  }

  function Header(r: Rec): (bs: Bytes)
    ensures |bs| == LOG_HEADER_SIZE
  {
    EncInt(4, r.kind) + EncInt(4, r.lsn) + EncInt(4, TotLen(r)) + EncInt(8, r.tid) + EncInt(4, r.prev)
  }

  lemma HeaderParts(k: Bytes, l: Bytes, n: Bytes, t: Bytes, p: Bytes, rest: Bytes)
    requires |k| == |l| == |n| == |p| == 4 && |t| == 8
    ensures var data := k + l + n + t + p + rest;
            data[0..4] == k && data[4..8] == l && data[8..12] == n && data[12..20] == t && data[20..24] == p
  {
    var front, back := k + l + n, t + p + rest;
    var data := k + l + n + t + p + rest;
    assert data == front + back;
    assert front[0..4] == k && front[4..8] == l && front[8..12] == n;
    assert back[0..8] == t && back[8..12] == p;
    assert data[0..4] == front[0..4] && data[4..8] == front[4..8] && data[8..12] == front[8..12];
    assert data[12..20] == back[0..8] && data[20..24] == back[8..12];
  }

  lemma KindFits(r: Rec)
    requires Fits(r)
    ensures FitsIn(4, r.kind)
  {
    assert Pow256(1) == 256 * Pow256(0) && Pow256(2) == 256 * Pow256(1);
    assert Pow256(3) == 256 * Pow256(2) && Pow256(4) == 256 * Pow256(3);
  }

  lemma HeaderRead(r: Rec, rest: Bytes)
    requires Fits(r)
    ensures var data := Header(r) + rest;
            && IntAt(data, 0, 4) == r.kind && IntAt(data, OFFSET_LSN, 4) == r.lsn
              && IntAt(data, OFFSET_LOG_TOT_LEN, 4) == TotLen(r)
            && IntAt(data, OFFSET_LOG_TID, 8) == r.tid && IntAt(data, OFFSET_PREV_LSN, 4) == r.prev
  {
    KindFits(r);
    hide EncInt, IntAt, Pow256, FitsIn, EncBody;
    var data := Header(r) + rest;
    var k, l, n, t, p := EncInt(4, r.kind), EncInt(4, r.lsn), EncInt(4, TotLen(r)), EncInt(8, r.tid), EncInt(4, r.prev);
    HeaderParts(k, l, n, t, p, rest);
    ReadInt(data, 0, 4, r.kind);
    ReadInt(data, 4, 4, r.lsn);
    ReadInt(data, 8, 4, TotLen(r));
    ReadInt(data, 12, 8, r.tid);
    ReadInt(data, 20, 4, r.prev);
  }

  lemma OneValueRead(h: Bytes, val: Bytes, page: int, slot: int, tab: Bytes, rest: Bytes, kind: int)
    requires |h| == LOG_HEADER_SIZE && 1 <= kind <= 2 && FitsIn(4, |val|) && FitsPlace(page, slot, tab)
    ensures ReadBody(h + EncValue(val) + EncPlace(page, slot, tab) + rest, kind) == Some(OneValue(val, page, slot, tab),
      LOG_HEADER_SIZE + |EncValue(val)| + |EncPlace(page, slot, tab)|)
  {
    assert |EncValue(val)| == 4 + |val| && |EncPlace(page, slot, tab)| == 16 + |tab|;
    hide EncValue, EncPlace, ReadValue, ReadTable, IntAt, FitsIn;
    var data := h + EncValue(val) + EncPlace(page, slot, tab) + rest;
    assert data == h + EncValue(val) + (EncPlace(page, slot, tab) + rest);
    ValueRoundTrip(h, val, EncPlace(page, slot, tab) + rest);
    PlaceRoundTrip(h + EncValue(val), page, slot, tab, rest);
  }

  lemma TwoValuesRead(h: Bytes, before: Bytes, after: Bytes, page: int, slot: int, tab: Bytes, rest: Bytes)
    requires |h| == LOG_HEADER_SIZE && FitsIn(4, |before|) && FitsIn(4, |after|) && FitsPlace(page, slot, tab)
    ensures ReadBody(h + EncValue(before) + EncValue(after) + EncPlace(page, slot, tab) + rest, 0)
            == Some(TwoValues(before, after, page, slot, tab),
              LOG_HEADER_SIZE + |EncValue(before)| + |EncValue(after)| + |EncPlace(page, slot, tab)|)
  {
    assert |EncValue(before)| == 4 + |before| && |EncValue(after)| == 4 + |after|
      && |EncPlace(page, slot, tab)| == 16 + |tab|;
    hide EncValue, EncPlace, ReadValue, ReadTable, IntAt, FitsIn;
    var data := h + EncValue(before) + EncValue(after) + EncPlace(page, slot, tab) + rest;
    assert data == h + EncValue(before) + (EncValue(after) + EncPlace(page, slot, tab) + rest);
    ValueRoundTrip(h, before, EncValue(after) + EncPlace(page, slot, tab) + rest);
    assert data == (h + EncValue(before)) + EncValue(after) + (EncPlace(page, slot, tab) + rest);
    ValueRoundTrip(h + EncValue(before), after, EncPlace(page, slot, tab) + rest);
    PlaceRoundTrip(h + EncValue(before) + EncValue(after), page, slot, tab, rest);
  }

  lemma BodyRoundTrip(r: Rec, rest: Bytes)
    requires Fits(r)
    ensures ReadBody(Header(r) + EncBody(r.body) + rest, r.kind) == Some(r.body, TotLen(r))
  {
    var h := Header(r);
    var data := h + EncBody(r.body) + rest;
    hide EncValue, EncPlace, FitsIn, FitsPlace, EncInt, ReadValue, ReadTable, IntAt;
    match r.body
    case NoBody =>
    case OneValue(val, page, slot, tab) =>
      assert data == h + EncValue(val) + EncPlace(page, slot, tab) + rest;
      OneValueRead(h, val, page, slot, tab, rest, r.kind);
      hide ReadBody;
    case TwoValues(before, after, page, slot, tab) =>
      assert data == h + EncValue(before) + EncValue(after) + EncPlace(page, slot, tab) + rest;
      TwoValuesRead(h, before, after, page, slot, tab, rest);
      hide ReadBody;
  }

  // A record survives the round trip through its bytes, whatever follows them.
  lemma HeaderAndBody(r: Rec, rest: Bytes)
    ensures Encode(r) + rest == Header(r) + (EncBody(r.body) + rest) == Header(r) + EncBody(r.body) + rest
  {
    hide EncInt, EncBody;
    assert Encode(r) == Header(r) + EncBody(r.body);
    hide Encode, Header;
  }

  lemma RecRoundTrip(r: Rec, rest: Bytes)
    requires Fits(r)
    ensures Decode(Encode(r) + rest) == Some(r, TotLen(r))
  {
    var data := Encode(r) + rest;
    HeaderAndBody(r, rest);
    hide Encode, Header, EncBody, ReadBody;
    HeaderRead(r, EncBody(r.body) + rest);
    BodyRoundTrip(r, rest);
  }

  // ---------------------------------------------------------------- a log file, whole or cut off

  ghost predicate AllFit(recs: seq<Rec>) {
    forall i :: 0 <= i < |recs| ==> Fits(recs[i])
  }

  // How many records lie wholly inside the first n bytes.
  function Whole(recs: seq<Rec>, n: int): (k: nat)
    ensures k <= |recs|
  {
    if recs == [] || TotLen(recs[0]) > n then 0 else 1 + Whole(recs[1..], n - TotLen(recs[0]))
  }

  lemma {:induction false} WholeAll(recs: seq<Rec>)
    ensures Whole(recs, |EncodeAll(recs)|) == |recs|
  {
    if recs != [] {
      WholeAll(recs[1..]);
    }
  }

  // A file position at which record k starts.
  ghost predicate StartsAt(data: Bytes, recs: seq<Rec>, offset: nat, k: nat) {
    k <= |recs| && offset <= |data| && data[offset..] <= EncodeAll(recs[k..])
      && Whole(recs, |data|) == k + Whole(recs[k..], |data| - offset)
  }

  lemma HeaderHere(data: Bytes, recs: seq<Rec>, offset: nat, k: nat)
    requires AllFit(recs) && StartsAt(data, recs, offset, k) && offset + LOG_HEADER_SIZE <= |data|
    ensures k < |recs| && IntAt(data, offset, 4) == recs[k].kind
      && IntAt(data, offset + OFFSET_LOG_TOT_LEN, 4) == TotLen(recs[k])
  {
    hide IntAt, Whole, Encode, EncodeAll, TotLen, Fits, AllFit, StartsAt, Decode, DecInt;
    WholeSoFar(data, recs, offset, k);
    SomeRecord(data[offset..], recs, k);
    RecFits(recs, k);
    var here := data[offset..];
    EncodeHead(recs, k);
    HeaderAlone(recs[k], here, EncodeAll(recs[k..]));
    SliceAt(data, offset);
  }

  lemma SomeRecord(here: Bytes, recs: seq<Rec>, k: nat)
    requires k <= |recs| && |here| > 0 && here <= EncodeAll(recs[k..])
    ensures k < |recs|
  {
    hide Encode;
  }

  lemma SliceAt(data: Bytes, offset: nat)
    requires offset + LOG_HEADER_SIZE <= |data|
    ensures IntAt(data[offset..], 0, 4) == IntAt(data, offset, 4)
    ensures IntAt(data[offset..], OFFSET_LOG_TOT_LEN, 4) == IntAt(data, offset + OFFSET_LOG_TOT_LEN, 4)
  {
    assert data[offset..][0..4] == data[offset..offset + 4] && data[offset..][8..12] == data[offset + 8..offset + 12];
  }

  lemma EncodeHead(recs: seq<Rec>, k: nat)
    requires k < |recs|
    ensures EncodeAll(recs[k..]) == Encode(recs[k]) + EncodeAll(recs[k + 1..])
    ensures Encode(recs[k]) <= EncodeAll(recs[k..])
  {
    assert recs[k..][1..] == recs[k + 1..] && recs[k..][0] == recs[k];
  }

  lemma WholeHead(recs: seq<Rec>, k: nat, n: int)
    requires k < |recs| && TotLen(recs[k]) <= n
    ensures Whole(recs[k..], n) == 1 + Whole(recs[k + 1..], n - TotLen(recs[k]))
  {
    assert recs[k..][1..] == recs[k + 1..] && recs[k..][0] == recs[k];
  }

  lemma WholeNone(recs: seq<Rec>, k: nat, n: int)
    requires k <= |recs| && (n < LOG_HEADER_SIZE || (k < |recs| && n < TotLen(recs[k])))
    ensures Whole(recs[k..], n) == 0
  {
  }

  lemma HeaderAlone(r: Rec, here: Bytes, all: Bytes)
    requires Fits(r) && here <= all && Encode(r) <= all && |here| >= LOG_HEADER_SIZE
    ensures IntAt(here, 0, 4) == r.kind && IntAt(here, OFFSET_LOG_TOT_LEN, 4) == TotLen(r)
  {
    HeaderRead(r, here[LOG_HEADER_SIZE..]);
    assert here[..LOG_HEADER_SIZE] == all[..LOG_HEADER_SIZE] == Encode(r)[..LOG_HEADER_SIZE] == Header(r) by {
      assert Encode(r) == Header(r) + EncBody(r.body);
    }
    assert here == Header(r) + here[LOG_HEADER_SIZE..];
  }

  lemma RecordHere(data: Bytes, recs: seq<Rec>, offset: nat, k: nat)
    requires AllFit(recs) && StartsAt(data, recs, offset, k) && k < |recs| && offset + TotLen(recs[k]) <= |data|
    ensures Decode(data[offset..]) == Some(recs[k], TotLen(recs[k]))
    ensures StartsAt(data, recs, offset + TotLen(recs[k]), k + 1)
  {
    hide *;
    WholeSoFar(data, recs, offset, k);
    var r, here, tot := recs[k], data[offset..], TotLen(recs[k]);
    EncodeHead(recs, k);
    WholeHead(recs, k, |data| - offset);
    CutRecord(Encode(r), EncodeAll(recs[k + 1..]), here);
    RecFits(recs, k);
    RecRoundTrip(r, here[tot..]);
    Tail(data, offset, tot);
    IntroStarts(data, recs, offset + tot, k + 1);
  }

  lemma Tail(data: Bytes, offset: nat, tot: nat)
    requires offset + tot <= |data|
    ensures data[offset..][tot..] == data[offset + tot..]
  {
  }

  lemma IntroStarts(data: Bytes, recs: seq<Rec>, offset: nat, k: nat)
    requires k <= |recs| && offset <= |data| && data[offset..] <= EncodeAll(recs[k..])
      && Whole(recs, |data|) == k + Whole(recs[k..], |data| - offset)
    ensures StartsAt(data, recs, offset, k)
  {
    hide Whole, EncodeAll;
  }

  lemma RecFits(recs: seq<Rec>, k: nat)
    requires AllFit(recs) && k < |recs|
    ensures Fits(recs[k])
  {
    hide Fits;
  }

  lemma CutRecord(enc: Bytes, later: Bytes, here: Bytes)
    requires here <= enc + later && |here| >= |enc|
    ensures here == enc + here[|enc|..] && here[|enc|..] <= later
  {
    assert (enc + later)[|enc|..] == later;
  }

  // The reading loop: exactly the records that lie wholly inside the file, whatever was cut off behind them.
  method ReadLog(data: Bytes, ghost recs: seq<Rec>) returns (out: seq<Rec>)
    requires AllFit(recs) && data <= EncodeAll(recs)
    ensures out == recs[..Whole(recs, |data|)]
  {
    hide IntAt, Whole, Encode, EncodeAll, TotLen, Fits, AllFit, StartsAt, Decode, DecInt;
    out := [];
    var offset := 0;
    ghost var k := 0;
    assert data[0..] == data && recs[0..] == recs;
    IntroStarts(data, recs, 0, 0);
    while offset + LOG_HEADER_SIZE <= |data|
      invariant offset <= |data| && StartsAt(data, recs, offset, k) && k <= |recs| && out == recs[..k]
      invariant Whole(recs, |data|) == k + Whole(recs[k..], |data| - offset)
    {
      HeaderHere(data, recs, offset, k);
      KindRange(recs, k);
      var kind := IntAt(data, offset, 4);
      var tot := IntAt(data, offset + OFFSET_LOG_TOT_LEN, 4);
      if tot < LOG_HEADER_SIZE || offset + tot > |data| {
        WholeNone(recs, k, |data| - offset);
        return;
      }
      RecordHere(data, recs, offset, k);
      if 0 <= kind <= 5 {
        var read := Decode(data[offset..]);
        out := out + [read.value];
      }
      offset := offset + tot;
      k := k + 1;
      WholeSoFar(data, recs, offset, k);
    }
    WholeNone(recs, k, |data| - offset);
  }

  lemma KindRange(recs: seq<Rec>, k: nat)
    requires AllFit(recs) && k < |recs|
    ensures 0 <= recs[k].kind <= 5 && TotLen(recs[k]) >= LOG_HEADER_SIZE
  {
    assert Fits(recs[k]);
  }

  lemma WholeSoFar(data: Bytes, recs: seq<Rec>, offset: nat, k: nat)
    requires StartsAt(data, recs, offset, k)
    ensures k <= |recs| && offset <= |data| && Whole(recs, |data|) == k + Whole(recs[k..], |data| - offset)
    ensures data[offset..] <= EncodeAll(recs[k..])
  {
    hide Whole, EncodeAll;
  }
}
