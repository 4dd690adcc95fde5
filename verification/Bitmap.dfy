/** The slot bitmap of a record page: most significant bit of each byte first. */
module Bitmap {

  type Bits = seq<bv8>

  const WIDTH := 8

  // Mask of one position inside its byte.
  function Mask(pos: nat): bv8 {
    (0x80 as bv8) >> (pos % WIDTH)
  }

  predicate IsSet(bm: Bits, pos: nat)
    requires pos < WIDTH * |bm|
  {
    bm[pos / WIDTH] & Mask(pos) != 0
  }

  function Set(bm: Bits, pos: nat): Bits
    requires pos < WIDTH * |bm|
  {
    bm[pos / WIDTH := bm[pos / WIDTH] | Mask(pos)]
  }

  function Reset(bm: Bits, pos: nat): Bits
    requires pos < WIDTH * |bm|
  {
    bm[pos / WIDTH := bm[pos / WIDTH] & !Mask(pos)]
  }

  // The first position of a byte is its highest bit, and each next one is half of that.
  lemma MaskOrder(pos: nat)
    ensures pos % WIDTH == 0 ==> Mask(pos) == 128
    ensures pos % WIDTH == 7 ==> Mask(pos) == 1
    ensures pos % WIDTH > 0 ==> Mask(pos - 1) == Mask(pos) + Mask(pos)
  {
  }

  lemma MaskApart(p: nat, q: nat)
    requires p < WIDTH && q < WIDTH
    ensures Mask(p) != 0 && (p != q ==> Mask(p) & Mask(q) == 0)
  {
  }

  lemma ByteSet(b: bv8, p: nat, q: nat)
    requires p < WIDTH && q < WIDTH
    ensures (b | Mask(p)) & Mask(q) != 0 <==> p == q || b & Mask(q) != 0
    ensures (b & !Mask(p)) & Mask(q) != 0 <==> p != q && b & Mask(q) != 0
  {
    MaskApart(p, q);
  }

  // Setting or clearing a position changes that position only.
  lemma OnlyThatBit(bm: Bits, pos: nat, other: nat)
    requires pos < WIDTH * |bm| && other < WIDTH * |bm|
    ensures IsSet(Set(bm, pos), other) <==> other == pos || IsSet(bm, other)
    ensures IsSet(Reset(bm, pos), other) <==> other != pos && IsSet(bm, other)
  {
    assert Mask(pos) == Mask(pos % WIDTH) && Mask(other) == Mask(other % WIDTH);
    hide Mask;
    if pos / WIDTH == other / WIDTH {
      ByteSet(bm[pos / WIDTH], pos % WIDTH, other % WIDTH);
    }
  }

  // The next position after curr that holds the given bit; max if there is none.
  method NextBit(bit: bool, bm: Bits, max: nat, curr: int) returns (i: int)
    requires max <= WIDTH * |bm| && -1 <= curr
    ensures curr < max ==> curr < i <= max
    ensures curr >= max ==> i == max
    ensures i < max ==> i >= 0 && IsSet(bm, i) == bit
    ensures forall k :: 0 <= k && curr < k < i && k < max ==> IsSet(bm, k) != bit
  {
    i := curr + 1;
    while i < max
      invariant curr < i && (curr < max ==> i <= max)
      invariant forall k :: 0 <= k && curr < k < i && k < max ==> IsSet(bm, k) != bit
    {
      if IsSet(bm, i) == bit {
        return;
      }
      i := i + 1;
    }
    return max;
  }

  method FirstBit(bit: bool, bm: Bits, max: nat) returns (i: int)
    requires max <= WIDTH * |bm|
    ensures 0 <= i <= max
    ensures i < max ==> IsSet(bm, i) == bit
    ensures forall k :: 0 <= k < i ==> IsSet(bm, k) != bit
  {
    i := NextBit(bit, bm, max, -1);
  }
}
