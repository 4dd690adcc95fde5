/** How many entries a page of an index file has room for. */
module IndexLayout {
  import opened Arithmetic

  const PAGE_SIZE := 4096
  const PAGE_HDR_SIZE := 24
  const RID_SIZE := 8
  const MAX_COL_LEN := 512

  // The most entries a node keeps; one more slot is there while a node is being split.
  function BtreeOrder(keyLen: nat): int {
    (PAGE_SIZE - PAGE_HDR_SIZE) / (keyLen + RID_SIZE) - 1
  }

  // Header, keys and rids of n entries.
  function NodeBytes(keyLen: nat, n: nat): nat {
    PAGE_HDR_SIZE + n * keyLen + n * RID_SIZE
  }

  lemma Split(n: nat, keyLen: nat)
    ensures n * keyLen + n * RID_SIZE == n * (keyLen + RID_SIZE)
  {
  }

  lemma AtLeast(a: nat, d: nat, n: nat)
    requires d > 0 && n * d <= a
    ensures a / d >= n
  {
    DivTimes(a, d);
  }

  // For every key length the catalogue allows, a node with its extra slot just fits into a page, and
  // nodes are large enough to be split.
  lemma NodeFits(keyLen: nat)
    requires 0 < keyLen <= MAX_COL_LEN
    ensures BtreeOrder(keyLen) > 2
    ensures NodeBytes(keyLen, BtreeOrder(keyLen) + 1) <= PAGE_SIZE < NodeBytes(keyLen, BtreeOrder(keyLen) + 2)
  {
    var room, entry := PAGE_SIZE - PAGE_HDR_SIZE, keyLen + RID_SIZE;
    DivTimes(room, entry);
    Split(room / entry, keyLen);
    Split(room / entry + 1, keyLen);
    AtLeast(room, entry, 4);
  }
}
