/** One page of a B+ tree file, with the searches and edits the index makes inside a page. */
module IndexNode {
  import opened RecordIds
  import opened IndexTree

  // The page header fields and the num_key first keys and rids.
  datatype Node = Node(parent: int, isLeaf: bool, prevLeaf: int, nextLeaf: int, keys: seq<Key>, rids: seq<Rid>)

  // First index whose key is at least target.
  method LowerBound(node: Node, target: Key) returns (left: nat)
    requires forall i, j :: 0 <= i < j < |node.keys| ==> node.keys[i] < node.keys[j]
    ensures left <= |node.keys|
    ensures forall i :: 0 <= i < left ==> node.keys[i] < target
    ensures forall i :: left <= i < |node.keys| ==> target <= node.keys[i]
  {
    left := 0;
    var right := |node.keys|;
    while left < right
      invariant left <= right <= |node.keys|
      invariant forall i :: 0 <= i < left ==> node.keys[i] < target
      invariant forall i :: right <= i < |node.keys| ==> target <= node.keys[i]
    {
      var mid := (left + right) / 2;
      if node.keys[mid] < target {
        left := mid + 1;
      } else {
        right := mid;
      }
    }
  }

  // First index from 1 on whose key is above target; key 0 is never looked at.
  method UpperBound(node: Node, target: Key) returns (left: nat)
    requires |node.keys| >= 1
    requires forall i, j :: 1 <= i < j < |node.keys| ==> node.keys[i] < node.keys[j]
    ensures 1 <= left <= |node.keys|
    ensures forall i :: 1 <= i < left ==> node.keys[i] <= target
    ensures forall i :: left <= i < |node.keys| ==> target < node.keys[i]
  {
    left := 1;
    var right := |node.keys|;
    while left < right
      invariant 1 <= left <= right <= |node.keys|
      invariant forall i :: 1 <= i < left ==> node.keys[i] <= target
      invariant forall i :: right <= i < |node.keys| ==> target < node.keys[i]
    {
      var mid := (left + right) / 2;
      if node.keys[mid] <= target {
        left := mid + 1;
      } else {
        right := mid;
      }
    }
  }

  // The slot of a parent that names the given child.
  method FindChild(node: Node, child: int) returns (i: nat)
    requires exists j :: 0 <= j < |node.rids| && node.rids[j].pageNo == child
    requires |node.keys| == |node.rids|
    ensures i < |node.rids| && node.rids[i].pageNo == child
  {
    i := 0;
    while i < |node.keys|
      invariant i <= |node.keys|
      invariant forall j :: 0 <= j < i ==> node.rids[j].pageNo != child
    {
      if node.rids[i].pageNo == child {
        break;
      }
      i := i + 1;
    }
  }

  // Inserts consecutive entries at pos; a position outside the page is ignored.
  function InsertPairs(node: Node, pos: int, keys: seq<Key>, rids: seq<Rid>): Node {
    if pos < 0 || pos > |node.keys| || pos > |node.rids| then node
    else node.(keys := node.keys[..pos] + keys + node.keys[pos..], rids := node.rids[..pos] + rids + node.rids[pos..])
  }

  function InsertPair(node: Node, pos: int, key: Key, rid: Rid): Node {
    InsertPairs(node, pos, [key], [rid])
  }

  // Removes the entry at pos; a position outside the page is ignored.
  function ErasePair(node: Node, pos: int): Node {
    if pos < 0 || pos >= |node.keys| || pos >= |node.rids| then node
    else node.(keys := node.keys[..pos] + node.keys[pos + 1..], rids := node.rids[..pos] + node.rids[pos + 1..])
  }

  // Keeps the first size entries.
  function SetSize(node: Node, size: nat): Node
    requires size <= |node.keys| && size <= |node.rids|
  {
    node.(keys := node.keys[..size], rids := node.rids[..size])
  }

  function SetKey(node: Node, i: nat, key: Key): Node
    requires i < |node.keys|
  {
    node.(keys := node.keys[i := key])
  }
}
