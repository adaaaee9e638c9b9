/**
 Depth-first numbering of the nodes of a perfect binary tree
 (merkle_node_index, merkle_size, merkle_depth in utils/merkle.c).
 */
module MerkleIndex {
  import opened Bits

  /** Position in the flat array of the node at the given depth (from the root)
      and width (from the left) in a tree of depth td. */
  function NodeIndex(depth: nat, width: nat, td: nat): nat
    requires depth <= td
  {
    if depth == 0 then 0
    else if width >= Pow2(depth - 1) then Pow2(td) + NodeIndex(depth - 1, width - Pow2(depth - 1), td - 1)
    else 1 + NodeIndex(depth - 1, width, td - 1)
  }

  /** merkle_node_index_traverse, called with acc = 0. */
  method NodeIndexTraverse(depth: nat, width: nat, treeDepth: nat) returns (index: nat)
    requires depth <= treeDepth
    ensures index == NodeIndex(depth, width, treeDepth)
  {
    if treeDepth == 0 {
      return 0;
    }
    var cursor := 1;
    index := depth;
    var widthCursor: nat := width;
    while cursor <= depth
      invariant 1 <= cursor <= depth + 1
      invariant NodeIndex(depth, width, treeDepth)
             == index - (depth - cursor + 1) + NodeIndex(depth - cursor + 1, widthCursor, treeDepth - cursor + 1)
    {
      if widthCursor >= Pow2(depth - cursor) {
        index := index + Pow2(treeDepth - cursor + 1) - 1;
        widthCursor := widthCursor - Pow2(depth - cursor);
      }
      cursor := cursor + 1;
    }
  }

  datatype Site = Site(depth: nat, width: nat)

  /** The node stored at a position: walk down, left subtree first. */
  function Locate(index: nat, td: nat): (s: Site)
    requires index < Pow2(td + 1) - 1
    ensures s.depth <= td && s.width < Pow2(s.depth)
    decreases td
  {
    if index == 0 then Site(0, 0)
    else if index >= Pow2(td) then
      var s := Locate(index - Pow2(td), td - 1);
      Site(s.depth + 1, s.width + Pow2(s.depth))
    else
      var s := Locate(index - 1, td - 1);
      Site(s.depth + 1, s.width)
  }

  lemma Doubles(n: nat)
    ensures Pow2(n + 1) == 2 * Pow2(n) && Pow2(n) >= 1
  {
  }

  /** The left subtree is stored before the right one. */
  lemma LocateStep(index: nat, td: nat)
    requires 0 < index < Pow2(td + 1) - 1
    ensures td > 0 && (if index >= Pow2(td) then index - Pow2(td) else index - 1) < Pow2(td) - 1
    ensures var s := Locate(if index >= Pow2(td) then index - Pow2(td) else index - 1, td - 1);
            Locate(index, td) == Site(s.depth + 1, if index >= Pow2(td) then s.width + Pow2(s.depth) else s.width)
  {
  }

  lemma RootFirst(width: nat, td: nat)
    requires width < Pow2(0)
    ensures NodeIndex(0, width, td) == 0 && width == 0 && 0 < Pow2(td + 1) - 1 && Locate(0, td) == Site(0, 0)
  {
    Doubles(td);
  }

  lemma RootLocated(td: nat)
    requires 0 < Pow2(td + 1) - 1
    ensures Locate(0, td) == Site(0, 0) && NodeIndex(0, 0, td) == 0
  {
  }

  lemma NodeIndexStep(depth: nat, width: nat, td: nat)
    requires 0 < depth <= td && width < Pow2(depth)
    ensures Pow2(depth) == 2 * Pow2(depth - 1)
    ensures NodeIndex(depth, width, td)
         == if width >= Pow2(depth - 1) then Pow2(td) + NodeIndex(depth - 1, width - Pow2(depth - 1), td - 1)
            else 1 + NodeIndex(depth - 1, width, td - 1)
  {
  }

  /** Every in-range node has a position inside the array, and that position locates the node. */
  lemma {:induction false} NodeIndexLocates(depth: nat, width: nat, td: nat)
    requires depth <= td && width < Pow2(depth)
    ensures NodeIndex(depth, width, td) < Pow2(td + 1) - 1
    ensures Locate(NodeIndex(depth, width, td), td) == Site(depth, width)
    decreases depth
  {
    hide Locate, NodeIndex, Pow2;
    Doubles(td);
    if depth == 0 {
      RootFirst(width, td);
    } else {
      NodeIndexStep(depth, width, td);
      var half := Pow2(depth - 1);
      NodeIndexLocates(depth - 1, if width >= half then width - half else width, td - 1);
      LocateStep(NodeIndex(depth, width, td), td);
    }
  }

  /** Every position of the array holds a node, and that node is numbered by the position. */
  lemma {:induction false} LocateIsIndexed(index: nat, td: nat)
    requires index < Pow2(td + 1) - 1
    ensures var s := Locate(index, td); NodeIndex(s.depth, s.width, td) == index
    decreases td
  {
    hide Locate, NodeIndex, Pow2;
    if index == 0 {
      Doubles(td);
      RootLocated(td);
    } else {
      LocateStep(index, td);
      var right := index >= Pow2(td);
      var rest := if right then index - Pow2(td) else index - 1;
      LocateIsIndexed(rest, td - 1);
      var s := Locate(rest, td - 1);
      Doubles(s.depth);
      NodeIndexStep(s.depth + 1, if right then s.width + Pow2(s.depth) else s.width, td);
    }
  }

  /** Distinct nodes never share a position. */
  lemma NodeIndexInjective(d: nat, w: nat, d': nat, w': nat, td: nat)
    requires d <= td && w < Pow2(d) && d' <= td && w' < Pow2(d')
    requires NodeIndex(d, w, td) == NodeIndex(d', w', td)
    ensures d == d' && w == w'
  {
    NodeIndexLocates(d, w, td);
    NodeIndexLocates(d', w', td);
  }

  /** The left child directly follows its parent; the right child follows the whole left subtree. */
  lemma {:induction false} ChildPositions(depth: nat, width: nat, td: nat)
    requires depth < td && width < Pow2(depth)
    ensures NodeIndex(depth + 1, 2 * width, td) == NodeIndex(depth, width, td) + 1
    ensures NodeIndex(depth + 1, 2 * width + 1, td) == NodeIndex(depth, width, td) + Pow2(td - depth)
    decreases depth
  {
    if depth == 0 {
      assert Pow2(0) == 1;
      assert NodeIndex(1, 0, td) == 1 + NodeIndex(0, 0, td - 1);
      assert NodeIndex(1, 1, td) == Pow2(td) + NodeIndex(0, 0, td - 1);
    } else {
      var half := Pow2(depth - 1);
      assert Pow2(depth) == 2 * half;
      if width >= half {
        ChildPositions(depth - 1, width - half, td - 1);
        assert 2 * width - Pow2(depth) == 2 * (width - half);
        assert 2 * width + 1 - Pow2(depth) == 2 * (width - half) + 1;
      } else {
        ChildPositions(depth - 1, width, td - 1);
      }
    }
  }

  /** Total number of nodes when every level is half the previous one, rounded up. */
  function LevelSum(count: nat): nat
  {
    if count <= 1 then count else count + LevelSum((count + 1) / 2)
  }

  /** A level with an odd number of nodes has as many parents as one with one node more. */
  lemma LevelSumOfOdd(n: nat)
    requires n >= 2
    ensures LevelSum(2 * n - 1) == LevelSum(2 * n) - 1 && LevelSum(2 * n) == 2 * n + LevelSum(n)
  {
    assert (2 * n + 1) / 2 == n && (2 * n - 1 + 1) / 2 == n;
  }

  lemma {:induction false} LevelSumOfPow2(k: nat)
    ensures LevelSum(Pow2(k)) == Pow2(k + 1) - 1
  {
    if k != 0 {
      LevelSumOfPow2(k - 1);
      assert (Pow2(k) + 1) / 2 == Pow2(k - 1);
    } else {
      assert Pow2(1) == 2 * Pow2(0);
    }
  }

  /** merkle_size. */
  method MerkleSize(leafCount: nat) returns (acc: nat)
    ensures acc == LevelSum(leafCount)
  {
    var count := leafCount;
    acc := 1;
    if count == 0 {
      return 0;
    } else if count == 1 {
      return 1;
    }
    while count >= 2
      invariant count >= 1
      invariant acc + LevelSum(count) == LevelSum(leafCount) + 1
    {
      acc := acc + count;
      count := (count + 1) / 2;
    }
  }

  function BinaryTreeSize(acc: nat, depth: nat): nat { Pow2(depth + 1) - 1 + acc }

  /** merkle_depth: the number of levels of the least perfect tree with that many nodes. */
  method MerkleDepth(nodeCount: nat) returns (levels: nat)
    ensures levels >= 1 && nodeCount <= Pow2(levels) - 1
    ensures forall l :: 1 <= l < levels ==> Pow2(l) - 1 < nodeCount
  {
    var depth := 0;
    while BinaryTreeSize(0, depth) < nodeCount
      invariant forall l :: 1 <= l <= depth ==> Pow2(l) - 1 < nodeCount
      decreases nodeCount - BinaryTreeSize(0, depth)
    {
      assert Pow2(depth + 2) == 2 * Pow2(depth + 1);
      depth := depth + 1;
    }
    return depth + 1;
  }
}
