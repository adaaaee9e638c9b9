/**
 Merkle trees in one flat array (utils/merkle.c). A node is one HASH_LENGTH
 block of the trit array, so the array is indexed by node.
 */
module Merkle {
  import opened Bits
  import opened MerkleIndex
  import opened Sponges

  // ----- the tree as a mathematical object

  /** A perfect tree of depth td: what each leaf site holds and how nodes are hashed. */
  datatype Tree = Tree(td: nat, f: Transform, leaf: nat -> Hash) {

    /** An inner node is the hash of its right child followed by its left child. */
    ghost function Node(depth: nat, width: nat): Hash
      requires depth <= td
      decreases td - depth
    {
      if depth == td then leaf(width)
      else Digest(f, [Node(depth + 1, 2 * width + 1), Node(depth + 1, 2 * width)])
    }
  }

  /** Read a node from the flat array; positions past its end read as the null hash. */
  function At(nodes: seq<Hash>, depth: nat, width: nat, td: nat): Hash
    requires depth <= td
  {
    var i := NodeIndex(depth, width, td);
    if i < |nodes| then nodes[i] else NullHash()
  }

  /** The first `upto` nodes of one level hold what they should. */
  ghost predicate LevelDone(t: Tree, nodes: seq<Hash>, depth: nat, upto: nat)
    requires depth <= t.td
  {
    forall w: nat :: w < upto ==> At(nodes, depth, w, t.td) == t.Node(depth, w)
  }

  /** Every level from `depth` down to the leaves is complete. */
  ghost predicate DoneBelow(t: Tree, nodes: seq<Hash>, depth: nat)
  {
    forall d: nat :: depth <= d <= t.td ==> LevelDone(t, nodes, d, Pow2(d))
  }

  ghost function WriteNode(t: Tree, nodes: seq<Hash>, depth: nat, width: nat, x: Hash): (r: seq<Hash>)
    requires depth <= t.td && NodeIndex(depth, width, t.td) < |nodes|
  {
    nodes[NodeIndex(depth, width, t.td) := x]
  }

  /** Writing one node changes no other node. */
  lemma WriteKeeps(t: Tree, nodes: seq<Hash>, depth: nat, width: nat, x: Hash, d: nat, w: nat)
    requires depth <= t.td && width < Pow2(depth) && NodeIndex(depth, width, t.td) < |nodes|
    requires d <= t.td && w < Pow2(d) && (d != depth || w != width)
    ensures At(WriteNode(t, nodes, depth, width, x), d, w, t.td) == At(nodes, d, w, t.td)
  {
    if NodeIndex(d, w, t.td) == NodeIndex(depth, width, t.td) {
      NodeIndexInjective(d, w, depth, width, t.td);
    }
  }

  /** Writing the right hash into the next node of a level extends that level and keeps all others. */
  lemma WriteNext(t: Tree, nodes: seq<Hash>, depth: nat, width: nat, below: nat)
    requires depth < below && depth <= t.td && width < Pow2(depth) && NodeIndex(depth, width, t.td) < |nodes|
    requires DoneBelow(t, nodes, below) && LevelDone(t, nodes, depth, width)
    ensures var r := WriteNode(t, nodes, depth, width, t.Node(depth, width));
            DoneBelow(t, r, below) && LevelDone(t, r, depth, width + 1)
  {
    var x := t.Node(depth, width);
    var r := WriteNode(t, nodes, depth, width, x);
    forall d: nat | below <= d <= t.td ensures LevelDone(t, r, d, Pow2(d)) {
      assert LevelDone(t, nodes, d, Pow2(d));
      forall w: nat | w < Pow2(d) ensures At(r, d, w, t.td) == t.Node(d, w) {
        WriteKeeps(t, nodes, depth, width, x, d, w);
      }
    }
    forall w: nat | w < width + 1 ensures At(r, depth, w, t.td) == t.Node(depth, w) {
      if w < width {
        WriteKeeps(t, nodes, depth, width, x, depth, w);
      }
    }
  }

  // ----- building (merkle.c:73-117)

  function LeafIndex(leafIndex: nat, leafCount: nat): nat
    requires leafIndex < leafCount
  {
    leafCount - leafIndex - 1
  }

  /** The tree that creation is meant to build: leaf site w belongs to key offset + n - 1 - w. */
  ghost function Planned(td: nat, f: Transform, address: int -> Hash, offset: int): Tree
  {
    Tree(td, f, w => address(offset + (Pow2(td) - w - 1)))
  }

  /** First loop of merkle_create: one address per leaf. */
  method CreateLeaves(nodes: array<Hash>, baseSize: nat, address: int -> Hash, offset: int, td: nat, ghost t: Tree)
    requires baseSize == Pow2(td) && nodes.Length >= Pow2(td + 1) - 1
    requires t == Planned(td, t.f, address, offset)
    modifies nodes
    ensures DoneBelow(t, nodes[..], td)
    ensures forall i :: Pow2(td + 1) - 1 <= i < nodes.Length ==> nodes[i] == old(nodes[i])
  {
    var leafIndex := 0;
    while leafIndex < baseSize
      invariant 0 <= leafIndex <= baseSize
      invariant DoneBelow(t, nodes[..], td + 1) && LevelDone(t, nodes[..], td, leafIndex)
      invariant forall i :: Pow2(td + 1) - 1 <= i < nodes.Length ==> nodes[i] == old(nodes[i])
    {
      var site := NodeIndexTraverse(td, leafIndex, td);
      NodeIndexLocates(td, leafIndex, td);
      ghost var was := nodes[..];
      WriteNext(t, was, td, leafIndex, td + 1);
      nodes[site] := address(offset + LeafIndex(leafIndex, baseSize));
      assert nodes[..] == WriteNode(t, was, td, leafIndex, t.Node(td, leafIndex));
      leafIndex := leafIndex + 1;
    }
  }

  /** What the inner loop absorbs for one parent: the right child then the left one, or a lone left
      child then the null hash. */
  function Children(nodes: seq<Hash>, depth: nat, width: nat, curSize: nat, td: nat): seq<Hash>
    requires depth <= td
  {
    if width + 1 < curSize then [At(nodes, depth, width + 1, td), At(nodes, depth, width, td)]
    else [At(nodes, depth, width, td), NullHash()]
  }

  lemma ParentHash(t: Tree, nodes: seq<Hash>, depth: nat, width: nat)
    requires 1 <= depth <= t.td && width < Pow2(depth) && width % 2 == 0 && DoneBelow(t, nodes, depth)
    ensures Digest(t.f, Children(nodes, depth, width, Pow2(depth), t.td)) == t.Node(depth - 1, width / 2)
  {
    assert Pow2(depth) == 2 * Pow2(depth - 1);
    assert LevelDone(t, nodes, depth, Pow2(depth));
    assert t.Node(depth, width + 1) == At(nodes, depth, width + 1, t.td);
    assert t.Node(depth, width) == At(nodes, depth, width, t.td);
  }

  /** One iteration of the inner loop (merkle.c:99-112), up to the squeeze. */
  method HashChildren(nodes: array<Hash>, depth: nat, width: nat, curSize: nat, td: nat, c: Sponge)
    returns (hash: Hash)
    requires depth <= td && width < curSize <= Pow2(depth) && nodes.Length >= Pow2(td + 1) - 1
    requires c.IsReset()
    modifies c
    ensures c.IsReset() && hash == Digest(c.f, Children(nodes[..], depth, width, curSize, td))
  {
    hide NodeIndex, Locate, Pow2, NullHash;
    var left := NodeIndexTraverse(depth, width, td);
    NodeIndexLocates(depth, width, td);
    if width < curSize - 1 {
      var right := NodeIndexTraverse(depth, width + 1, td);
      NodeIndexLocates(depth, width + 1, td);
      hash := c.HashPair(nodes[right], nodes[left]);
    } else {
      hash := c.HashPair(nodes[left], NullHash());
    }
  }

  /** Inner loop of merkle_create: hash the nodes of one level into their parents. */
  method HashLevel(nodes: array<Hash>, depth: nat, curSize: nat, td: nat, c: Sponge, ghost t: Tree)
    requires 1 <= depth <= td == t.td && curSize == Pow2(depth) && nodes.Length >= Pow2(td + 1) - 1
    requires c.IsReset() && c.f == t.f && DoneBelow(t, nodes[..], depth)
    modifies nodes, c
    ensures c.IsReset() && DoneBelow(t, nodes[..], depth - 1)
    ensures forall i :: Pow2(td + 1) - 1 <= i < nodes.Length ==> nodes[i] == old(nodes[i])
  {
    hide NodeIndex, At, LevelDone, Locate, Pow2, DoneBelow, Children;
    Doubles(depth - 1);
    EmptyLevel(t, nodes[..], depth - 1);
    var width := 0;
    while width < curSize
      invariant 0 <= width <= curSize && width % 2 == 0
      invariant c.IsReset()
      invariant DoneBelow(t, nodes[..], depth) && LevelDone(t, nodes[..], depth - 1, width / 2)
      invariant forall i :: Pow2(td + 1) - 1 <= i < nodes.Length ==> nodes[i] == old(nodes[i])
    {
      var hash := HashChildren(nodes, depth, width, curSize, td, c);
      ParentHash(t, nodes[..], depth, width);
      var parent := NodeIndexTraverse(depth - 1, width / 2, td);
      NodeIndexLocates(depth - 1, width / 2, td);
      ghost var was := nodes[..];
      WriteNext(t, was, depth - 1, width / 2, depth);
      nodes[parent] := hash;
      assert nodes[..] == WriteNode(t, was, depth - 1, width / 2, hash);
      width := width + 2;
    }
    LevelCompletes(t, nodes[..], depth - 1);
  }

  lemma LevelCompletes(t: Tree, nodes: seq<Hash>, depth: nat)
    requires depth <= t.td && DoneBelow(t, nodes, depth + 1) && LevelDone(t, nodes, depth, Pow2(depth))
    ensures DoneBelow(t, nodes, depth)
  {
  }

  lemma EmptyLevel(t: Tree, nodes: seq<Hash>, depth: nat)
    requires depth <= t.td
    ensures LevelDone(t, nodes, depth, 0)
  {
  }

  /** A number that passes the power-of-two test, as an exponent. */
  ghost function Log2(n: nat): (k: nat)
    requires IsPow2(n)
    ensures n == Pow2(k)
  {
    var k: nat :| n == Pow2(k);
    k
  }

  lemma {:induction false} Pow2StrictlyMonotone(a: nat, b: nat)
    requires a < b
    ensures Pow2(a) < Pow2(b)
    decreases b
  {
    if a < b - 1 {
      Pow2StrictlyMonotone(a, b - 1);
    }
  }

  /** The depth merkle_create computes for 2^k leaves is k. */
  lemma CreationDepth(k: nat, levels: nat)
    requires levels >= 1 && LevelSum(Pow2(k)) <= Pow2(levels) - 1
    requires forall l :: 1 <= l < levels ==> Pow2(l) - 1 < LevelSum(Pow2(k))
    ensures levels == k + 1
  {
    hide LevelSum, Pow2;
    LevelSumOfPow2(k);
    if levels < k + 1 {
      Pow2StrictlyMonotone(levels, k + 1);
    }
  }

  /**
   merkle_create. The base size is accepted exactly when it is zero or a power of
   two; then every node of the perfect tree holds its hash, and nothing past the
   tree is written. A rejected base size leaves the array alone.
   */
  method Create(nodes: array<Hash>, baseSize: nat, address: int -> Hash, offset: int, c: Sponge) returns (code: int)
    requires nodes.Length >= LevelSum(baseSize) && c.IsReset()
    modifies nodes, c
    ensures c.IsReset()
    ensures code == 0 || code == -1
    ensures code == 0 <==> baseSize == 0 || IsPow2(baseSize)
    ensures !IsPow2(baseSize) ==> nodes[..] == old(nodes[..])
    ensures forall td: nat :: baseSize == Pow2(td) ==>
              && DoneBelow(Planned(td, c.f, address, offset), nodes[..], 0)
              && forall i :: Pow2(td + 1) - 1 <= i < nodes.Length ==> nodes[i] == old(nodes[i])
  {
    hide Pow2, LevelSum, BitAnd, DoneBelow;
    if baseSize != 0 {
      ClearLowestBit(baseSize);
    }
    if baseSize != 0 && BitAnd(baseSize, baseSize - 1) != 0 {
      return -1;
    }
    var size := MerkleSize(baseSize);
    var levels := MerkleDepth(size);
    if baseSize != 0 {
      CreationDepth(Log2(baseSize), levels);
      LevelSumOfPow2(levels - 1);
      CreateNodes(nodes, baseSize, address, offset, levels - 1, c);
      forall td: nat | baseSize == Pow2(td) ensures td == levels - 1 {
        CreationDepth(td, levels);
      }
    }
    return 0;
  }

  /**
   A complete tree in the flat array: at every inner position the hash of the right child followed by the left one, at
   the positions where depth-first numbering puts them, and at every leaf site its leaf.
   */
  lemma FlatTree(t: Tree, nodes: seq<Hash>, d: nat, w: nat)
    requires DoneBelow(t, nodes, 0) && d <= t.td && w < Pow2(d) && |nodes| >= Pow2(t.td + 1) - 1
    ensures NodeIndex(d, w, t.td) < |nodes|
    ensures d == t.td ==> nodes[NodeIndex(d, w, t.td)] == t.leaf(w)
    ensures d < t.td ==>
              var i := NodeIndex(d, w, t.td);
              i + Pow2(t.td - d) < |nodes| && nodes[i] == Digest(t.f, [nodes[i + Pow2(t.td - d)], nodes[i + 1]])
  {
    hide NodeIndex, Pow2, Locate;
    NodeIndexLocates(d, w, t.td);
    assert LevelDone(t, nodes, d, Pow2(d));
    assert At(nodes, d, w, t.td) == t.Node(d, w);
    if d < t.td {
      Doubles(d);
      ChildPositions(d, w, t.td);
      NodeIndexLocates(d + 1, 2 * w, t.td);
      NodeIndexLocates(d + 1, 2 * w + 1, t.td);
      assert LevelDone(t, nodes, d + 1, Pow2(d + 1));
      assert At(nodes, d + 1, 2 * w, t.td) == t.Node(d + 1, 2 * w);
      assert At(nodes, d + 1, 2 * w + 1, t.td) == t.Node(d + 1, 2 * w + 1);
    }
  }

  /** The two passes of merkle_create: the leaves, then level by level up to the root. */
  method CreateNodes(nodes: array<Hash>, baseSize: nat, address: int -> Hash, offset: int, td: nat, c: Sponge)
    requires baseSize == Pow2(td) && nodes.Length >= Pow2(td + 1) - 1 && c.IsReset()
    modifies nodes, c
    ensures c.IsReset() && DoneBelow(Planned(td, c.f, address, offset), nodes[..], 0)
    ensures forall i :: Pow2(td + 1) - 1 <= i < nodes.Length ==> nodes[i] == old(nodes[i])
  {
    ghost var t := Planned(td, c.f, address, offset);
    CreateLeaves(nodes, baseSize, address, offset, td, t);
    var curSize, depth := baseSize, td;
    while depth > 0
      invariant 0 <= depth <= td && curSize == Pow2(depth)
      invariant c.IsReset() && DoneBelow(t, nodes[..], depth)
      invariant forall i :: Pow2(td + 1) - 1 <= i < nodes.Length ==> nodes[i] == old(nodes[i])
    {
      HashLevel(nodes, depth, curSize, td, c, t);
      curSize := (curSize + 1) / 2;
      depth := depth - 1;
    }
  }

  // ----- authentication paths (merkle.c:119-154)

  function Sibling(width: nat): nat
  {
    if width % 2 == 1 then width - 1 else width + 1
  }

  function Parent(width: nat): nat { width / 2 }

  lemma SiblingsShareParent(width: nat)
    ensures Parent(Sibling(width)) == Parent(width)
  {
  }

  /** Ancestor of a leaf site, i levels up. */
  function Up(width: nat, i: nat): nat
  {
    if i == 0 then width else Parent(Up(width, i - 1))
  }

  lemma UpStep(width: nat, i: nat)
    ensures Up(width, i + 1) == Parent(Up(width, i))
  {
  }

  /** Number of trits in `count` nodes. */
  function TritsOf(count: nat): nat { 243 * count }

  const NULL_SIBLING := 1
  const NULL_TREE := 2
  const LEAF_INDEX_OUT_OF_BOUNDS := 3
  const DEPTH_OUT_OF_BOUNDS := 4

  /** The siblings of leaf site w, from the leaves up to just below the root. */
  ghost predicate IsPath(nodes: seq<Hash>, siblings: seq<Hash>, w: nat, td: nat)
  {
    |siblings| == td &&
    forall i :: 0 <= i < td ==> siblings[i] == At(nodes, td - i, Sibling(Up(w, i)), td)
  }

  /** merkle_branch. treeLength counts trits; nodes past it read as the null hash. */
  method Branch(nodes: array?<Hash>, siblings: array?<Hash>, treeLength: nat, treeDepth: nat, leafIndex: nat,
                leafCount: nat)
    returns (code: int)
    requires treeDepth >= 1 && leafIndex < leafCount
    requires siblings != null ==> siblings.Length >= treeDepth - 1 && siblings != nodes
    requires nodes != null ==> treeLength == TritsOf(nodes.Length)
    modifies siblings
    ensures 0 <= code <= 4
    ensures code == NULL_SIBLING <==> siblings == null
    ensures code == NULL_TREE <==> siblings != null && nodes == null
    ensures code == LEAF_INDEX_OUT_OF_BOUNDS <==>
              siblings != null && nodes != null && NodeIndex(treeDepth - 1, leafIndex, treeDepth - 1) >= nodes.Length
    ensures code == DEPTH_OUT_OF_BOUNDS <==>
              && siblings != null && nodes != null && NodeIndex(treeDepth - 1, leafIndex, treeDepth - 1) < nodes.Length
              && nodes.Length <= Pow2(treeDepth - 1) - 1
    ensures code != 0 && siblings != null ==> siblings[..] == old(siblings[..])
    ensures code == 0 ==>
              IsPath(nodes[..], siblings[..treeDepth - 1], LeafIndex(leafIndex, leafCount), treeDepth - 1)
  {
    if siblings == null {
      return NULL_SIBLING;
    }
    if nodes == null {
      return NULL_TREE;
    }
    var leafSite := NodeIndexTraverse(treeDepth - 1, leafIndex, treeDepth - 1);
    if TritsOf(leafSite) >= treeLength {
      return LEAF_INDEX_OUT_OF_BOUNDS;
    }
    var levels := MerkleDepth(treeLength / 243);
    LevelsBound(nodes.Length, levels, treeDepth);
    if treeDepth > levels {
      return DEPTH_OUT_OF_BOUNDS;
    }
    CopySiblings(nodes, siblings, treeLength, treeDepth, LeafIndex(leafIndex, leafCount));
    return 0;
  }

  lemma LevelsBound(nodeCount: nat, levels: nat, treeDepth: nat)
    requires nodeCount > 0 && treeDepth >= 1 && levels >= 1 && nodeCount <= Pow2(levels) - 1
    requires forall l :: 1 <= l < levels ==> Pow2(l) - 1 < nodeCount
    ensures treeDepth > levels <==> nodeCount <= Pow2(treeDepth - 1) - 1
  {
    if treeDepth > levels {
      if treeDepth - 1 > levels {
        Pow2StrictlyMonotone(levels, treeDepth - 1);
      }
    } else if treeDepth > 1 {
      assert Pow2(treeDepth - 1) - 1 < nodeCount;
    }
  }

  /** Copy of one node, or of the null hash when the site lies past the tree. */
  method ReadNode(nodes: array<Hash>, treeLength: nat, depth: nat, width: nat, td: nat) returns (hash: Hash)
    requires depth <= td && treeLength == TritsOf(nodes.Length)
    ensures hash == At(nodes[..], depth, width, td)
  {
    var siteIndex := NodeIndexTraverse(depth, width, td);
    if TritsOf(siteIndex) >= treeLength {
      hash := NullHash();
    } else {
      hash := nodes[siteIndex];
    }
  }

  /** The first i siblings have been copied. */
  ghost predicate PathUpTo(nodes: seq<Hash>, siblings: seq<Hash>, w: nat, td: nat, i: nat)
  {
    i <= td <= |siblings| &&
    forall j :: 0 <= j < i ==> siblings[j] == At(nodes, td - j, Sibling(Up(w, j)), td)
  }

  lemma ExtendPath(nodes: seq<Hash>, siblings: seq<Hash>, w: nat, td: nat, i: nat)
    requires i < td && PathUpTo(nodes, siblings, w, td, i)
    ensures PathUpTo(nodes, siblings[i := At(nodes, td - i, Sibling(Up(w, i)), td)], w, td, i + 1)
  {
  }

  /** The loop of merkle_branch. */
  method CopySiblings(nodes: array<Hash>, siblings: array<Hash>, treeLength: nat, treeDepth: nat, site: nat)
    requires treeDepth >= 1 && siblings.Length >= treeDepth - 1 && siblings != nodes
    requires treeLength == TritsOf(nodes.Length)
    modifies siblings
    ensures PathUpTo(nodes[..], siblings[..], site, treeDepth - 1, treeDepth - 1)
    ensures forall j :: treeDepth - 1 <= j < siblings.Length ==> siblings[j] == old(siblings[j])
  {
    assert Up(site, 0) == site;
    hide At, TritsOf, Sibling, Parent, Up;
    ghost var ns := nodes[..];
    var siblingIndex := site;
    var i, depthIndex := 0, treeDepth - 1;
    while depthIndex > 0
      invariant 0 <= i <= treeDepth - 1 && depthIndex == treeDepth - 1 - i
      invariant siblingIndex == Up(site, i) && nodes[..] == ns
      invariant PathUpTo(ns, siblings[..], site, treeDepth - 1, i)
      invariant forall j :: treeDepth - 1 <= j < siblings.Length ==> siblings[j] == old(siblings[j])
    {
      hide PathUpTo;
      ExtendPath(ns, siblings[..], site, treeDepth - 1, i);
      SiblingsShareParent(siblingIndex);
      UpStep(site, i);
      siblingIndex := Sibling(siblingIndex);
      ghost var was := siblings[..];
      siblings[i] := ReadNode(nodes, treeLength, depthIndex, siblingIndex, treeDepth - 1);
      assert siblings[..] == was[i := siblings[i]];
      siblingIndex := Parent(siblingIndex);
      i, depthIndex := i + 1, depthIndex - 1;
    }
  }

  // ----- recomputing the root (merkle.c:156-172)

  /** Fold a leaf with its siblings; bit i of the index says on which side sibling i is absorbed. */
  function FoldRoot(f: Transform, hash: Hash, siblings: seq<Hash>, leafIndex: nat): Hash
    decreases |siblings|
  {
    if |siblings| == 0 then hash
    else
      var blocks := if leafIndex % 2 == 1 then [siblings[0], hash] else [hash, siblings[0]];
      FoldRoot(f, Digest(f, blocks), siblings[1..], Parent(leafIndex))
  }

  lemma FoldUnfold(f: Transform, hash: Hash, siblings: seq<Hash>, i: nat, leafIndex: nat)
    requires i < |siblings|
    ensures var blocks := if leafIndex % 2 == 1 then [siblings[i], hash] else [hash, siblings[i]];
            FoldRoot(f, hash, siblings[i..], leafIndex)
              == FoldRoot(f, Digest(f, blocks), siblings[i + 1..], Parent(leafIndex))
  {
    assert siblings[i..][0] == siblings[i] && siblings[i..][1..] == siblings[i + 1..];
  }

  /** Ancestors are quotients by powers of two, so testing a mask reads the ancestor's parity. */
  lemma BitOfAncestor(k: nat, i: nat)
    ensures BitAnd(k, Pow2(i)) != 0 <==> Up(k, i) % 2 == 1
  {
    BitAndMask(k, i);
    AncestorIsQuotient(k, i);
  }

  lemma {:induction false} AncestorIsQuotient(k: nat, i: nat)
    ensures Up(k, i) == k / Pow2(i)
  {
    if i != 0 {
      AncestorIsQuotient(k, i - 1);
      DivDiv(k, Pow2(i - 1));
    }
  }

  /** merkle_root, on a sponge that has been reset. */
  method Root(leaf: Hash, siblings: array<Hash>, siblingsNumber: nat, leafIndex: nat, c: Sponge) returns (hash: Hash)
    requires siblingsNumber <= siblings.Length && c.IsReset()
    modifies c
    ensures c.IsReset()
    ensures hash == FoldRoot(c.f, leaf, siblings[..siblingsNumber], leafIndex)
  {
    hash := leaf;
    ghost var all := siblings[..siblingsNumber];
    var i, j := 0, 1;
    while i < siblingsNumber
      invariant 0 <= i <= siblingsNumber && j == Pow2(i) && c.IsReset()
      invariant siblings[..siblingsNumber] == all
      invariant FoldRoot(c.f, hash, all[i..], Up(leafIndex, i)) == FoldRoot(c.f, leaf, all, leafIndex)
    {
      hide BitAnd;
      BitOfAncestor(leafIndex, i);
      assert all[i..][1..] == all[i + 1..] && all[i..][0] == siblings[i];
      if BitAnd(leafIndex, j) != 0 {
        hash := c.HashPair(siblings[i], hash);
      } else {
        hash := c.HashPair(hash, siblings[i]);
      }
      i, j := i + 1, j * 2;
    }
  }

  // ----- the round trip

  /** Mirroring a leaf index complements every bit: ancestors mirror too, and sides are swapped. */
  lemma {:induction false} MirrorComplements(k: nat, td: nat, i: nat)
    requires i <= td && k < Pow2(td)
    ensures Up(k, i) < Pow2(td - i)
    ensures Up(Pow2(td) - 1 - k, i) == Pow2(td - i) - 1 - Up(k, i)
  {
    if i != 0 {
      MirrorComplements(k, td, i - 1);
      assert Pow2(td - i + 1) == 2 * Pow2(td - i);
    }
  }

  /** The siblings are the planned ones along the path from leaf site w. */
  ghost predicate OnPath(t: Tree, siblings: seq<Hash>, w: nat)
  {
    |siblings| == t.td &&
    forall j :: 0 <= j < t.td ==> siblings[j] == t.Node(t.td - j, Sibling(Up(w, j)))
  }

  lemma PathSibling(t: Tree, siblings: seq<Hash>, w: nat, i: nat)
    requires OnPath(t, siblings, w) && i <= t.td
    ensures |siblings| == t.td && (i < t.td ==> siblings[i] == t.Node(t.td - i, Sibling(Up(w, i))))
  {
  }

  /** Folding from any ancestor of leaf site w with the remaining siblings reaches the root. */
  lemma {:induction false} FoldFromAncestor(t: Tree, siblings: seq<Hash>, k: nat, i: nat)
    requires i <= t.td == |siblings| && k < Pow2(t.td) && OnPath(t, siblings, Pow2(t.td) - 1 - k)
    ensures FoldRoot(t.f, t.Node(t.td - i, Up(Pow2(t.td) - 1 - k, i)), siblings[i..], Up(k, i)) == t.Node(0, 0)
    decreases t.td - i
  {
    hide OnPath, Sibling, Parent, Tree.Node;
    var w := Pow2(t.td) - 1 - k;
    MirrorComplements(k, t.td, i);
    if i == t.td {
      assert Up(w, i) == 0 && siblings[i..] == [];
    } else {
      PathSibling(t, siblings, w, i);
      FoldStep(t, siblings[i], k, i);
      FoldUnfold(t.f, t.Node(t.td - i, Up(w, i)), siblings, i, Up(k, i));
      UpStep(k, i);
      FoldFromAncestor(t, siblings, k, i + 1);
    }
  }

  /** One fold step computes the parent: the side chosen by the unmirrored bit is the right one. */
  lemma MirrorParity(td: nat, k: nat, i: nat)
    requires i < td && k < Pow2(td)
    ensures var w := Pow2(td) - 1 - k;
            Up(w, i + 1) == Up(w, i) / 2 && (Up(k, i) % 2 == 1 <==> Up(w, i) % 2 == 0)
  {
    MirrorComplements(k, td, i);
    assert Pow2(td - i) == 2 * Pow2(td - i - 1);
  }

  lemma FoldStep(t: Tree, sibling: Hash, k: nat, i: nat)
    requires i < t.td && k < Pow2(t.td)
    requires sibling == t.Node(t.td - i, Sibling(Up(Pow2(t.td) - 1 - k, i)))
    ensures var w := Pow2(t.td) - 1 - k;
            var hash := t.Node(t.td - i, Up(w, i));
            var blocks := if Up(k, i) % 2 == 1 then [sibling, hash] else [hash, sibling];
            Digest(t.f, blocks) == t.Node(t.td - (i + 1), Up(w, i + 1))
  {
    hide Up, Pow2;
    var w := Pow2(t.td) - 1 - k;
    MirrorComplements(k, t.td, i);
    MirrorParity(t.td, k, i);
    var x := Up(w, i);
    if x % 2 == 0 {
      assert x == 2 * (x / 2) && Sibling(x) == 2 * (x / 2) + 1;
    } else {
      assert x == 2 * (x / 2) + 1 && Sibling(x) == 2 * (x / 2);
    }
  }

  /**
   Merkle round trip: in a tree built by Create, for every leaf index k the leaf
   at the mirrored site is the address of key offset + k, and folding it with the
   path found by Branch under index k gives node 0 back.
   */
  lemma RoundTrip(td: nat, f: Transform, address: int -> Hash, offset: int, nodes: seq<Hash>, siblings: seq<Hash>,
                  k: nat)
    requires k < Pow2(td) && |nodes| >= Pow2(td + 1) - 1
    requires DoneBelow(Planned(td, f, address, offset), nodes, 0)
    requires IsPath(nodes, siblings, LeafIndex(k, Pow2(td)), td)
    ensures At(nodes, td, LeafIndex(k, Pow2(td)), td) == address(offset + k)
    ensures FoldRoot(f, address(offset + k), siblings, k) == nodes[0]
  {
    hide At, LevelDone, DoneBelow, NodeIndex, IsPath, Pow2, FoldRoot, Tree.Node, Up, Sibling;
    var t := Planned(td, f, address, offset);
    RootAndLeaf(td, f, address, offset, nodes, k);
    PathIsPlanned(t, nodes, siblings, k);
    FoldFromAncestor(t, siblings, k, 0);
    assert siblings[0..] == siblings;
  }

  lemma RootAndLeaf(td: nat, f: Transform, address: int -> Hash, offset: int, nodes: seq<Hash>, k: nat)
    requires k < Pow2(td) && |nodes| >= Pow2(td + 1) - 1
    requires DoneBelow(Planned(td, f, address, offset), nodes, 0)
    ensures var t, w := Planned(td, f, address, offset), LeafIndex(k, Pow2(td));
            && |nodes| > 0 && t.Node(0, 0) == nodes[0] && Up(w, 0) == w && Up(k, 0) == k && w == Pow2(td) - 1 - k
            && t.Node(td, w) == At(nodes, td, w, td) == address(offset + k)
  {
    var t, w := Planned(td, f, address, offset), LeafIndex(k, Pow2(td));
    assert LevelDone(t, nodes, td, Pow2(td)) && LevelDone(t, nodes, 0, Pow2(0));
    assert Pow2(0) == 1;
    Doubles(td);
    hide Pow2;
    assert t.Node(0, 0) == At(nodes, 0, 0, td) == nodes[0];
  }

  lemma PathIsPlanned(t: Tree, nodes: seq<Hash>, siblings: seq<Hash>, k: nat)
    requires k < Pow2(t.td) && DoneBelow(t, nodes, 0) && IsPath(nodes, siblings, Pow2(t.td) - 1 - k, t.td)
    ensures OnPath(t, siblings, Pow2(t.td) - 1 - k)
  {
    var w := Pow2(t.td) - 1 - k;
    hide Up, Tree.Node, NodeIndex;
    forall j | 0 <= j < t.td ensures siblings[j] == t.Node(t.td - j, Sibling(Up(w, j))) {
      MirrorComplements(k, t.td, j);
      assert Pow2(t.td - j) == 2 * Pow2(t.td - j - 1);
      assert LevelDone(t, nodes, t.td - j, Pow2(t.td - j));
    }
  }

  /** merkle_branch into a fresh buffer, for a leaf of a whole tree. */
  method FetchPath(nodes: array<Hash>, td: nat, k: nat) returns (code: int, siblings: array<Hash>)
    requires k < Pow2(td) && nodes.Length == Pow2(td + 1) - 1
    ensures code == 0 && fresh(siblings) && siblings.Length == td
    ensures IsPath(nodes[..], siblings[..], LeafIndex(k, Pow2(td)), td)
  {
    hide NodeIndex, IsPath, At, TritsOf;
    siblings := new Hash[td](_ => NullHash());
    NodeIndexLocates(td, k, td);
    code := Branch(nodes, siblings, TritsOf(nodes.Length), td + 1, k, Pow2(td));
    assert siblings[..td] == siblings[..];
  }

  /** Branch then root, as a verifier of one leaf does: the root of the tree is reproduced. */
  method BranchThenRoot(nodes: array<Hash>, td: nat, f: Transform, ghost address: int -> Hash, ghost offset: int,
                        k: nat)
    returns (root: Hash)
    requires k < Pow2(td) && nodes.Length == Pow2(td + 1) - 1
    requires DoneBelow(Planned(td, f, address, offset), nodes[..], 0)
    ensures root == nodes[0]
  {
    hide DoneBelow, Planned, NodeIndex, FoldRoot, IsPath, At;
    var code, siblings := FetchPath(nodes, td, k);
    ghost var path := siblings[..];
    RoundTrip(td, f, address, offset, nodes[..], path, k);
    var site := NodeIndexTraverse(td, LeafIndex(k, Pow2(td)), td);
    NodeIndexLocates(td, LeafIndex(k, Pow2(td)), td);
    AtIs(nodes[..], td, LeafIndex(k, Pow2(td)), td);
    hide Pow2;
    var c := new Sponge(f);
    root := Root(nodes[site], siblings, td, k, c);
    assert siblings[..td] == path;
  }

  lemma AtIs(nodes: seq<Hash>, depth: nat, width: nat, td: nat)
    requires depth <= td && NodeIndex(depth, width, td) < |nodes|
    ensures At(nodes, depth, width, td) == nodes[NodeIndex(depth, width, td)]
  {
  }

  /**
   Binding: two leaves that fold to the same root along paths of the same length
   and index are equal together with their paths, unless two different block
   pairs with the same digest are exhibited.
   */
  lemma {:induction false} Binding(f: Transform, a: Hash, p: seq<Hash>, b: Hash, q: seq<Hash>, k: nat)
    returns (x: seq<Hash>, y: seq<Hash>)
    requires |p| == |q| && FoldRoot(f, a, p, k) == FoldRoot(f, b, q, k)
    ensures (a == b && p == q) || (x != y && |x| == |y| == 2 && Digest(f, x) == Digest(f, y))
    decreases |p|
  {
    x, y := [], [];
    if |p| != 0 {
      x := if k % 2 == 1 then [p[0], a] else [a, p[0]];
      y := if k % 2 == 1 then [q[0], b] else [b, q[0]];
      var u, v := Binding(f, Digest(f, x), p[1..], Digest(f, y), q[1..], Parent(k));
      if u != v && |u| == |v| == 2 && Digest(f, u) == Digest(f, v) {
        x, y := u, v;
      } else if x == y {
        assert x[0] == y[0] && x[1] == y[1];
        assert p == [p[0]] + p[1..] && q == [q[0]] + q[1..];
      }
    }
  }
}
