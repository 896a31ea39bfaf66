// The Merkle tree generateProofs builds with merkletreejs under the options
// { sortLeaves: true, sortPairs: true }, written out: sorted leaf level,
// sorted-pair hashing, an unpaired last node promoted unchanged, proofs
// looked up by leaf value, and verification as a left fold over the proof.

module MerkleTree {
  import opened Options
  import opened Bytes
  import opened DigestSort

  /** Keccak-256, left uninterpreted: any function from bytes to a digest. */
  type Hasher = seq<Byte> -> Digest

  /** sortPairs: the two digests are put in Buffer.compare order, concatenated and hashed. */
  function HashPair(h: Hasher, a: seq<Byte>, b: seq<Byte>): (r: Digest)
    ensures LexLe(a, b) ==> r == h(a + b)
    ensures LexLe(b, a) ==> r == h(b + a)
  {
    LexLeAntisymmetric(a, b);
    if LexLe(a, b) then h(a + b) else h(b + a)
  }

  /** One step of MerkleTree.verify with sortPairs: the smaller buffer goes first. */
  function VerifyStep(h: Hasher, hash: seq<Byte>, data: seq<Byte>): (r: Digest)
    ensures LexLe(hash, data) ==> r == h(hash + data)
    ensures LexLe(data, hash) ==> r == h(data + hash)
  {
    LexLeAntisymmetric(hash, data);
    if LexLt(hash, data) then h(hash + data) else h(data + hash)
  }

  /** The verifier's step and the builder's pair hash agree, whichever side the sibling sits on. */
  lemma {:induction false} VerifyStepIsHashPair(h: Hasher, x: seq<Byte>, y: seq<Byte>)
    ensures VerifyStep(h, x, y) == HashPair(h, x, y) == HashPair(h, y, x)
  {
    LexLeTotal(x, y);
    if LexLe(x, y) && LexLe(y, x) {
      LexLeAntisymmetric(x, y);
    }
  }

  /**
   * One level up. As merkletreejs does when duplicateOdd is not set, an
   * unpaired last node is copied up unchanged, unhashed.
   */
  function NextLevel(h: Hasher, nodes: seq<Digest>): (r: seq<Digest>)
    ensures |r| == (|nodes| + 1) / 2
    decreases |nodes|
  {
    if |nodes| == 0 then []
    else if |nodes| == 1 then [nodes[0]]
    else [HashPair(h, nodes[0], nodes[1])] + NextLevel(h, nodes[2..])
  }

  lemma {:induction false} NextLevelAt(h: Hasher, nodes: seq<Digest>, k: nat)
    requires k < (|nodes| + 1) / 2
    ensures NextLevel(h, nodes)[k] ==
      if 2 * k + 1 < |nodes| then HashPair(h, nodes[2 * k], nodes[2 * k + 1]) else nodes[2 * k]
    decreases |nodes|
  {
    if |nodes| >= 2 && k > 0 {
      NextLevelAt(h, nodes[2..], k - 1);
    }
  }

  /** All levels, leaf level first, until a level holds at most one node. */
  function Layers(h: Hasher, nodes: seq<Digest>): (r: seq<seq<Digest>>)
    ensures |r| >= 1 && r[0] == nodes
    ensures |nodes| >= 1 ==> |r[|r| - 1]| == 1
    ensures |nodes| == 0 ==> r == [[]]
    decreases |nodes|
  {
    if |nodes| <= 1 then [nodes] else [nodes] + Layers(h, NextLevel(h, nodes))
  }

  /** The tree as merkletreejs keeps it: the sorted leaves and every level. */
  datatype Tree = Tree(leaves: seq<Digest>, layers: seq<seq<Digest>>)

  /** Constructing the tree with sorted leaves and sorted pairs: sort the leaf level, then build every level above it. */
  function Build(h: Hasher, leaves: seq<Digest>): (t: Tree)
    ensures Sorted(t.leaves) && multiset(t.leaves) == multiset(leaves)
    ensures |t.layers| >= 1 && t.layers[0] == t.leaves
  {
    var sorted := Sort(leaves);
    Tree(sorted, Layers(h, sorted))
  }

  /** getRoot: the single node of the top level; None (an empty buffer) for an empty tree. */
  function GetRoot(t: Tree): (r: Option<Digest>)
    ensures r.Some? ==> |t.layers| > 0 && r.value in t.layers[|t.layers| - 1]
  {
    if |t.layers| == 0 || |t.layers[|t.layers| - 1]| == 0 then None
    else Some(t.layers[|t.layers| - 1][0])
  }

  /** The leaf lookup in getProof: the last index holding x, or -1. */
  function LastIndexOf(s: seq<Digest>, x: Digest): (r: int)
    ensures -1 <= r < |s|
    ensures r == -1 <==> x !in s
    ensures r >= 0 ==> s[r] == x && forall j :: r < j < |s| ==> s[j] != x
    decreases |s|
  {
    if |s| == 0 then -1
    else if s[|s| - 1] == x then |s| - 1
    else LastIndexOf(s[..|s| - 1], x)
  }

  /** The sibling getProof records at one level, if the node has one. */
  function Sibling(layer: seq<Digest>, index: nat): (r: seq<Digest>)
    ensures |r| <= 1
    ensures forall j :: 0 <= j < |layer| && j != index && j / 2 == index / 2 ==> r == [layer[j]]
    ensures r != [] ==> exists j :: 0 <= j < |layer| && j != index && j / 2 == index / 2 && r == [layer[j]]
  {
    var pairIndex := if index % 2 == 1 then index - 1 else index + 1;
    if pairIndex < |layer| then [layer[pairIndex]] else []
  }

  /** The proof path from position index of the first layer up through the rest. */
  function PathProof(layers: seq<seq<Digest>>, index: nat): (r: seq<Digest>)
    ensures |r| <= |layers|
    decreases |layers|
  {
    if |layers| == 0 then [] else Sibling(layers[0], index) + PathProof(layers[1..], index / 2)
  }

  /** getProof(leaf): looked up by value among the sorted leaves; [] when absent. */
  function GetProof(t: Tree, leaf: Digest): (r: seq<Digest>)
    ensures leaf !in t.leaves ==> r == []
    ensures |r| <= |t.layers|
  {
    var index := LastIndexOf(t.leaves, leaf);
    if index < 0 then [] else PathProof(t.layers, index)
  }

  /** Left fold of the verifier's step over a proof. */
  function Fold(h: Hasher, acc: seq<Byte>, proof: seq<seq<Byte>>): (r: seq<Byte>)
    ensures proof != [] ==> |r| == DIGEST_WIDTH
    decreases |proof|
  {
    if proof == [] then acc else Fold(h, VerifyStep(h, acc, proof[0]), proof[1..])
  }

  /** The library's verify: fold the proof into the leaf and compare the result with the root. */
  predicate Verify(h: Hasher, proof: seq<seq<Byte>>, leaf: seq<Byte>, root: seq<Byte>) {
    Fold(h, leaf, proof) == root
  }

  lemma {:induction false} FoldAppend(h: Hasher, acc: seq<Byte>, a: seq<seq<Byte>>, b: seq<seq<Byte>>)
    ensures Fold(h, acc, a + b) == Fold(h, Fold(h, acc, a), b)
    decreases |a|
  {
    if a == [] {
      assert a + b == b;
    } else {
      assert (a + b)[1..] == a[1..] + b;
      FoldAppend(h, VerifyStep(h, acc, a[0]), a[1..], b);
    }
  }

  /** Folding a node's sibling into it gives its parent on the next level. */
  lemma LevelStep(h: Hasher, nodes: seq<Digest>, i: nat)
    requires i < |nodes|
    ensures Fold(h, nodes[i], Sibling(nodes, i)) == NextLevel(h, nodes)[i / 2]
  {
    var k := i / 2;
    NextLevelAt(h, nodes, k);
    var parent := NextLevel(h, nodes)[k];
    if i % 2 == 1 {
      assert i == 2 * k + 1;
      var y := nodes[i - 1];
      assert Sibling(nodes, i) == [y];
      FoldSingle(h, nodes[i], y);
      VerifyStepIsHashPair(h, nodes[i], y);
      assert parent == HashPair(h, y, nodes[i]);
    } else if i + 1 < |nodes| {
      assert i == 2 * k;
      var y := nodes[i + 1];
      assert Sibling(nodes, i) == [y];
      FoldSingle(h, nodes[i], y);
      VerifyStepIsHashPair(h, nodes[i], y);
      assert parent == HashPair(h, nodes[i], y);
    } else {
      assert i == 2 * k;
      assert Sibling(nodes, i) == [];
      assert parent == nodes[i];
    }
  }

  lemma FoldSingle(h: Hasher, acc: seq<Byte>, y: seq<Byte>)
    ensures Fold(h, acc, [y]) == VerifyStep(h, acc, y)
  {
    assert [y][1..] == [];
  }

  /** Completeness on levels: the path proof of every node folds up to the top node. */
  lemma {:induction false} PathProofReachesTop(h: Hasher, nodes: seq<Digest>, i: nat)
    requires i < |nodes|
    ensures var layers := Layers(h, nodes);
      Fold(h, nodes[i], PathProof(layers, i)) == layers[|layers| - 1][0]
    decreases |nodes|
  {
    var layers := Layers(h, nodes);
    if |nodes| == 1 {
      assert PathProof(layers, i) == [];
    } else {
      var next := NextLevel(h, nodes);
      assert layers[1..] == Layers(h, next);
      LevelStep(h, nodes, i);
      FoldAppend(h, nodes[i], Sibling(nodes, i), PathProof(layers[1..], i / 2));
      PathProofReachesTop(h, next, i / 2);
    }
  }

  /** Completeness: every leaf's proof verifies against the root. */
  lemma Completeness(h: Hasher, leaves: seq<Digest>, leaf: Digest)
    requires leaf in leaves
    ensures var t := Build(h, leaves);
      GetRoot(t).Some? && Verify(h, GetProof(t, leaf), leaf, GetRoot(t).value)
  {
    var sorted := Sort(leaves);
    var layers := Layers(h, sorted);
    var t := Build(h, leaves);
    assert t.leaves == sorted && t.layers == layers;
    assert leaf in multiset(sorted);
    assert leaf in sorted;
    assert |sorted| >= 1;
    var index := LastIndexOf(sorted, leaf);
    assert |layers[|layers| - 1]| == 1;
    var top := layers[|layers| - 1];
    assert |t.layers| > 0 && t.layers[|t.layers| - 1] == top;
    assert GetRoot(t) == Some(top[0]);
    assert GetProof(t, leaf) == PathProof(layers, index);
    PathProofReachesTop(h, sorted, index);
  }

  /** getProof for a digest that is not a leaf is the empty proof, not an error. */
  lemma AbsentLeafHasEmptyProof(h: Hasher, leaves: seq<Digest>, leaf: Digest)
    requires leaf !in leaves
    ensures GetProof(Build(h, leaves), leaf) == []
  {
    var t := Build(h, leaves);
    assert leaf !in multiset(t.leaves);
  }

  /** Order independence: the whole tree depends only on the multiset of leaves. */
  lemma BuildIgnoresLeafOrder(h: Hasher, a: seq<Digest>, b: seq<Digest>)
    requires multiset(a) == multiset(b)
    ensures Build(h, a) == Build(h, b)
  {
    SortIgnoresOrder(a, b);
  }

  /** A single leaf is its own root, with an empty proof. */
  lemma SingleLeaf(h: Hasher, d: Digest)
    ensures GetRoot(Build(h, [d])) == Some(d)
    ensures GetProof(Build(h, [d]), d) == []
  {
    var t := Build(h, [d]);
    assert multiset(t.leaves) == multiset{d};
    assert |t.leaves| == 1 && t.leaves[0] in multiset{d};
    assert t.layers == [[d]];
    assert PathProof(t.layers, 0) == Sibling([d], 0) + PathProof([], 0);
  }

  /** An empty leaf set has no root node (merkletreejs returns an empty buffer). */
  lemma EmptyTree(h: Hasher)
    ensures GetRoot(Build(h, [])) == None
    ensures forall d: Digest :: GetProof(Build(h, []), d) == []
  {
  }

  /** ceil(log2 n), the number of levels above a leaf level of n nodes. */
  function CeilLog2(n: nat): nat
    decreases n
  {
    if n <= 1 then 0 else 1 + CeilLog2((n + 1) / 2)
  }

  function Pow2(k: nat): nat {
    if k == 0 then 1 else 2 * Pow2(k - 1)
  }

  lemma {:induction false} CeilLog2Bounds(n: nat)
    ensures n <= Pow2(CeilLog2(n))
    ensures n >= 2 ==> Pow2(CeilLog2(n) - 1) < n
    decreases n
  {
    if n >= 2 {
      CeilLog2Bounds((n + 1) / 2);
    }
  }

  lemma {:induction false} LayerCount(h: Hasher, nodes: seq<Digest>)
    requires |nodes| >= 1
    ensures |Layers(h, nodes)| == CeilLog2(|nodes|) + 1
    decreases |nodes|
  {
    if |nodes| > 1 {
      LayerCount(h, NextLevel(h, nodes));
    }
  }

  lemma {:induction false} PathProofLength(h: Hasher, nodes: seq<Digest>, i: nat)
    requires i < |nodes|
    ensures |PathProof(Layers(h, nodes), i)| <= |Layers(h, nodes)| - 1
    decreases |nodes|
  {
    var layers := Layers(h, nodes);
    if |nodes| == 1 {
      assert PathProof(layers, i) == [];
    } else {
      assert layers[1..] == Layers(h, NextLevel(h, nodes));
      PathProofLength(h, NextLevel(h, nodes), i / 2);
    }
  }

  /** A proof has at most ceil(log2 n) siblings, n the number of leaves. */
  lemma ProofLengthBound(h: Hasher, leaves: seq<Digest>, leaf: Digest)
    ensures |GetProof(Build(h, leaves), leaf)| <= CeilLog2(|leaves|)
  {
    var t := Build(h, leaves);
    var index := LastIndexOf(t.leaves, leaf);
    assert |t.leaves| == |multiset(leaves)| == |leaves|;
    if index >= 0 {
      PathProofLength(h, t.leaves, index);
      LayerCount(h, t.leaves);
    }
  }
}
