// generateProofs(guess) of src/helpers/merkletree.js: lower-case the guess,
// hash one leaf per character, build the sorted-pair tree, render the root
// as "0x" + hex, and collect and self-check one hex proof per leaf.

module GenerateProofs {
  import opened Options
  import opened Bytes
  import Utf8
  import opened MerkleTree

  /** toLowerCase on one character; only the ASCII letters A-Z change. */
  function LowerChar(c: char): (r: char)
    ensures CaseVariants(c, r) && !('A' <= r <= 'Z')
    ensures !('A' <= c <= 'Z') ==> r == c
  {
    if 'A' <= c <= 'Z' then (c as int + 32) as char else c
  }

  /** toLowerCase on a string: a case variant of s holding no upper-case letter. */
  function ToLower(s: string): (r: string)
    ensures |r| == |s|
    ensures SameIgnoringCase(s, r)
    ensures forall i :: 0 <= i < |r| ==> !('A' <= r[i] <= 'Z')
  {
    seq(|s|, i requires 0 <= i < |s| => LowerChar(s[i]))
  }

  /** x and y are the same letter up to ASCII case, or the same character. */
  predicate CaseVariants(x: char, y: char) {
    x == y
    || ('A' <= x <= 'Z' && y as int == x as int + 32)
    || ('A' <= y <= 'Z' && x as int == y as int + 32)
  }

  predicate SameIgnoringCase(a: string, b: string) {
    |a| == |b| && forall i :: 0 <= i < |a| ==> CaseVariants(a[i], b[i])
  }

  /** Lower-casing identifies exactly the strings that differ only in letter case. */
  lemma ToLowerIgnoresCase(a: string, b: string)
    ensures ToLower(a) == ToLower(b) <==> SameIgnoringCase(a, b)
  {
    if ToLower(a) == ToLower(b) {
      forall i | 0 <= i < |a| ensures CaseVariants(a[i], b[i]) {
        assert ToLower(a)[i] == ToLower(b)[i];
      }
    }
    if SameIgnoringCase(a, b) {
      assert forall i :: 0 <= i < |a| ==> ToLower(a)[i] == ToLower(b)[i];
    }
  }

  lemma ToLowerIdempotent(s: string)
    ensures ToLower(ToLower(s)) == ToLower(s)
    ensures forall i :: 0 <= i < |s| ==> !('A' <= ToLower(s)[i] <= 'Z')
  {
  }

  /** keccak256 of each character, in order. */
  function HashChars(h: Hasher, g: string): (r: seq<Digest>)
    ensures |r| == |g|
  {
    seq<Digest>(|g|, i requires 0 <= i < |g| => h(Utf8.Encode(g[i])))
  }

  /** The leaves: the hash of every character of the lower-cased guess, in order. */
  function Leaves(h: Hasher, guess: string): (r: seq<Digest>)
    ensures |r| == |guess|
  {
    HashChars(h, ToLower(guess))
  }

  /** One leaf per character of the guess, in order: the hash of its lower-cased UTF-8 bytes. */
  lemma LeavesPerCharacter(h: Hasher, guess: string)
    ensures |Leaves(h, guess)| == |guess|
    ensures forall i :: 0 <= i < |guess| ==>
      Leaves(h, guess)[i] == h(Utf8.Encode(LowerChar(guess[i])))
  {
  }

  /** Two guesses that differ only in letter case commit to the same leaves. */
  lemma CaseInsensitiveLeaves(h: Hasher, a: string, b: string)
    requires SameIgnoringCase(a, b)
    ensures Leaves(h, a) == Leaves(h, b)
  {
    ToLowerIgnoresCase(a, b);
  }

  lemma HashCharsAppend(h: Hasher, u: string, v: string)
    ensures HashChars(h, u + v) == HashChars(h, u) + HashChars(h, v)
  {
    assert forall i :: 0 <= i < |u + v| ==>
      HashChars(h, u + v)[i] == (HashChars(h, u) + HashChars(h, v))[i];
  }

  lemma {:induction false} HashCharsMultiset(h: Hasher, a: string, b: string)
    requires multiset(a) == multiset(b)
    ensures multiset(HashChars(h, a)) == multiset(HashChars(h, b))
    decreases |a|
  {
    if a == [] {
      assert |b| == |multiset(b)| == 0;
    } else {
      var x := a[0];
      assert x in multiset(b);
      var j :| 0 <= j < |b| && b[j] == x;
      var rest := b[..j] + b[j + 1..];
      assert b == b[..j] + [x] + b[j + 1..];
      assert a == [x] + a[1..];
      assert multiset(b) == multiset(b[..j]) + multiset{x} + multiset(b[j + 1..]);
      assert multiset(a) == multiset{x} + multiset(a[1..]);
      assert multiset(rest) == multiset(b[..j]) + multiset(b[j + 1..]);
      assert multiset(rest) == multiset(b) - multiset{x};
      assert multiset(a[1..]) == multiset(a) - multiset{x};
      HashCharsMultiset(h, a[1..], rest);
      HashCharsAppend(h, [x], a[1..]);
      HashCharsAppend(h, b[..j], [x]);
      HashCharsAppend(h, b[..j] + [x], b[j + 1..]);
      HashCharsAppend(h, b[..j], b[j + 1..]);
    }
  }

  /** Guesses that are anagrams of each other up to case yield the same tree, so the same root and proofs. */
  lemma AnagramsShareTree(h: Hasher, a: string, b: string)
    requires multiset(ToLower(a)) == multiset(ToLower(b))
    ensures Build(h, Leaves(h, a)) == Build(h, Leaves(h, b))
  {
    HashCharsMultiset(h, ToLower(a), ToLower(b));
    BuildIgnoresLeafOrder(h, Leaves(h, a), Leaves(h, b));
  }

  /** The root as "0x" and lowercase hex; an empty tree's root is the empty buffer, shown as "0x". */
  function RootHex(root: Option<Digest>): (s: string)
    ensures root.Some? ==> |s| == 2 + 2 * DIGEST_WIDTH && ParseHexString(s) == Some(root.value)
    ensures root.None? ==> s == "0x"
  {
    match root
    case None => HexString([])
    case Some(d) => ParseHexStringRoundTrip(d); HexString(d)
  }

  /** getHexProof: each sibling as a "0x"-prefixed hex string. */
  function HexProof(proof: seq<Digest>): (r: seq<string>)
    ensures |r| == |proof|
    ensures forall i :: 0 <= i < |r| ==> ParseHexString(r[i]) == Some(proof[i])
  {
    assert forall i :: 0 <= i < |proof| ==> ParseHexString(HexString(proof[i])) == Some(proof[i]) by {
      forall i | 0 <= i < |proof| ensures ParseHexString(HexString(proof[i])) == Some(proof[i]) {
        ParseHexStringRoundTrip(proof[i]);
      }
    }
    seq(|proof|, i requires 0 <= i < |proof| => HexString(proof[i]))
  }

  /** bufferify applied to every entry of a hex proof. */
  function ParseAll(ss: seq<string>): (r: Option<seq<seq<Byte>>>)
    ensures r.Some? ==> |r.value| == |ss|
    decreases |ss|
  {
    if ss == [] then Some([])
    else match (ParseHexString(ss[0]), ParseAll(ss[1..]))
      case (Some(b), Some(rest)) => Some([b] + rest)
      case _ => None
  }

  lemma {:induction false} ParseAllHexProof(proof: seq<Digest>)
    ensures ParseAll(HexProof(proof)) == Some(proof)
    decreases |proof|
  {
    if proof != [] {
      assert HexProof(proof)[1..] == HexProof(proof[1..]);
      ParseAllHexProof(proof[1..]);
      ParseHexStringRoundTrip(proof[0]);
      assert proof == [proof[0]] + proof[1..];
    }
  }

  /** The library's verify on hex strings: parse the proof and the root, fold, compare. */
  predicate VerifyHex(h: Hasher, hexProof: seq<string>, leaf: Digest, root: string) {
    match (ParseAll(hexProof), ParseHexString(root))
    case (Some(proof), Some(r)) => Verify(h, proof, leaf, r)
    case _ => false
  }

  /** The hex proof of every leaf, in leaf order. */
  function HexProofs(t: Tree, leaves: seq<Digest>): (r: seq<seq<string>>)
    ensures |r| == |leaves|
  {
    seq(|leaves|, i requires 0 <= i < |leaves| => HexProof(GetProof(t, leaves[i])))
  }

  /** The self-check of leaf k in the loop of generateProofs. */
  predicate LeafChecks(h: Hasher, t: Tree, leaves: seq<Digest>, root: string, k: int)
    requires 0 <= k < |leaves|
  {
    VerifyHex(h, HexProof(GetProof(t, leaves[k])), leaves[k], root)
  }

  predicate AllLeavesCheck(h: Hasher, t: Tree, leaves: seq<Digest>, root: string) {
    forall k :: 0 <= k < |leaves| ==> LeafChecks(h, t, leaves, root, k)
  }

  /** What generateProofs returns: [root, proof], or the failure for a leaf. */
  datatype Outcome = Proofs(root: string, proof: seq<seq<string>>) | VerificationFailed(leaf: Digest)

  /**
   * The loop of generateProofs: collect each leaf's hex proof and check it
   * against the root, stopping at the first leaf whose check fails.
   */
  method CollectProofs(h: Hasher, tree: Tree, leaves: seq<Digest>, root: string) returns (r: Outcome)
    ensures r.Proofs? <==> AllLeavesCheck(h, tree, leaves, root)
    ensures r.Proofs? ==> r == Proofs(root, HexProofs(tree, leaves))
    ensures r.VerificationFailed? ==>
      exists k :: 0 <= k < |leaves| && r.leaf == leaves[k] && !LeafChecks(h, tree, leaves, root, k)
                  && forall j :: 0 <= j < k ==> LeafChecks(h, tree, leaves, root, j)
  {
    var proof: seq<seq<string>> := [];
    var i := 0;
    while i < |leaves|
      invariant 0 <= i <= |leaves|
      invariant proof == HexProofs(tree, leaves)[..i]
      invariant forall j :: 0 <= j < i ==> LeafChecks(h, tree, leaves, root, j)
    {
      var hexProof := HexProof(GetProof(tree, leaves[i]));
      proof := proof + [hexProof];
      var verify := VerifyHex(h, hexProof, leaves[i], root);
      if !verify {
        assert !LeafChecks(h, tree, leaves, root, i);
        return VerificationFailed(leaves[i]);
      }
      i := i + 1;
    }
    assert proof == HexProofs(tree, leaves);
    return Proofs(root, proof);
  }

  /** generateProofs: lower-case, hash, build, render the root, then collect and check the proofs. */
  method GenerateProofs(h: Hasher, guess: string) returns (r: Outcome)
    ensures var leaves := Leaves(h, guess);
      var t := Build(h, leaves);
      var root := RootHex(GetRoot(t));
      && (r.Proofs? <==> AllLeavesCheck(h, t, leaves, root))
      && (r.Proofs? ==> r == Proofs(root, HexProofs(t, leaves)))
      && (r.VerificationFailed? ==>
            exists k :: 0 <= k < |leaves| && r.leaf == leaves[k] && !LeafChecks(h, t, leaves, root, k)
                        && forall j :: 0 <= j < k ==> LeafChecks(h, t, leaves, root, j))
  {
    var leaves := Leaves(h, guess);
    var tree := Build(h, leaves);
    var root := RootHex(GetRoot(tree));
    r := CollectProofs(h, tree, leaves, root);
  }

  /** Completeness end to end: the failure branch of generateProofs is unreachable. */
  lemma GenerateProofsNeverFails(h: Hasher, guess: string)
    ensures var leaves := Leaves(h, guess);
      var t := Build(h, leaves);
      AllLeavesCheck(h, t, leaves, RootHex(GetRoot(t)))
  {
    var leaves := Leaves(h, guess);
    var t := Build(h, leaves);
    var root := RootHex(GetRoot(t));
    forall k | 0 <= k < |leaves| ensures LeafChecks(h, t, leaves, root, k) {
      Completeness(h, leaves, leaves[k]);
      ParseAllHexProof(GetProof(t, leaves[k]));
    }
  }

  /** A one-character guess: its root is that character's leaf, with one empty proof. */
  lemma SingleCharacterGuess(h: Hasher, c: char)
    ensures var leaf := h(Utf8.Encode(LowerChar(c)));
      var t := Build(h, Leaves(h, [c]));
      RootHex(GetRoot(t)) == HexString(leaf) && HexProofs(t, Leaves(h, [c])) == [[]]
  {
    var leaf := h(Utf8.Encode(LowerChar(c)));
    assert Leaves(h, [c]) == [leaf];
    SingleLeaf(h, leaf);
  }

  /** An empty guess yields the root "0x" and no proofs. */
  lemma EmptyGuess(h: Hasher)
    ensures RootHex(GetRoot(Build(h, Leaves(h, "")))) == "0x"
    ensures HexProofs(Build(h, Leaves(h, "")), Leaves(h, "")) == []
  {
    assert Leaves(h, "") == [];
    EmptyTree(h);
  }
}
