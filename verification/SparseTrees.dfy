/** Proofs against earlier roots: as-latest proofs, sparse spines, and their merge. */
module SparseTrees {
  import opened Bits
  import opened Hashing
  import opened MerkleTrees
  import opened MerkleProofs

  // ----- The proof of an index as it was when that index was the latest -----

  /** The siblings on the right are replaced by zero subtrees. */
  function AsLatestPath(h: HashFn, path: Path, index: nat): (latest: Path)
    ensures latest.Length() == path.Length()
  {
    match path
    case Bottom => Bottom
    case Level(below, sibling) =>
      Level(AsLatestPath(h, below, Rest(index, path.Length())),
            if GoesRight(index, path.Length()) then sibling else ZeroHash(h, below.Length()))
  }

  /** Entry by entry, as the loop below computes it from the bits of the index. */
  lemma {:induction false} AsLatestAt(h: HashFn, path: Path, index: nat, k: nat)
    requires k < path.Length()
    ensures AsLatestPath(h, path, Low(index, path.Length())).Hashes()[k]
            == if Bit(index, k) then path.Hashes()[k] else ZeroHash(h, k)
  {
    ShiftStep(index, path.below.Length());
    if k < path.below.Length() {
      AsLatestAt(h, path.below, index, k);
    }
  }

  method AsLatest(h: HashFn, proof: Proof, depth: nat) returns (latest: Proof)
    requires |proof.path| == depth
    ensures latest == proof.(path := AsLatestPath(h, PathOf(proof.path), Low(proof.index, depth)).Hashes())
  {
    ghost var expected := AsLatestPath(h, PathOf(proof.path), Low(proof.index, depth)).Hashes();
    var modifiedPath := new H256[depth](_ => 0);
    for i := 0 to depth
      invariant forall k :: 0 <= k < i ==> modifiedPath[k] == expected[k]
    {
      AsLatestAt(h, PathOf(proof.path), proof.index, i);
      if Bit(proof.index, i) {
        modifiedPath[i] := proof.path[i];
      } else {
        modifiedPath[i] := ZeroHash(h, i);
      }
    }
    latest := Proof(proof.leaf, proof.index, modifiedPath[..]);
  }

  lemma {:induction false} AsLatestInBlock(
    h: HashFn, leaves: seq<H256>, prefix: seq<H256>, offset: nat, j: nat, depth: nat
  )
    requires |prefix| == offset + j + 1 <= |leaves| && prefix == leaves[..|prefix|] && j < Pow2(depth)
    ensures AsLatestPath(h, Siblings(h, leaves, offset, j, depth), j) == Siblings(h, prefix, offset, j, depth)
    decreases depth
  {
    if depth > 0 {
      var far := FarOffset(offset, j, depth);
      AsLatestInBlock(h, leaves, prefix, NearOffset(offset, j, depth), Rest(j, depth), depth - 1);
      if GoesRight(j, depth) {
        RootAgrees(h, leaves, prefix, far, depth - 1);
      } else {
        RootOfZeros(h, prefix, far, depth - 1);
      }
    }
  }

  /** Whatever was appended after leaf `j`, its as-latest proof is the proof it had when it was the
      last leaf, and evaluates to the root of the first j + 1 leaves. */
  lemma AsLatestForgetsLaterLeaves(h: HashFn, leaves: seq<H256>, j: nat, depth: nat)
    requires j < |leaves| <= Pow2(depth)
    ensures AsLatestPath(h, Siblings(h, leaves, 0, j, depth), j) == Siblings(h, leaves[..j + 1], 0, j, depth)
    ensures BranchRoot(h, leaves[j], AsLatestPath(h, Siblings(h, leaves, 0, j, depth), j), j)
            == Root(h, leaves[..j + 1], 0, depth)
  {
    AsLatestInBlock(h, leaves, leaves[..j + 1], 0, j, depth);
    SiblingsEvaluate(h, leaves[..j + 1], 0, j, depth);
  }

  // ----- Spines: the trees with one node per level that proofs stand for -----

  /** `near` on the side of leaf `index`, the leaf `far` on the other. */
  function Beside(h: HashFn, near: MerkleTree, far: H256, index: nat, depth: nat): MerkleTree
    requires depth > 0
  {
    if GoesRight(index, depth) then Rehashed(h, Leaf(far), near) else Rehashed(h, near, Leaf(far))
  }

  function Spine(h: HashFn, leaf: H256, path: Path, index: nat): MerkleTree {
    match path
    case Bottom => Leaf(leaf)
    case Level(below, sibling) =>
      Beside(h, Spine(h, leaf, below, Rest(index, path.Length())), sibling, index, path.Length())
  }

  /** One level of a spine, decided by a single bit of the index. */
  lemma SpineStep(h: HashFn, leaf: H256, below: Path, sibling: H256, index: nat)
    ensures var i, t := below.Length(), Spine(h, leaf, below, Low(index, below.Length()));
            Spine(h, leaf, Level(below, sibling), Low(index, i + 1))
            == if Bit(index, i) then Rehashed(h, Leaf(sibling), t) else Rehashed(h, t, Leaf(sibling))
  {
    ShiftStep(index, below.Length());
  }

  method SpineFromProof(h: HashFn, proof: Proof, depth: nat) returns (tree: MerkleTree)
    requires |proof.path| == depth
    ensures tree == Spine(h, proof.leaf, PathOf(proof.path), Low(proof.index, depth))
  {
    tree := Leaf(proof.leaf);
    for i := 0 to depth
      invariant tree == Spine(h, proof.leaf, PathOf(proof.path[..i]), Low(proof.index, i))
    {
      SpineStep(h, proof.leaf, PathOf(proof.path[..i]), proof.path[i], proof.index);
      PathOfPrefix(proof.path, i);
      if Bit(proof.index, i) {
        var left := Leaf(proof.path[i]);
        var digest := h(left.Hash(h), tree.Hash(h));
        tree := Node(digest, left, tree);
      } else {
        var right := Leaf(proof.path[i]);
        var digest := h(tree.Hash(h), right.Hash(h));
        tree := Node(digest, tree, right);
      }
    }
    assert proof.path[..depth] == proof.path;
  }

  /** A spine is consistent, hashes to what its proof evaluates to, and gives that proof back. */
  lemma {:induction false} SpineIsProof(h: HashFn, leaf: H256, path: Path, index: nat)
    ensures Spine(h, leaf, path, index).Consistent(h)
    ensures Spine(h, leaf, path, index).Hash(h) == BranchRoot(h, leaf, path, index)
    ensures ReachesLeaf(Spine(h, leaf, path, index), index, path.Length())
    ensures WalkLeaf(h, Spine(h, leaf, path, index), index, path.Length()) == leaf
    ensures WalkPath(h, Spine(h, leaf, path, index), index, path.Length()) == path
  {
    if path.Level? {
      SpineIsProof(h, leaf, path.below, Rest(index, path.Length()));
    }
  }

  // ----- Merging -----

  /** Graft the parts of `b` that hash alike onto `a`. The assertion inside never fails, and the
      root hash of `a` is kept, for any consistent `a` and any `b` at all. */
  function Merge(h: HashFn, a: MerkleTree, b: MerkleTree): (r: MerkleTree)
    requires a.Consistent(h)
    ensures r.Hash(h) == a.Hash(h)
  {
    match a
    case Zero(_) => a
    case Leaf(_) => if a.Hash(h) == b.Hash(h) then b else a
    case Node(digest, aLeft, aRight) =>
      match b
      case Leaf(_) => a
      case Zero(_) => a
      case Node(_, bLeft, bRight) =>
        var left, right := Merge(h, aLeft, bLeft), Merge(h, aRight, bRight);
        assert h(left.Hash(h), right.Hash(h)) == digest;
        Node(digest, left, right)
  }

  /** Merging two consistent trees gives a consistent tree. */
  lemma {:induction false} MergeKeepsConsistency(h: HashFn, a: MerkleTree, b: MerkleTree)
    requires a.Consistent(h) && b.Consistent(h)
    ensures Merge(h, a, b).Consistent(h)
  {
    if a.Node? && b.Node? {
      MergeKeepsConsistency(h, a.left, b.left);
      MergeKeepsConsistency(h, a.right, b.right);
    }
  }

  /** Walking `t` to `index` proves that leaf, and ends at a leaf of the tree. */
  ghost predicate ProvesLeaf(h: HashFn, t: MerkleTree, leaves: seq<H256>, offset: nat, index: nat, depth: nat) {
    Proves(h, t, leaves, offset, index, depth) && ReachesLeaf(t, index, depth)
  }

  lemma ProvesLeafStep(h: HashFn, t: MerkleTree, leaves: seq<H256>, offset: nat, index: nat, depth: nat)
    requires depth > 0 && t.Branches().Some?
    requires Far(t, index, depth).Hash(h) == Root(h, leaves, FarOffset(offset, index, depth), depth - 1)
    requires ProvesLeaf(h, Near(t, index, depth), leaves, NearOffset(offset, index, depth), Rest(index, depth), depth - 1)
    ensures ProvesLeaf(h, t, leaves, offset, index, depth)
  {
    ProvesStep(h, t, leaves, offset, index, depth);
  }

  /** The spine of the proof of leaf `i` of the block at `offset`. */
  function LeafSpine(h: HashFn, leaves: seq<H256>, offset: nat, i: nat, depth: nat): MerkleTree {
    Spine(h, LeafAt(leaves, offset + i), Siblings(h, leaves, offset, i, depth), i)
  }

  lemma LeafSpineProves(h: HashFn, leaves: seq<H256>, offset: nat, i: nat, depth: nat)
    requires i < Pow2(depth)
    ensures LeafSpine(h, leaves, offset, i, depth).Consistent(h)
    ensures LeafSpine(h, leaves, offset, i, depth).Hash(h) == Root(h, leaves, offset, depth)
    ensures ProvesLeaf(h, LeafSpine(h, leaves, offset, i, depth), leaves, offset, i, depth)
  {
    SpineIsProof(h, LeafAt(leaves, offset + i), Siblings(h, leaves, offset, i, depth), i);
    SiblingsEvaluate(h, leaves, offset, i, depth);
  }

  /** One level of a leaf's spine: the spine within its half, beside the root of the other half. */
  lemma LeafSpineStep(h: HashFn, leaves: seq<H256>, offset: nat, i: nat, depth: nat)
    requires depth > 0
    ensures LeafSpine(h, leaves, offset, i, depth)
            == Beside(h, LeafSpine(h, leaves, NearOffset(offset, i, depth), Rest(i, depth), depth - 1),
                      Root(h, leaves, FarOffset(offset, i, depth), depth - 1), i, depth)
  {
  }

  /** Two spines that turn the same way: the spines below merge, and the leaf on the other side ends
      up with the hash it has in the first. */
  lemma MergeSameSide(h: HashFn, a: MerkleTree, x: H256, j: nat, b: MerkleTree, y: H256, i: nat, depth: nat)
    requires depth > 0 && GoesRight(i, depth) == GoesRight(j, depth) && a.Consistent(h)
    ensures Beside(h, a, x, j, depth).Consistent(h)
    ensures var t := Merge(h, Beside(h, a, x, j, depth), Beside(h, b, y, i, depth));
            t.Node? && Near(t, i, depth) == Merge(h, a, b) && Far(t, i, depth).Hash(h) == x
  {
  }

  /** Two spines that part: the second is grafted whole onto the leaf of the first that has its hash,
      and the first keeps its hash on the other side. */
  lemma MergeApart(h: HashFn, a: MerkleTree, x: H256, j: nat, b: MerkleTree, y: H256, i: nat, depth: nat)
    requires depth > 0 && GoesRight(i, depth) != GoesRight(j, depth) && a.Consistent(h) && b.Hash(h) == x
    ensures Beside(h, a, x, j, depth).Consistent(h)
    ensures var t := Merge(h, Beside(h, a, x, j, depth), Beside(h, b, y, i, depth));
            t.Node? && Near(t, i, depth) == b && Far(t, i, depth).Hash(h) == a.Hash(h)
  {
  }

  /** The merge of the spine of the last leaf of a prefix with the spine of leaf `i` among all leaves
      proves leaf `i` exactly as the tree of the prefix did. */
  lemma {:induction false} MergedSpinesProve(
    h: HashFn, leaves: seq<H256>, prefix: seq<H256>, offset: nat, i: nat, j: nat, depth: nat
  )
    requires i <= j < Pow2(depth) && offset + j < |leaves| && prefix == leaves[..offset + j + 1]
    ensures LeafSpine(h, prefix, offset, j, depth).Consistent(h)
    ensures ProvesLeaf(h, Merge(h, LeafSpine(h, prefix, offset, j, depth), LeafSpine(h, leaves, offset, i, depth)),
                   prefix, offset, i, depth)
    decreases depth
  {
    LeafSpineProves(h, prefix, offset, j, depth);
    if depth > 0 {
      if GoesRight(i, depth) == GoesRight(j, depth) {
        MergedSpinesProve(h, leaves, prefix, NearOffset(offset, i, depth), Rest(i, depth), Rest(j, depth), depth - 1);
        MergedTogether(h, leaves, prefix, offset, i, j, depth);
      } else {
        MergedApart(h, leaves, prefix, offset, i, j, depth);
      }
    }
  }

  lemma MergedTogether(h: HashFn, leaves: seq<H256>, prefix: seq<H256>, offset: nat, i: nat, j: nat, depth: nat)
    requires depth > 0 && GoesRight(i, depth) == GoesRight(j, depth)
    requires var near := NearOffset(offset, i, depth);
             var a := LeafSpine(h, prefix, near, Rest(j, depth), depth - 1);
             && a.Consistent(h)
             && ProvesLeaf(h, Merge(h, a, LeafSpine(h, leaves, near, Rest(i, depth), depth - 1)),
                           prefix, near, Rest(i, depth), depth - 1)
    ensures LeafSpine(h, prefix, offset, j, depth).Consistent(h)
    ensures ProvesLeaf(h, Merge(h, LeafSpine(h, prefix, offset, j, depth), LeafSpine(h, leaves, offset, i, depth)),
                   prefix, offset, i, depth)
  {
    var near, far := NearOffset(offset, i, depth), FarOffset(offset, i, depth);
    var a := LeafSpine(h, prefix, near, Rest(j, depth), depth - 1);
    var b := LeafSpine(h, leaves, near, Rest(i, depth), depth - 1);
    var x, y := Root(h, prefix, far, depth - 1), Root(h, leaves, far, depth - 1);
    LeafSpineStep(h, prefix, offset, j, depth);
    LeafSpineStep(h, leaves, offset, i, depth);
    MergeSameSide(h, a, x, j, b, y, i, depth);
    ProvesLeafStep(h, Merge(h, Beside(h, a, x, j, depth), Beside(h, b, y, i, depth)), prefix, offset, i, depth);
  }

  lemma MergedApart(h: HashFn, leaves: seq<H256>, prefix: seq<H256>, offset: nat, i: nat, j: nat, depth: nat)
    requires depth > 0 && i <= j < Pow2(depth) && GoesRight(i, depth) != GoesRight(j, depth)
    requires offset + j < |leaves| && prefix == leaves[..offset + j + 1]
    ensures LeafSpine(h, prefix, offset, j, depth).Consistent(h)
    ensures ProvesLeaf(h, Merge(h, LeafSpine(h, prefix, offset, j, depth), LeafSpine(h, leaves, offset, i, depth)),
                   prefix, offset, i, depth)
  {
    var a, x := PrefixSpineApart(h, prefix, offset, j, depth);
    var b, y := LeafSpineApart(h, leaves, prefix, offset, i, depth);
    GraftProves(h, prefix, LeafSpine(h, prefix, offset, j, depth), a, x, j,
                LeafSpine(h, leaves, offset, i, depth), b, y, i, offset, depth);
  }

  lemma PrefixSpineApart(h: HashFn, prefix: seq<H256>, offset: nat, j: nat, depth: nat) returns (a: MerkleTree, x: H256)
    requires depth > 0 && j < Pow2(depth) && GoesRight(j, depth)
    ensures LeafSpine(h, prefix, offset, j, depth) == Beside(h, a, x, j, depth)
    ensures a.Consistent(h) && a.Hash(h) == Root(h, prefix, offset + Pow2(depth - 1), depth - 1)
    ensures x == Root(h, prefix, offset, depth - 1)
  {
    var near, rest := NearOffset(offset, j, depth), Rest(j, depth);
    a := LeafSpine(h, prefix, near, rest, depth - 1);
    x := Root(h, prefix, FarOffset(offset, j, depth), depth - 1);
    LeafSpineStep(h, prefix, offset, j, depth);
    LeafSpineProves(h, prefix, near, rest, depth - 1);
  }

  lemma LeafSpineApart(h: HashFn, leaves: seq<H256>, prefix: seq<H256>, offset: nat, i: nat, depth: nat)
    returns (b: MerkleTree, y: H256)
    requires depth > 0 && !GoesRight(i, depth)
    requires offset + Pow2(depth - 1) <= |prefix| <= |leaves| && prefix == leaves[..|prefix|]
    ensures LeafSpine(h, leaves, offset, i, depth) == Beside(h, b, y, i, depth)
    ensures b.Hash(h) == Root(h, prefix, offset, depth - 1) && ProvesLeaf(h, b, prefix, offset, i, depth - 1)
  {
    b := LeafSpine(h, leaves, offset, i, depth - 1);
    y := Root(h, leaves, offset + Pow2(depth - 1), depth - 1);
    LeftSpineOfPrefix(h, leaves, prefix, offset, i, depth - 1);
    LeafSpineStep(h, leaves, offset, i, depth);
  }

  lemma GraftProves(
    h: HashFn, prefix: seq<H256>, whole: MerkleTree, a: MerkleTree, x: H256, j: nat,
    grafted: MerkleTree, b: MerkleTree, y: H256, i: nat, offset: nat, depth: nat
  )
    requires depth > 0 && !GoesRight(i, depth) && GoesRight(j, depth)
    requires whole == Beside(h, a, x, j, depth) && grafted == Beside(h, b, y, i, depth)
    requires a.Consistent(h) && a.Hash(h) == Root(h, prefix, offset + Pow2(depth - 1), depth - 1)
    requires b.Hash(h) == x && ProvesLeaf(h, b, prefix, offset, i, depth - 1)
    ensures whole.Consistent(h) && ProvesLeaf(h, Merge(h, whole, grafted), prefix, offset, i, depth)
  {
    MergeApart(h, a, x, j, b, y, i, depth);
    ProvesLeafStep(h, Merge(h, whole, grafted), prefix, offset, i, depth);
  }

  /** The spine of a leaf in a block that the prefix covers is a spine of the prefix. */
  lemma LeftSpineOfPrefix(h: HashFn, leaves: seq<H256>, prefix: seq<H256>, offset: nat, i: nat, depth: nat)
    requires i < Pow2(depth) && offset + Pow2(depth) <= |prefix| <= |leaves| && prefix == leaves[..|prefix|]
    ensures LeafSpine(h, leaves, offset, i, depth).Hash(h) == Root(h, prefix, offset, depth)
    ensures ProvesLeaf(h, LeafSpine(h, leaves, offset, i, depth), prefix, offset, i, depth)
  {
    SiblingsAgree(h, leaves, prefix, offset, i, depth);
    LeafSpineProves(h, prefix, offset, i, depth);
  }

  // ----- Proving against the current and against an earlier root -----

  method ProveAgainstCurrent(h: HashFn, t: MerkleTree, index: nat, depth: nat) returns (proof: Proof)
    requires ReachesLeaf(t, Low(index, depth), depth)
    ensures proof == Proof(WalkLeaf(h, t, Low(index, depth), depth), index,
                           WalkPath(h, t, Low(index, depth), depth).Hashes())
  {
    var leaf, hashes := GenerateProof(h, t, index, depth);
    proof := Proof(leaf, index, hashes);
  }

  /** The proof of leaf `i` in the tree of exactly `leaves`. */
  function ProofAmong(h: HashFn, leaves: seq<H256>, i: nat, depth: nat): Proof
    requires i < |leaves|
  {
    Proof(leaves[i], i, Siblings(h, leaves, 0, i, depth).Hashes())
  }

  /** From the tree of all leaves, the proof of `leafIndex` against the root of the first
      rootIndex + 1 of them is, field by field, the proof the smaller tree gave. */
  method ProveAgainstPrevious(
    h: HashFn, t: MerkleTree, leafIndex: nat, rootIndex: nat, depth: nat, ghost leaves: seq<H256>
  ) returns (proof: Proof)
    requires leafIndex <= rootIndex < |leaves| <= Pow2(depth)
    requires t == Create(h, leaves, depth)
    ensures proof == ProofAmong(h, leaves[..rootIndex + 1], leafIndex, depth)
  {
    ghost var prefix := leaves[..rootIndex + 1];
    SmallNumber(rootIndex, depth);
    SmallNumber(leafIndex, depth);
    CreatedProves(h, leaves, rootIndex, depth);
    CreatedProves(h, leaves, leafIndex, depth);
    CreatedReachesLeaf(h, leaves, rootIndex, depth);
    CreatedReachesLeaf(h, leaves, leafIndex, depth);
    AsLatestForgetsLaterLeaves(h, leaves, rootIndex, depth);
    MergedSpinesProve(h, leaves, prefix, 0, leafIndex, rootIndex, depth);
    PathOfHashes(Siblings(h, leaves, 0, rootIndex, depth));
    PathOfHashes(Siblings(h, prefix, 0, rootIndex, depth));
    PathOfHashes(Siblings(h, leaves, 0, leafIndex, depth));

    var currentRootProof := ProveAgainstCurrent(h, t, rootIndex, depth);
    var rootProof := AsLatest(h, currentRootProof, depth);
    var leafProof := ProveAgainstCurrent(h, t, leafIndex, depth);
    var rootSpine := SpineFromProof(h, rootProof, depth);
    assert rootSpine == LeafSpine(h, prefix, 0, rootIndex, depth);
    var leafSpine := SpineFromProof(h, leafProof, depth);
    assert leafSpine == LeafSpine(h, leaves, 0, leafIndex, depth);
    var tree := Merge(h, rootSpine, leafSpine);
    proof := ProveAgainstCurrent(h, tree, leafIndex, depth);
  }

  /** What the proof against an earlier root evaluates to. */
  lemma ProofAmongEvaluates(h: HashFn, leaves: seq<H256>, i: nat, j: nat, depth: nat)
    requires i <= j < |leaves| <= Pow2(depth)
    ensures var proof := ProofAmong(h, leaves[..j + 1], i, depth);
            && proof.leaf == leaves[i]
            && BranchRoot(h, proof.leaf, PathOf(proof.path), Low(proof.index, depth)) == Root(h, leaves[..j + 1], 0, depth)
  {
    SmallNumber(i, depth);
    PathOfHashes(Siblings(h, leaves[..j + 1], 0, i, depth));
    SiblingsEvaluate(h, leaves[..j + 1], 0, i, depth);
  }
}
