/** The proof server: the full tree of all leaves, with proofs against any earlier root. */
module Provers {
  import opened Bits
  import opened Hashing
  import opened MerkleTrees
  import opened MerkleProofs
  import opened SparseTrees
  import opened BoxedTrees

  datatype ProverError =
    | IndexTooHigh(tooHigh: nat)
    | ZeroProof(index: nat, count: nat)
    | TreeError(error: MerkleTreeError)
    | VerificationFailed(expected: H256, actual: H256)

  datatype Result<+T> = Ok(value: T) | Err(error: ProverError)

  class Prover {
    const hash: HashFn
    const depth: nat
    const tree: BoxedTree
    var count: nat
    ghost var leaves: seq<H256>

    /** The tree is the tree of the leaves. The count runs ahead of them only once the tree is full,
        because an ingest that fails has already been counted. */
    ghost predicate Valid()
      reads this, tree, tree.repr
    {
      && tree.Valid() && this !in tree.repr
      && Pow2(depth) == U32_MAX + 1 && |leaves| <= Pow2(depth)
      && tree.Tree() == Create(hash, leaves, depth)
      && |leaves| <= count && (|leaves| < count ==> |leaves| == Pow2(depth))
    }

    /** A prover over given leaves; none for the default one. */
    constructor (hash: HashFn, depth: nat, leaves: seq<H256>)
      requires Pow2(depth) == U32_MAX + 1 && |leaves| <= Pow2(depth)
      ensures Valid() && fresh(tree.repr)
      ensures this.leaves == leaves && count == |leaves| && this.hash == hash && this.depth == depth
    {
      this.hash, this.depth, this.count, this.leaves := hash, depth, |leaves|, leaves;
      tree := new BoxedTree(Create(hash, leaves, depth));
    }

    method Ingest(element: H256) returns (r: Result<H256>)
      requires Valid()
      modifies this`count, this`leaves, tree.repr
      ensures Valid() && fresh(tree.repr - old(tree.repr))
      ensures count == old(count) + 1
      ensures if old(|leaves|) < Pow2(depth) then
                leaves == old(leaves) + [element] && r == Ok(Root(hash, leaves, 0, depth))
              else
                leaves == old(leaves) && r == Err(TreeError(MerkleTreeFull))
    {
      PushRefinesCreate(hash, leaves, element, depth);
      count := count + 1;
      var outcome := tree.Push(hash, element, depth);
      if outcome.Rejected? {
        return Err(TreeError(outcome.error));
      }
      leaves := leaves + [element];
      CreateHasRoot(hash, leaves, depth);
      return Ok(tree.Tree().Hash(hash));
    }

    /** Ingest many; the program panics if the tree fills. */
    method Extend(elements: seq<H256>)
      requires Valid() && |leaves| + |elements| <= Pow2(depth)
      modifies this`count, this`leaves, tree.repr
      ensures Valid() && fresh(tree.repr - old(tree.repr))
      ensures leaves == old(leaves) + elements && count == old(count) + |elements|
    {
      for i := 0 to |elements|
        invariant Valid() && fresh(tree.repr - old(tree.repr))
        invariant leaves == old(leaves) + elements[..i] && count == old(count) + i
      {
        var r := Ingest(elements[i]);
        assert r.Ok?;
        assert elements[..i + 1] == elements[..i] + [elements[i]];
      }
      assert elements[..|elements|] == elements;
    }

    method CurrentRoot() returns (root: H256)
      requires Valid()
      ensures root == Root(hash, leaves, 0, depth)
    {
      CreateHasRoot(hash, leaves, depth);
      root := tree.Tree().Hash(hash);
    }

    /** Every request that passes the two checks gets the proof the tree of the first rootIndex + 1
        leaves gave, even after ingests that failed have pushed the count past the leaves. */
    method ProveAgainstPrevious(leafIndex: nat, rootIndex: nat) returns (r: Result<Proof>)
      requires Valid()
      requires rootIndex <= U32_MAX && rootIndex < count ==> leafIndex <= rootIndex
      ensures r == if rootIndex > U32_MAX then Err(IndexTooHigh(rootIndex))
                   else if rootIndex >= count then Err(ZeroProof(rootIndex, count))
                   else Ok(ProofAmong(hash, leaves[..rootIndex + 1], leafIndex, depth))
    {
      if rootIndex > U32_MAX {
        return Err(IndexTooHigh(rootIndex));
      }
      if rootIndex >= count {
        return Err(ZeroProof(rootIndex, count));
      }
      var proof := SparseTrees.ProveAgainstPrevious(hash, tree.Tree(), leafIndex, rootIndex, depth, leaves);
      return Ok(proof);
    }

    method Verify(proof: Proof) returns (r: Result<()>)
      requires Valid() && |proof.path| == depth
      ensures var actual := BranchRoot(hash, proof.leaf, PathOf(proof.path), Low(proof.index, depth));
              var expected := Root(hash, leaves, 0, depth);
              r == if actual == expected then Ok(()) else Err(VerificationFailed(expected, actual))
    {
      var actual := MerkleRootFromBranch(hash, proof.leaf, proof.path, depth, proof.index);
      var expected := CurrentRoot();
      if expected == actual {
        return Ok(());
      } else {
        return Err(VerificationFailed(expected, actual));
      }
    }
  }
}
