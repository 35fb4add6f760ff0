/** The 32-slot incremental tree: a binary counter of complete subtree roots. */
module Incremental {
  import opened Bits
  import opened Hashing
  import opened MerkleTrees
  import opened MerkleProofs

  /** Where the complete block of 2^i leaves that slot i holds starts, once bit i of `count` is set. */
  function BlockStart(count: nat, i: nat): nat {
    count - Low(count, i + 1)
  }

  /** Slot i, if in use, holds the root of its block of leaves; if not, it holds anything. */
  ghost predicate SlotHolds(h: HashFn, branch: seq<H256>, leaves: seq<H256>, i: nat)
    requires i < |branch|
  {
    Bit(|leaves|, i) ==> branch[i] == Root(h, leaves, BlockStart(|leaves|, i), i)
  }

  ghost predicate Represents(h: HashFn, branch: seq<H256>, leaves: seq<H256>) {
    forall i :: 0 <= i < |branch| ==> SlotHolds(h, branch, leaves, i)
  }

  class IncrementalMerkle {
    const hash: HashFn
    const depth: nat
    var branch: array<H256>
    var count: nat
    ghost var leaves: seq<H256>

    ghost predicate Valid()
      reads this, branch
    {
      && branch.Length == depth && Pow2(depth) == U32_MAX + 1
      && count == |leaves| <= U32_MAX
      && Represents(hash, branch[..], leaves)
    }

    constructor (hash: HashFn, depth: nat)
      requires Pow2(depth) == U32_MAX + 1
      ensures Valid() && fresh(branch) && leaves == [] && this.hash == hash && this.depth == depth
    {
      this.hash, this.depth := hash, depth;
      branch := new H256[depth](i => ZeroHash(hash, i));
      count, leaves := 0, [];
      new;
      forall i | 0 <= i < depth
        ensures SlotHolds(hash, branch[..], leaves, i)
      {
        SmallNumber(0, i);
      }
    }

    /** Append a leaf. The loop always leaves through its `return`: a count below 2^depth has a bit. */
    method Ingest(element: H256)
      requires Valid() && count < U32_MAX
      modifies this`count, this`leaves, branch
      ensures Valid() && leaves == old(leaves) + [element] && count == old(count) + 1
    {
      ghost var before, slots := leaves, branch[..];
      var node := element;
      count := count + 1;
      leaves := leaves + [element];
      var size := count;
      for i := 0 to depth
        invariant size == Shr(count, i)
        invariant CarryReaches(hash, before, element, i, node)
        invariant branch[..] == slots && leaves == before + [element] && count == |leaves|
      {
        ShiftStep(count, i);
        CarryStep(hash, slots, before, element, i, node);
        if size % 2 == 1 {
          branch[i] := node;
          assert branch[..] == slots[i := node];
          return;
        }
        node := hash(branch[i], node);
        size := size / 2;
      }
      CarryEnds(hash, before, element, depth, node);
      assert false;
    }

    /** The root of the leaves ingested so far. */
    method CurrentRoot() returns (node: H256)
      requires Valid()
      ensures node == Root(hash, leaves, 0, depth)
    {
      node := 0;
      var size := count;
      for i := 0 to depth
        invariant size == Shr(count, i)
        invariant FoldedTo(hash, leaves, i, node)
      {
        ShiftStep(count, i);
        FoldStep(hash, branch[..], leaves, i, node);
        if size % 2 == 1 {
          node := hash(branch[i], node);
        } else {
          node := hash(node, ZeroHash(hash, i));
        }
        size := size / 2;
      }
      SmallNumber(count, depth);
    }

    method Index() returns (index: nat)
      requires Valid() && count > 0
      ensures index == |leaves| - 1
    {
      index := count - 1;
    }

    /** Accept exactly the proofs that evaluate to the current root. */
    method Verify(proof: Proof) returns (ok: bool)
      requires Valid() && |proof.path| == depth
      ensures ok <==> BranchRoot(hash, proof.leaf, PathOf(proof.path), Low(proof.index, depth)) == Root(hash, leaves, 0, depth)
    {
      var computed := MerkleRootFromBranch(hash, proof.leaf, proof.path, depth, proof.index);
      var root := CurrentRoot();
      ok := computed == root;
    }
  }

  /** Ingesting leaf by leaf gives the root of the full tree created from all of them. */
  method RootByIngesting(h: HashFn, depth: nat, leaves: seq<H256>) returns (root: H256)
    requires Pow2(depth) == U32_MAX + 1 && |leaves| <= U32_MAX
    ensures root == Create(h, leaves, depth).Hash(h)
  {
    var tree := new IncrementalMerkle(h, depth);
    for i := 0 to |leaves|
      invariant tree.Valid() && tree.hash == h && tree.depth == depth && tree.leaves == leaves[..i]
      invariant fresh(tree) && fresh(tree.branch)
    {
      assert leaves[..i + 1] == leaves[..i] + [leaves[i]];
      tree.Ingest(leaves[i]);
    }
    assert leaves[..|leaves|] == leaves;
    CreateHasRoot(h, leaves, depth);
    root := tree.CurrentRoot();
  }

  /** `node` is the root of the leaves past the complete blocks of 2^i. */
  ghost predicate FoldedTo(h: HashFn, leaves: seq<H256>, i: nat, node: H256) {
    node == Root(h, leaves, |leaves| - Low(|leaves|, i), i)
  }

  lemma FoldStep(h: HashFn, slots: seq<H256>, leaves: seq<H256>, i: nat, node: H256)
    requires i < |slots| && Represents(h, slots, leaves) && FoldedTo(h, leaves, i, node)
    ensures FoldedTo(h, leaves, i + 1, if Bit(|leaves|, i) then h(slots[i], node) else h(node, ZeroHash(h, i)))
  {
    if Bit(|leaves|, i) {
      assert SlotHolds(h, slots, leaves, i);
      FoldSlot(h, leaves, i, slots[i], node);
    } else {
      FoldZeros(h, leaves, i, node);
    }
  }

  lemma FoldSlot(h: HashFn, leaves: seq<H256>, i: nat, slot: H256, node: H256)
    requires Bit(|leaves|, i) && slot == Root(h, leaves, BlockStart(|leaves|, i), i) && FoldedTo(h, leaves, i, node)
    ensures FoldedTo(h, leaves, i + 1, h(slot, node))
  {
    ShiftStep(|leaves|, i);
  }

  lemma FoldZeros(h: HashFn, leaves: seq<H256>, i: nat, node: H256)
    requires !Bit(|leaves|, i) && FoldedTo(h, leaves, i, node)
    ensures FoldedTo(h, leaves, i + 1, h(node, ZeroHash(h, i)))
  {
    ShiftStep(|leaves|, i);
    RootOfZeros(h, leaves, |leaves| - Low(|leaves|, i) + Pow2(i), i);
  }

  /** The low i bits of the old count are ones, and `node` is the root of the last 2^i leaves. */
  ghost predicate CarryReaches(h: HashFn, before: seq<H256>, element: H256, i: nat, node: H256) {
    && Low(|before|, i) + 1 == Pow2(i)
    && node == Root(h, before + [element], |before| - Low(|before|, i), i)
  }

  /** At slot `i` the carry stops, and filling the slot is all that was missing, or it goes on with
      the block that the slot holds. */
  lemma CarryStep(h: HashFn, slots: seq<H256>, before: seq<H256>, element: H256, i: nat, node: H256)
    requires i < |slots| && Represents(h, slots, before) && CarryReaches(h, before, element, i, node)
    ensures Bit(|before| + 1, i) ==> Represents(h, slots[i := node], before + [element])
    ensures !Bit(|before| + 1, i) ==> CarryReaches(h, before, element, i + 1, h(slots[i], node))
  {
    Increment(|before|, i);
    if Bit(|before| + 1, i) {
      var filled := slots[i := node];
      forall k | 0 <= k < |filled|
        ensures SlotHolds(h, filled, before + [element], k)
      {
        SlotAfterIngest(h, slots, before, element, i, node, k);
      }
    } else {
      CarryGoesOn(h, slots, before, element, i, node);
    }
  }

  lemma CarryGoesOn(h: HashFn, slots: seq<H256>, before: seq<H256>, element: H256, i: nat, node: H256)
    requires i < |slots| && SlotHolds(h, slots, before, i) && CarryReaches(h, before, element, i, node)
    requires Bit(|before|, i)
    ensures CarryReaches(h, before, element, i + 1, h(slots[i], node))
  {
    ShiftStep(|before|, i);
    BlockKeepsRoot(h, before, element, i);
    assert |before| - Low(|before|, i + 1) == BlockStart(|before|, i);
  }

  lemma SlotAfterIngest(h: HashFn, slots: seq<H256>, before: seq<H256>, element: H256, i: nat, node: H256, k: nat)
    requires i < |slots| && k < |slots| && Represents(h, slots, before) && CarryReaches(h, before, element, i, node)
    requires !Bit(|before|, i)
    ensures SlotHolds(h, slots[i := node], before + [element], k)
  {
    if k < i {
      OnesBelow(|before|, k, i);
    } else if k == i {
      FilledSlotHolds(h, slots, before, element, i, node);
    } else {
      assert SlotHolds(h, slots, before, k);
      HigherSlotStays(h, slots, before, element, i, node, k);
    }
  }

  lemma FilledSlotHolds(h: HashFn, slots: seq<H256>, before: seq<H256>, element: H256, i: nat, node: H256)
    requires i < |slots| && CarryReaches(h, before, element, i, node) && !Bit(|before|, i)
    ensures SlotHolds(h, slots[i := node], before + [element], i)
  {
    var n := |before|;
    ShiftStep(n, i);
    Increment(n, i + 1);
    assert BlockStart(n + 1, i) == n - Low(n, i);
  }

  lemma HigherSlotStays(h: HashFn, slots: seq<H256>, before: seq<H256>, element: H256, i: nat, node: H256, k: nat)
    requires i < k < |slots| && SlotHolds(h, slots, before, k) && !Bit(|before|, i)
    ensures SlotHolds(h, slots[i := node], before + [element], k)
  {
    var n := |before|;
    ZeroStopsCarry(n, i, k);
    ZeroStopsCarry(n, i, k + 1);
    assert BlockStart(n + 1, k) == BlockStart(n, k);
    if Bit(n, k) {
      BlockKeepsRoot(h, before, element, k);
    }
  }

  /** A complete block is not touched by what is appended. */
  lemma BlockKeepsRoot(h: HashFn, before: seq<H256>, element: H256, k: nat)
    requires Bit(|before|, k)
    ensures Root(h, before + [element], BlockStart(|before|, k), k) == Root(h, before, BlockStart(|before|, k), k)
  {
    ShiftStep(|before|, k);
    RootAgrees(h, before, before + [element], BlockStart(|before|, k), k);
  }

  /** If the low i bits are all ones, incrementing clears each of them. */
  lemma {:induction false} OnesBelow(n: nat, k: nat, i: nat)
    requires k < i && Low(n, i) + 1 == Pow2(i)
    ensures !Bit(n + 1, k)
    decreases i
  {
    ShiftStep(n, i - 1);
    Increment(n, k);
    if k < i - 1 {
      OnesBelow(n, k, i - 1);
    }
  }

  /** A zero bit i keeps the carry away from everything above: bit k and the bits below k only grow
      by the one. */
  lemma {:induction false} ZeroStopsCarry(n: nat, i: nat, k: nat)
    requires i < k && !Bit(n, i)
    ensures Low(n + 1, k) == Low(n, k) + 1 && Bit(n + 1, k) == Bit(n, k)
    decreases k
  {
    ShiftStep(n, k - 1);
    Increment(n, k);
    if i < k - 1 {
      ZeroStopsCarry(n, i, k - 1);
    }
  }

  /** A carry through every slot would need more leaves than the tree has room for. */
  lemma CarryEnds(h: HashFn, before: seq<H256>, element: H256, depth: nat, node: H256)
    requires |before| + 1 < Pow2(depth)
    ensures !CarryReaches(h, before, element, depth, node)
  {
    SmallNumber(|before|, depth);
  }
}
