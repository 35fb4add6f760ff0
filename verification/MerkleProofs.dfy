/** Inclusion proofs: generation, evaluation, what they prove and what they bind. */
module MerkleProofs {
  import opened Bits
  import opened Hashing
  import opened MerkleTrees

  datatype Proof = Proof(leaf: H256, index: nat, path: seq<H256>)

  /** The siblings of a branch, the topmost outermost. A proof stores them as the list of their
      hashes in bottom-up order. */
  datatype Path = Bottom | Level(below: Path, sibling: H256) {
    function Length(): nat {
      if Bottom? then 0 else below.Length() + 1
    }

    function Hashes(): (hashes: seq<H256>)
      ensures |hashes| == Length()
    {
      if Bottom? then [] else below.Hashes() + [sibling]
    }
  }

  function PathOf(hashes: seq<H256>): (path: Path)
    ensures path.Length() == |hashes| && path.Hashes() == hashes
  {
    if hashes == [] then Bottom else Level(PathOf(hashes[..|hashes| - 1]), hashes[|hashes| - 1])
  }

  lemma PathOfHashes(path: Path)
    ensures PathOf(path.Hashes()) == path
  {
    if path.Level? {
      PathOfHashes(path.below);
      assert path.Hashes()[..path.below.Length()] == path.below.Hashes();
    }
  }

  lemma PathOfPrefix(hashes: seq<H256>, i: nat)
    requires i < |hashes|
    ensures PathOf(hashes[..i + 1]) == Level(PathOf(hashes[..i]), hashes[i])
  {
    assert hashes[..i + 1][..i] == hashes[..i];
  }

  // ----- Walking down a tree along the bits of an index -----

  /** Whether leaf `index` of 2^depth lies in the right half. */
  predicate GoesRight(index: nat, depth: nat)
    requires depth > 0
  {
    index >= Pow2(depth - 1)
  }

  /** Its index within its half. */
  function Rest(index: nat, depth: nat): nat
    requires depth > 0
  {
    if GoesRight(index, depth) then index - Pow2(depth - 1) else index
  }

  /** The half of the tree that holds leaf `index`. */
  function Near(t: MerkleTree, index: nat, depth: nat): MerkleTree
    requires depth > 0 && t.Branches().Some?
  {
    if GoesRight(index, depth) then t.Branches().value.1 else t.Branches().value.0
  }

  /** The half that does not. */
  function Far(t: MerkleTree, index: nat, depth: nat): MerkleTree
    requires depth > 0 && t.Branches().Some?
  {
    if GoesRight(index, depth) then t.Branches().value.0 else t.Branches().value.1
  }

  /** `depth` unwraps along `index` all find branches. */
  predicate Reaches(t: MerkleTree, index: nat, depth: nat)
    decreases depth
  {
    depth > 0 ==> t.Branches().Some? && Reaches(Near(t, index, depth), Rest(index, depth), depth - 1)
  }

  /** And they end at a leaf. */
  predicate ReachesLeaf(t: MerkleTree, index: nat, depth: nat) {
    Reaches(t, index, depth) && EndsAtLeaf(t, index, depth)
  }

  predicate EndsAtLeaf(t: MerkleTree, index: nat, depth: nat)
    requires Reaches(t, index, depth)
    decreases depth
  {
    if depth == 0 then t.Leaf? else EndsAtLeaf(Near(t, index, depth), Rest(index, depth), depth - 1)
  }

  /** The digest of the node reached. */
  function WalkLeaf(h: HashFn, t: MerkleTree, index: nat, depth: nat): H256
    requires Reaches(t, index, depth)
    decreases depth
  {
    if depth == 0 then t.Hash(h) else WalkLeaf(h, Near(t, index, depth), Rest(index, depth), depth - 1)
  }

  /** The hashes of the siblings passed, bottom-up. */
  function WalkPath(h: HashFn, t: MerkleTree, index: nat, depth: nat): (path: Path)
    requires Reaches(t, index, depth)
    ensures path.Length() == depth
    decreases depth
  {
    if depth == 0 then
      Bottom
    else
      Level(WalkPath(h, Near(t, index, depth), Rest(index, depth), depth - 1), Far(t, index, depth).Hash(h))
  }

  function Reversed<T>(s: seq<T>): (r: seq<T>)
    ensures |r| == |s|
    ensures forall k :: 0 <= k < |s| ==> r[k] == s[|s| - 1 - k]
  {
    if s == [] then [] else Reversed(s[1..]) + [s[0]]
  }

  /** One step down, decided by a single bit of the index. */
  lemma WalkStep(h: HashFn, t: MerkleTree, index: nat, i: nat)
    requires Reaches(t, Low(index, i + 1), i + 1)
    ensures t.Branches().Some?
    ensures var (left, right) := t.Branches().value;
            var (near, far) := if Bit(index, i) then (right, left) else (left, right);
            && Reaches(near, Low(index, i), i)
            && (EndsAtLeaf(t, Low(index, i + 1), i + 1) ==> EndsAtLeaf(near, Low(index, i), i))
            && WalkLeaf(h, t, Low(index, i + 1), i + 1) == WalkLeaf(h, near, Low(index, i), i)
            && WalkPath(h, t, Low(index, i + 1), i + 1) == Level(WalkPath(h, near, Low(index, i), i), far.Hash(h))
  {
    ShiftStep(index, i);
  }

  /** The loop tests single bits of the index; together they select leaf `Low(index, depth)`. That there
      is a leaf is asserted at the end. */
  method GenerateProof(h: HashFn, t: MerkleTree, index: nat, depth: nat) returns (leaf: H256, proof: seq<H256>)
    requires ReachesLeaf(t, Low(index, depth), depth)
    ensures leaf == WalkLeaf(h, t, Low(index, depth), depth)
    ensures proof == WalkPath(h, t, Low(index, depth), depth).Hashes()
  {
    ghost var hashes := WalkPath(h, t, Low(index, depth), depth).Hashes();
    proof := [];
    var currentNode: MerkleTree, currentDepth: nat := t, depth;
    while currentDepth > 0
      invariant currentDepth + |proof| == depth
      invariant Reaches(currentNode, Low(index, currentDepth), currentDepth)
      invariant EndsAtLeaf(currentNode, Low(index, currentDepth), currentDepth)
      invariant WalkLeaf(h, t, Low(index, depth), depth) == WalkLeaf(h, currentNode, Low(index, currentDepth), currentDepth)
      invariant WalkPath(h, currentNode, Low(index, currentDepth), currentDepth).Hashes() + Reversed(proof) == hashes
    {
      WalkStep(h, currentNode, index, currentDepth - 1);
      ghost var below, passed := WalkPath(h, currentNode, Low(index, currentDepth), currentDepth).below.Hashes(), proof;
      var (left, right) := currentNode.Branches().value;
      if Bit(index, currentDepth - 1) {
        proof := proof + [left.Hash(h)];
        currentNode := right;
      } else {
        proof := proof + [right.Hash(h)];
        currentNode := left;
      }
      ReversedPush(below, passed, proof[|passed|]);
      currentDepth := currentDepth - 1;
    }
    assert |proof| == depth && currentNode.Leaf?;
    proof := Reversed(proof);
    leaf := currentNode.Hash(h);
  }

  lemma ReversedPush<T>(below: seq<T>, s: seq<T>, x: T)
    ensures below + Reversed(s + [x]) == below + [x] + Reversed(s)
  {
  }

  // ----- Evaluating a proof -----

  /** The root that a leaf at `index` and its siblings imply. */
  function BranchRoot(h: HashFn, leaf: H256, path: Path, index: nat): H256 {
    match path
    case Bottom => leaf
    case Level(below, sibling) =>
      var root := BranchRoot(h, leaf, below, Rest(index, path.Length()));
      if GoesRight(index, path.Length()) then h(sibling, root) else h(root, sibling)
  }

  method MerkleRootFromBranch(h: HashFn, leaf: H256, branch: seq<H256>, depth: nat, index: nat) returns (current: H256)
    requires |branch| == depth
    ensures current == BranchRoot(h, leaf, PathOf(branch), Low(index, depth))
  {
    current := leaf;
    for i := 0 to depth
      invariant current == BranchRoot(h, leaf, PathOf(branch[..i]), Low(index, i))
    {
      ShiftStep(index, i);
      PathOfPrefix(branch, i);
      if Bit(index, i) {
        current := h(branch[i], current);
      } else {
        current := h(current, branch[i]);
      }
    }
    assert branch[..depth] == branch;
  }

  method VerifyMerkleProof(h: HashFn, leaf: H256, branch: seq<H256>, depth: nat, index: nat, root: H256)
    returns (ok: bool)
    ensures ok <==> |branch| == depth && BranchRoot(h, leaf, PathOf(branch), Low(index, depth)) == root
  {
    if |branch| == depth {
      var computed := MerkleRootFromBranch(h, leaf, branch, depth, index);
      return computed == root;
    }
    return false;
  }

  /** On any hash-consistent tree, evaluating a generated proof gives back the root hash. */
  lemma {:induction false} GeneratedProofEvaluates(h: HashFn, t: MerkleTree, index: nat, depth: nat)
    requires t.Consistent(h) && Reaches(t, index, depth)
    ensures BranchRoot(h, WalkLeaf(h, t, index, depth), WalkPath(h, t, index, depth), index) == t.Hash(h)
    decreases depth
  {
    if depth > 0 {
      GeneratedProofEvaluates(h, Near(t, index, depth), Rest(index, depth), depth - 1);
    }
  }

  // ----- What the proof of a leaf of a list must be -----

  /** Where the half of a block that holds leaf `index` of it starts. */
  function NearOffset(offset: nat, index: nat, depth: nat): nat
    requires depth > 0
  {
    if GoesRight(index, depth) then offset + Pow2(depth - 1) else offset
  }

  /** Where the other half starts. */
  function FarOffset(offset: nat, index: nat, depth: nat): nat
    requires depth > 0
  {
    if GoesRight(index, depth) then offset else offset + Pow2(depth - 1)
  }

  /** The roots of the sibling blocks of leaf `index` of the 2^depth leaves from `offset` on,
      bottom-up, computed from the leaves alone. */
  function Siblings(h: HashFn, leaves: seq<H256>, offset: nat, index: nat, depth: nat): (path: Path)
    ensures path.Length() == depth
    decreases depth
  {
    if depth == 0 then
      Bottom
    else
      Level(Siblings(h, leaves, NearOffset(offset, index, depth), Rest(index, depth), depth - 1),
            Root(h, leaves, FarOffset(offset, index, depth), depth - 1))
  }

  lemma {:induction false} SiblingsAgree(h: HashFn, a: seq<H256>, b: seq<H256>, offset: nat, index: nat, depth: nat)
    requires AgreeOn(a, b, offset, Pow2(depth)) && index < Pow2(depth)
    ensures Siblings(h, a, offset, index, depth) == Siblings(h, b, offset, index, depth)
    decreases depth
  {
    if depth > 0 {
      SiblingsAgree(h, a, b, NearOffset(offset, index, depth), Rest(index, depth), depth - 1);
      RootAgrees(h, a, b, FarOffset(offset, index, depth), depth - 1);
    }
  }

  lemma {:induction false} SiblingsOfSuffix(
    h: HashFn, leaves: seq<H256>, cut: nat, offset: nat, at: nat, index: nat, depth: nat
  )
    requires cut <= |leaves| && at == cut + offset
    ensures Siblings(h, leaves[cut..], offset, index, depth) == Siblings(h, leaves, at, index, depth)
    decreases depth
  {
    if depth > 0 {
      SiblingsOfSuffix(h, leaves, cut, NearOffset(offset, index, depth), NearOffset(at, index, depth),
                       Rest(index, depth), depth - 1);
      RootOfSuffix(h, leaves, cut, FarOffset(offset, index, depth), FarOffset(at, index, depth), depth - 1);
    }
  }

  /** Walking `t` to `index` gives that leaf of the block at `offset`, and its siblings. */
  ghost predicate Proves(h: HashFn, t: MerkleTree, leaves: seq<H256>, offset: nat, index: nat, depth: nat) {
    && Reaches(t, index, depth)
    && WalkLeaf(h, t, index, depth) == LeafAt(leaves, offset + index)
    && WalkPath(h, t, index, depth) == Siblings(h, leaves, offset, index, depth)
  }

  /** One level of `Proves`, on any tree whose far half has the right hash. */
  lemma ProvesStep(h: HashFn, t: MerkleTree, leaves: seq<H256>, offset: nat, index: nat, depth: nat)
    requires depth > 0 && t.Branches().Some?
    requires Far(t, index, depth).Hash(h) == Root(h, leaves, FarOffset(offset, index, depth), depth - 1)
    requires Proves(h, Near(t, index, depth), leaves, NearOffset(offset, index, depth), Rest(index, depth), depth - 1)
    ensures Proves(h, t, leaves, offset, index, depth)
  {
  }

  lemma {:induction false} ZeroTreeProves(h: HashFn, leaves: seq<H256>, offset: nat, index: nat, depth: nat)
    requires |leaves| <= offset
    ensures Proves(h, Zero(depth), leaves, offset, index, depth)
    decreases depth
  {
    if depth > 0 {
      ZeroTreeProves(h, leaves, NearOffset(offset, index, depth), Rest(index, depth), depth - 1);
      RootOfZeros(h, leaves, FarOffset(offset, index, depth), depth - 1);
      ProvesStep(h, Zero(depth), leaves, offset, index, depth);
    }
  }

  /** What the tree of a part proves of the part, it proves of the whole list. */
  lemma LeftPartProves(h: HashFn, t: MerkleTree, leaves: seq<H256>, index: nat, depth: nat)
    requires index < Pow2(depth) && Proves(h, t, LeftPart(leaves, Pow2(depth)), 0, index, depth)
    ensures Proves(h, t, leaves, 0, index, depth)
  {
    SiblingsAgree(h, LeftPart(leaves, Pow2(depth)), leaves, 0, index, depth);
  }

  lemma RightPartProves(h: HashFn, t: MerkleTree, leaves: seq<H256>, index: nat, depth: nat)
    requires index < Pow2(depth) && Proves(h, t, RightPart(leaves, Pow2(depth)), 0, index, depth)
    ensures Proves(h, t, leaves, Pow2(depth), index, depth)
  {
    var capacity := Pow2(depth);
    if |leaves| <= capacity {
      SiblingsOfZeros(h, [], 0, leaves, capacity, index, depth);
    } else {
      SiblingsOfSuffix(h, leaves, capacity, 0, capacity, index, depth);
    }
  }

  lemma {:induction false} SiblingsOfZeros(h: HashFn, a: seq<H256>, p: nat, b: seq<H256>, q: nat, index: nat, depth: nat)
    requires |a| <= p && |b| <= q
    ensures Siblings(h, a, p, index, depth) == Siblings(h, b, q, index, depth)
    decreases depth
  {
    if depth > 0 {
      SiblingsOfZeros(h, a, NearOffset(p, index, depth), b, NearOffset(q, index, depth), Rest(index, depth), depth - 1);
      RootOfZeros(h, a, FarOffset(p, index, depth), depth - 1);
      RootOfZeros(h, b, FarOffset(q, index, depth), depth - 1);
    }
  }

  /** The tree of `leaves` proves the leaf at any index the depth allows. */
  lemma {:induction false} CreatedProves(h: HashFn, leaves: seq<H256>, index: nat, depth: nat)
    requires |leaves| <= Pow2(depth) && index < Pow2(depth)
    ensures Proves(h, Create(h, leaves, depth), leaves, 0, index, depth)
    decreases depth, 1
  {
    if leaves == [] {
      ZeroTreeProves(h, leaves, 0, index, depth);
    } else if depth > 0 {
      var left, right := CreatedHalves(h, leaves, depth);
      if GoesRight(index, depth) {
        RightHalfProves(h, leaves, Rest(index, depth), depth - 1);
      } else {
        LeftHalfProves(h, leaves, index, depth - 1);
      }
      NodeProves(h, left, right, leaves, index, depth);
    }
  }

  /** At an index below their number, it is a leaf that is reached. */
  lemma {:induction false} CreatedReachesLeaf(h: HashFn, leaves: seq<H256>, index: nat, depth: nat)
    requires index < |leaves| <= Pow2(depth)
    ensures ReachesLeaf(Create(h, leaves, depth), index, depth)
    decreases depth
  {
    if depth > 0 {
      if GoesRight(index, depth) {
        CreatedReachesLeaf(h, RightPart(leaves, Pow2(depth - 1)), Rest(index, depth), depth - 1);
      } else {
        CreatedReachesLeaf(h, LeftPart(leaves, Pow2(depth - 1)), index, depth - 1);
      }
    }
  }

  lemma LeftHalfProves(h: HashFn, leaves: seq<H256>, index: nat, depth: nat)
    requires index < Pow2(depth)
    ensures Proves(h, Create(h, LeftPart(leaves, Pow2(depth)), depth), leaves, 0, index, depth)
    decreases depth, 2
  {
    CreatedProves(h, LeftPart(leaves, Pow2(depth)), index, depth);
    LeftPartProves(h, Create(h, LeftPart(leaves, Pow2(depth)), depth), leaves, index, depth);
  }

  lemma RightHalfProves(h: HashFn, leaves: seq<H256>, index: nat, depth: nat)
    requires |leaves| <= Pow2(depth + 1) && index < Pow2(depth)
    ensures Proves(h, Create(h, RightPart(leaves, Pow2(depth)), depth), leaves, Pow2(depth), index, depth)
    decreases depth, 2
  {
    CreatedProves(h, RightPart(leaves, Pow2(depth)), index, depth);
    RightPartProves(h, Create(h, RightPart(leaves, Pow2(depth)), depth), leaves, index, depth);
  }

  lemma LeftHalfRoot(h: HashFn, leaves: seq<H256>, depth: nat)
    ensures Create(h, LeftPart(leaves, Pow2(depth)), depth).Hash(h) == Root(h, leaves, 0, depth)
  {
    CreateHasRoot(h, LeftPart(leaves, Pow2(depth)), depth);
    RootOfParts(h, leaves, depth);
  }

  lemma RightHalfRoot(h: HashFn, leaves: seq<H256>, depth: nat)
    requires |leaves| <= Pow2(depth + 1)
    ensures Create(h, RightPart(leaves, Pow2(depth)), depth).Hash(h) == Root(h, leaves, Pow2(depth), depth)
  {
    CreateHasRoot(h, RightPart(leaves, Pow2(depth)), depth);
    RootOfParts(h, leaves, depth);
  }

  lemma CreatedHalves(h: HashFn, leaves: seq<H256>, depth: nat) returns (left: MerkleTree, right: MerkleTree)
    requires depth > 0 && 0 < |leaves| <= Pow2(depth)
    ensures left == Create(h, LeftPart(leaves, Pow2(depth - 1)), depth - 1)
    ensures right == Create(h, RightPart(leaves, Pow2(depth - 1)), depth - 1)
    ensures Create(h, leaves, depth) == Rehashed(h, left, right)
    ensures left.Hash(h) == Root(h, leaves, 0, depth - 1) && right.Hash(h) == Root(h, leaves, Pow2(depth - 1), depth - 1)
  {
    LeftHalfRoot(h, leaves, depth - 1);
    RightHalfRoot(h, leaves, depth - 1);
    left := Create(h, LeftPart(leaves, Pow2(depth - 1)), depth - 1);
    right := Create(h, RightPart(leaves, Pow2(depth - 1)), depth - 1);
  }

  lemma NodeProves(h: HashFn, left: MerkleTree, right: MerkleTree, leaves: seq<H256>, index: nat, depth: nat)
    requires depth > 0
    requires left.Hash(h) == Root(h, leaves, 0, depth - 1) && right.Hash(h) == Root(h, leaves, Pow2(depth - 1), depth - 1)
    requires if GoesRight(index, depth) then Proves(h, right, leaves, Pow2(depth - 1), Rest(index, depth), depth - 1)
             else Proves(h, left, leaves, 0, Rest(index, depth), depth - 1)
    ensures Proves(h, Rehashed(h, left, right), leaves, 0, index, depth)
  {
    ProvesStep(h, Rehashed(h, left, right), leaves, 0, index, depth);
  }

  /** Evaluating a leaf with its siblings gives the root of the block. */
  lemma {:induction false} SiblingsEvaluate(h: HashFn, leaves: seq<H256>, offset: nat, index: nat, depth: nat)
    requires index < Pow2(depth)
    ensures BranchRoot(h, LeafAt(leaves, offset + index), Siblings(h, leaves, offset, index, depth), index)
            == Root(h, leaves, offset, depth)
    decreases depth
  {
    if depth > 0 {
      SiblingsEvaluate(h, leaves, NearOffset(offset, index, depth), Rest(index, depth), depth - 1);
    }
  }

  /** Round trip: the proof generated for a leaf carries it, and evaluates to the tree's hash. */
  lemma ProofRoundTrip(h: HashFn, leaves: seq<H256>, index: nat, depth: nat)
    requires index < |leaves| <= Pow2(depth)
    ensures var t := Create(h, leaves, depth);
            && Reaches(t, index, depth)
            && WalkLeaf(h, t, index, depth) == leaves[index]
            && BranchRoot(h, leaves[index], WalkPath(h, t, index, depth), index) == t.Hash(h) == Root(h, leaves, 0, depth)
  {
    CreatedProves(h, leaves, index, depth);
    CreateHasRoot(h, leaves, depth);
    SiblingsEvaluate(h, leaves, 0, index, depth);
  }

  // ----- Binding -----

  /** The last pair hashed while evaluating a branch. */
  ghost function TopPair(h: HashFn, leaf: H256, path: Path, index: nat): Pair
    requires path.Level?
  {
    var root := BranchRoot(h, leaf, path.below, Rest(index, path.Length()));
    if GoesRight(index, path.Length()) then (path.sibling, root) else (root, path.sibling)
  }

  /** All pairs hashed while evaluating a branch are among `pairs`. */
  ghost predicate BranchHashes(h: HashFn, leaf: H256, path: Path, index: nat, pairs: set<Pair>) {
    path.Level? ==>
      && TopPair(h, leaf, path, index) in pairs
      && BranchHashes(h, leaf, path.below, Rest(index, path.Length()), pairs)
  }

  /** Two branches of one index and length with one root are the same branch, unless two of the
      pairs hashed on the way collide. */
  lemma {:induction false} BranchBinding(
    h: HashFn, leaf: H256, path: Path, leaf': H256, path': Path, index: nat, pairs: set<Pair>
  )
    requires path.Length() == path'.Length()
    requires BranchRoot(h, leaf, path, index) == BranchRoot(h, leaf', path', index)
    requires BranchHashes(h, leaf, path, index, pairs) && BranchHashes(h, leaf', path', index, pairs)
    requires CollisionFree(h, pairs)
    ensures leaf == leaf' && path == path'
  {
    if path.Level? {
      assert TopPair(h, leaf, path, index) == TopPair(h, leaf', path', index);
      BranchBinding(h, leaf, path.below, leaf', path'.below, Rest(index, path.Length()), pairs);
    }
  }

  /** So a proof that evaluates to the root of a list proves a leaf of that list, with its path. */
  lemma AcceptedProofIsGenerated(h: HashFn, leaves: seq<H256>, index: nat, leaf: H256, path: Path, pairs: set<Pair>)
    requires index < |leaves| <= Pow2(path.Length())
    requires BranchRoot(h, leaf, path, index) == Root(h, leaves, 0, path.Length())
    requires BranchHashes(h, leaf, path, index, pairs)
    requires BranchHashes(h, leaves[index], Siblings(h, leaves, 0, index, path.Length()), index, pairs)
    requires CollisionFree(h, pairs)
    ensures leaf == leaves[index] && path == Siblings(h, leaves, 0, index, path.Length())
  {
    SiblingsEvaluate(h, leaves, 0, index, path.Length());
    BranchBinding(h, leaf, path, leaves[index], Siblings(h, leaves, 0, index, path.Length()), index, pairs);
  }

  /** All pairs hashed while computing a root are among `pairs`. */
  ghost predicate RootHashes(h: HashFn, leaves: seq<H256>, offset: nat, depth: nat, pairs: set<Pair>)
    decreases depth
  {
    depth > 0 ==>
      && (Root(h, leaves, offset, depth - 1), Root(h, leaves, offset + Pow2(depth - 1), depth - 1)) in pairs
      && RootHashes(h, leaves, offset, depth - 1, pairs)
      && RootHashes(h, leaves, offset + Pow2(depth - 1), depth - 1, pairs)
  }

  /** The last pairs hashed for two equal roots do not collide, so they are one. */
  lemma HalvesAreBound(h: HashFn, a: seq<H256>, b: seq<H256>, offset: nat, depth: nat, pairs: set<Pair>)
    requires depth > 0 && Root(h, a, offset, depth) == Root(h, b, offset, depth)
    requires RootHashes(h, a, offset, depth, pairs) && RootHashes(h, b, offset, depth, pairs)
    requires CollisionFree(h, pairs)
    ensures var right := offset + Pow2(depth - 1);
            && Root(h, a, offset, depth - 1) == Root(h, b, offset, depth - 1)
            && Root(h, a, right, depth - 1) == Root(h, b, right, depth - 1)
  {
    var right := offset + Pow2(depth - 1);
    var p := (Root(h, a, offset, depth - 1), Root(h, a, right, depth - 1));
    var q := (Root(h, b, offset, depth - 1), Root(h, b, right, depth - 1));
    assert p in pairs && q in pairs && h(p.0, p.1) == h(q.0, q.1);
  }

  lemma HalvesAgree(a: seq<H256>, b: seq<H256>, offset: nat, depth: nat)
    requires depth > 0
    requires AgreeOn(a, b, offset, Pow2(depth - 1)) && AgreeOn(a, b, offset + Pow2(depth - 1), Pow2(depth - 1))
    ensures AgreeOn(a, b, offset, Pow2(depth))
  {
  }

  lemma {:induction false} BlockBinding(h: HashFn, a: seq<H256>, b: seq<H256>, offset: nat, depth: nat, pairs: set<Pair>)
    requires Root(h, a, offset, depth) == Root(h, b, offset, depth)
    requires RootHashes(h, a, offset, depth, pairs) && RootHashes(h, b, offset, depth, pairs)
    requires CollisionFree(h, pairs)
    ensures AgreeOn(a, b, offset, Pow2(depth))
    decreases depth
  {
    if depth > 0 {
      var right := offset + Pow2(depth - 1);
      HalvesAreBound(h, a, b, offset, depth, pairs);
      BlockBinding(h, a, b, offset, depth - 1, pairs);
      BlockBinding(h, a, b, right, depth - 1, pairs);
      HalvesAgree(a, b, offset, depth);
    }
  }

  /** Equally many leaves with the same root are the same leaves, unless two of the pairs hashed
      for the two roots collide. */
  lemma RootBinding(h: HashFn, a: seq<H256>, b: seq<H256>, depth: nat, pairs: set<Pair>)
    requires |a| == |b| <= Pow2(depth)
    requires Root(h, a, 0, depth) == Root(h, b, 0, depth)
    requires RootHashes(h, a, 0, depth, pairs) && RootHashes(h, b, 0, depth, pairs)
    requires CollisionFree(h, pairs)
    ensures a == b
  {
    BlockBinding(h, a, b, 0, depth, pairs);
    forall k | 0 <= k < |a|
      ensures a[k] == b[k]
    {
      assert LeafAt(a, k) == LeafAt(b, k);
    }
  }

  /** Equal lengths are needed: zero leaves at the end are invisible to the root. */
  lemma RootForgetsLength(h: HashFn, leaves: seq<H256>, depth: nat)
    ensures leaves + [0] != leaves && Root(h, leaves + [0], 0, depth) == Root(h, leaves, 0, depth)
  {
    ZeroPaddingKeepsRoot(h, leaves, [0], depth);
  }
}
