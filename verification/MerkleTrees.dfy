/** The right-sparse Merkle tree: construction, the root it stands for, and pushing a leaf. */
module MerkleTrees {
  import opened Wrappers
  import opened Bits
  import opened Hashing

  datatype MerkleTree =
    | Leaf(digest: H256)
    | Node(digest: H256, left: MerkleTree, right: MerkleTree)
    | Zero(depth: nat)
  {
    function Hash(h: HashFn): H256 {
      match this
      case Leaf(d) => d
      case Node(d, _, _) => d
      case Zero(depth) => ZeroHash(h, depth)
    }

    /** Every node stores the hash of its children. */
    ghost predicate Consistent(h: HashFn) {
      Node? ==> digest == h(left.Hash(h), right.Hash(h)) && left.Consistent(h) && right.Consistent(h)
    }

    /** The children of a tree; a zero tree has two synthetic ones, a leaf none. */
    function Branches(): Option<(MerkleTree, MerkleTree)> {
      match this
      case Leaf(_) => None
      case Node(_, l, r) => Some((l, r))
      case Zero(depth) => if depth == 0 then None else Some((Zero(depth - 1), Zero(depth - 1)))
    }
  }

  /** The leaves that go to the left subtree when each subtree takes up to `capacity` of them. */
  function LeftPart(leaves: seq<H256>, capacity: nat): seq<H256> {
    if |leaves| <= capacity then leaves else leaves[..capacity]
  }

  function RightPart(leaves: seq<H256>, capacity: nat): seq<H256> {
    if |leaves| <= capacity then [] else leaves[capacity..]
  }

  function Create(h: HashFn, leaves: seq<H256>, depth: nat): (t: MerkleTree)
    requires |leaves| <= Pow2(depth)
    decreases depth
  {
    if leaves == [] then
      Zero(depth)
    else if depth == 0 then
      Leaf(leaves[0])
    else
      var capacity := Pow2(depth - 1);
      var left := Create(h, LeftPart(leaves, capacity), depth - 1);
      var right := Create(h, RightPart(leaves, capacity), depth - 1);
      Node(h(left.Hash(h), right.Hash(h)), left, right)
  }

  // ----- What the root of a list of leaves is, independently of any tree -----

  /** The leaf at `index`, or zero past the end. */
  function LeafAt(leaves: seq<H256>, index: nat): H256 {
    if index < |leaves| then leaves[index] else 0
  }

  /** The root over the 2^depth leaves from `offset` on, of `leaves` followed by zeros for ever. */
  function Root(h: HashFn, leaves: seq<H256>, offset: nat, depth: nat): H256
    decreases depth
  {
    if depth == 0 then
      LeafAt(leaves, offset)
    else
      h(Root(h, leaves, offset, depth - 1), Root(h, leaves, offset + Pow2(depth - 1), depth - 1))
  }

  ghost predicate AgreeOn(a: seq<H256>, b: seq<H256>, offset: nat, count: nat) {
    forall k :: offset <= k < offset + count ==> LeafAt(a, k) == LeafAt(b, k)
  }

  lemma {:induction false} RootAgrees(h: HashFn, a: seq<H256>, b: seq<H256>, offset: nat, depth: nat)
    requires AgreeOn(a, b, offset, Pow2(depth))
    ensures Root(h, a, offset, depth) == Root(h, b, offset, depth)
    decreases depth
  {
    if depth > 0 {
      RootAgrees(h, a, b, offset, depth - 1);
      RootAgrees(h, a, b, offset + Pow2(depth - 1), depth - 1);
    }
  }

  lemma {:induction false} RootOfZeros(h: HashFn, leaves: seq<H256>, offset: nat, depth: nat)
    requires |leaves| <= offset
    ensures Root(h, leaves, offset, depth) == ZeroHash(h, depth)
    decreases depth
  {
    if depth > 0 {
      RootOfZeros(h, leaves, offset, depth - 1);
      RootOfZeros(h, leaves, offset + Pow2(depth - 1), depth - 1);
    }
  }

  lemma {:induction false} RootOfSuffix(h: HashFn, leaves: seq<H256>, cut: nat, offset: nat, at: nat, depth: nat)
    requires cut <= |leaves| && at == cut + offset
    ensures Root(h, leaves[cut..], offset, depth) == Root(h, leaves, at, depth)
    decreases depth
  {
    if depth > 0 {
      RootOfSuffix(h, leaves, cut, offset, at, depth - 1);
      RootOfSuffix(h, leaves, cut, offset + Pow2(depth - 1), at + Pow2(depth - 1), depth - 1);
    }
  }

  /** The roots of the two parts are the two halves of the root. */
  lemma RootOfParts(h: HashFn, leaves: seq<H256>, depth: nat)
    ensures Root(h, LeftPart(leaves, Pow2(depth)), 0, depth) == Root(h, leaves, 0, depth)
    ensures Root(h, RightPart(leaves, Pow2(depth)), 0, depth) == Root(h, leaves, Pow2(depth), depth)
  {
    var capacity := Pow2(depth);
    RootAgrees(h, LeftPart(leaves, capacity), leaves, 0, depth);
    if |leaves| <= capacity {
      RootOfZeros(h, [], 0, depth);
      RootOfZeros(h, leaves, capacity, depth);
    } else {
      RootOfSuffix(h, leaves, capacity, 0, capacity, depth);
    }
  }

  /** The sparse tree has the root of the zero-padded perfect tree, and its hashes are consistent. */
  lemma {:induction false} CreateHasRoot(h: HashFn, leaves: seq<H256>, depth: nat)
    requires |leaves| <= Pow2(depth)
    ensures Create(h, leaves, depth).Hash(h) == Root(h, leaves, 0, depth)
    ensures Create(h, leaves, depth).Consistent(h)
    decreases depth
  {
    if leaves == [] {
      RootOfZeros(h, leaves, 0, depth);
    } else if depth > 0 {
      CreateHasRoot(h, LeftPart(leaves, Pow2(depth - 1)), depth - 1);
      CreateHasRoot(h, RightPart(leaves, Pow2(depth - 1)), depth - 1);
      RootOfParts(h, leaves, depth - 1);
    }
  }

  /** Explicit zero leaves and missing leaves give the same root. */
  lemma ZeroPaddingKeepsRoot(h: HashFn, leaves: seq<H256>, zeros: seq<H256>, depth: nat)
    requires forall k :: 0 <= k < |zeros| ==> zeros[k] == 0
    ensures Root(h, leaves + zeros, 0, depth) == Root(h, leaves, 0, depth)
  {
    RootAgrees(h, leaves + zeros, leaves, 0, depth);
  }

  // ----- Pushing a leaf -----

  datatype MerkleTreeError = LeafReached | MerkleTreeFull | Invalid | DepthTooSmall
  datatype PushOutcome = Pushed | Rejected(error: MerkleTreeError)

  /** The tree and the outcome that pushing `elem` leaves behind. */
  function PushLeaf(h: HashFn, t: MerkleTree, elem: H256, depth: nat): (r: (MerkleTree, PushOutcome))
    ensures r.1.Rejected? ==> r.0 == t
    decreases t, 1
  {
    if depth == 0 then
      (t, Rejected(DepthTooSmall))
    else
      match t
      case Leaf(_) => (t, Rejected(LeafReached))
      case Zero(_) => (Create(h, [elem], depth), Pushed)
      case Node(_, _, _) =>
        var (left, right, outcome) := PushBelow(h, t, elem, depth);
        if outcome.Pushed? then (Rehashed(h, left, right), Pushed) else (t, outcome)
  }

  /** What the push does to the two children of a node. */
  function PushBelow(h: HashFn, t: MerkleTree, elem: H256, depth: nat): (r: (MerkleTree, MerkleTree, PushOutcome))
    requires t.Node? && depth > 0
    ensures r.2.Rejected? ==> r.0 == t.left && r.1 == t.right
    decreases t, 0
  {
    match (t.left, t.right)
    case (Leaf(_), Leaf(_)) => (t.left, t.right, Rejected(MerkleTreeFull))
    case (Node(_, _, _), Node(_, _, _)) =>
      var (right, outcome) := PushLeaf(h, t.right, elem, depth - 1);
      (t.left, right, outcome)
    case (Zero(_), Zero(_)) => (Create(h, [elem], depth - 1), t.right, Pushed)
    case (Leaf(_), Zero(_)) => (t.left, Create(h, [elem], depth - 1), Pushed)
    case (Node(_, _, _), Zero(_)) =>
      var (left, outcome) := PushLeaf(h, t.left, elem, depth - 1);
      if outcome == Rejected(MerkleTreeFull) then
        (t.left, Create(h, [elem], depth - 1), Pushed)
      else
        (left, t.right, outcome)
    case _ => (t.left, t.right, Rejected(Invalid))
  }

  function Rehashed(h: HashFn, left: MerkleTree, right: MerkleTree): MerkleTree {
    Node(h(left.Hash(h), right.Hash(h)), left, right)
  }

  /** Below capacity, pushing onto the tree of `leaves` gives the tree of `leaves + [elem]`; at
      capacity it is rejected as full, and with no other error ever. */
  lemma {:induction false} PushRefinesCreate(h: HashFn, leaves: seq<H256>, elem: H256, depth: nat)
    requires depth >= 1 && |leaves| <= Pow2(depth)
    ensures PushLeaf(h, Create(h, leaves, depth), elem, depth) ==
            if |leaves| < Pow2(depth) then (Create(h, leaves + [elem], depth), Pushed)
            else (Create(h, leaves, depth), Rejected(MerkleTreeFull))
    decreases depth
  {
    var capacity := Pow2(depth - 1);
    if leaves == [] {
      assert leaves + [elem] == [elem];
    } else if |leaves| < capacity {
      assert LeftPart(leaves + [elem], capacity) == LeftPart(leaves, capacity) + [elem];
      PushRefinesCreate(h, LeftPart(leaves, capacity), elem, depth - 1);
    } else if |leaves| == capacity {
      assert LeftPart(leaves + [elem], capacity) == leaves;
      assert RightPart(leaves + [elem], capacity) == [elem];
      if depth > 1 {
        PushRefinesCreate(h, leaves, elem, depth - 1);
      }
    } else {
      assert LeftPart(leaves + [elem], capacity) == LeftPart(leaves, capacity);
      assert RightPart(leaves + [elem], capacity) == RightPart(leaves, capacity) + [elem];
      if depth > 1 {
        PushRefinesCreate(h, RightPart(leaves, capacity), elem, depth - 1);
      }
    }
  }

  /** What a successful push does to any hash-consistent tree, created or not: it stays consistent. */
  lemma {:induction false} PushKeepsConsistency(h: HashFn, t: MerkleTree, elem: H256, depth: nat)
    requires t.Consistent(h)
    ensures PushLeaf(h, t, elem, depth).0.Consistent(h)
    decreases t
  {
    if depth > 0 {
      CreateHasRoot(h, [elem], depth);
      CreateHasRoot(h, [elem], depth - 1);
      if t.Node? {
        PushKeepsConsistency(h, t.left, elem, depth - 1);
        PushKeepsConsistency(h, t.right, elem, depth - 1);
      }
    }
  }
}
