/** The tree as the program holds it: boxed nodes that a push rewrites in place. */
module BoxedTrees {
  import opened Hashing
  import opened MerkleTrees

  datatype NodeValue =
    | LeafNode(digest: H256)
    | InnerNode(digest: H256, left: BoxedTree, right: BoxedTree)
    | ZeroNode(depth: nat)

  class BoxedTree {
    var value: NodeValue
    ghost var repr: set<object>

    ghost predicate Valid()
      reads this, repr
      ensures Valid() ==> this in repr
      decreases repr
    {
      && this in repr
      && (value.InnerNode? ==>
            && value.left in repr && value.right in repr
            && value.left.repr <= repr && this !in value.left.repr
            && value.right.repr <= repr && this !in value.right.repr
            && value.left.repr !! value.right.repr
            && value.left.Valid() && value.right.Valid())
    }

    /** The tree as a value. */
    function Tree(): MerkleTree
      requires Valid()
      reads this, repr
      decreases repr
    {
      match value
      case LeafNode(digest) => Leaf(digest)
      case ZeroNode(depth) => Zero(depth)
      case InnerNode(digest, left, right) => Node(digest, left.Tree(), right.Tree())
    }

    /** The digest it stores. */
    function Hash(h: HashFn): (digest: H256)
      requires Valid()
      reads this, repr
      ensures digest == Tree().Hash(h)
    {
      match value
      case LeafNode(digest) => digest
      case ZeroNode(depth) => ZeroHash(h, depth)
      case InnerNode(digest, _, _) => digest
    }

    constructor (t: MerkleTree)
      ensures Valid() && fresh(repr) && Tree() == t
      decreases t
    {
      match t {
        case Leaf(digest) =>
          value, repr := LeafNode(digest), {this};
        case Zero(depth) =>
          value, repr := ZeroNode(depth), {this};
        case Node(digest, l, r) =>
          var left := new BoxedTree(l);
          var right := new BoxedTree(r);
          value, repr := InnerNode(digest, left, right), {this} + left.repr + right.repr;
      }
    }

    /** Replace the whole tree. */
    method Assign(t: MerkleTree)
      modifies this
      ensures Valid() && fresh(repr - {this}) && Tree() == t
    {
      var other := new BoxedTree(t);
      value, repr := other.value, other.repr + {this};
    }

    /** Push in place: the tree and the outcome are those of the specification. */
    method Push(h: HashFn, elem: H256, depth: nat) returns (outcome: PushOutcome)
      requires Valid()
      modifies repr
      ensures Valid() && fresh(repr - old(repr))
      ensures (Tree(), outcome) == PushLeaf(h, old(Tree()), elem, depth)
      decreases repr, 1
    {
      if depth == 0 {
        return Rejected(DepthTooSmall);
      }
      if value.LeafNode? {
        return Rejected(LeafReached);
      }
      if value.ZeroNode? {
        Assign(Create(h, [elem], depth));
        return Pushed;
      }
      outcome := PushChildren(h, elem, depth);
      var left, right := value.left, value.right;
      repr := {this} + left.repr + right.repr;
      if outcome.Pushed? {
        value := InnerNode(h(left.Hash(h), right.Hash(h)), left, right);
      }
    }

    method PushChildren(h: HashFn, elem: H256, depth: nat) returns (outcome: PushOutcome)
      requires Valid() && value.InnerNode? && depth > 0
      modifies value.left.repr, value.right.repr
      ensures var left, right := value.left, value.right;
              && left.Valid() && right.Valid() && left.repr !! right.repr
              && fresh(left.repr - old(left.repr)) && fresh(right.repr - old(right.repr))
              && (left.Tree(), right.Tree(), outcome) == PushBelow(h, old(Tree()), elem, depth)
      decreases repr, 0
    {
      var left, right := value.left, value.right;
      if left.value.LeafNode? && right.value.LeafNode? {
        return Rejected(MerkleTreeFull);
      } else if left.value.InnerNode? && right.value.InnerNode? {
        outcome := right.Push(h, elem, depth - 1);
      } else if left.value.ZeroNode? && right.value.ZeroNode? {
        left.Assign(Create(h, [elem], depth - 1));
        return Pushed;
      } else if left.value.LeafNode? && right.value.ZeroNode? {
        right.Assign(Create(h, [elem], depth - 1));
        return Pushed;
      } else if left.value.InnerNode? && right.value.ZeroNode? {
        outcome := left.Push(h, elem, depth - 1);
        if outcome == Rejected(MerkleTreeFull) {
          right.Assign(Create(h, [elem], depth - 1));
          return Pushed;
        }
      } else {
        return Rejected(Invalid);
      }
    }
  }
}
