/** Digests, the two-to-one hash of the accumulators, and its zero hashes. */
module Hashing {
  import opened Bits

  /** A 32-byte word, as the number it stands for. The trees use only equality and the zero word, so its
      width does not show there; `Quorums.ToAddress` takes its low 20 bytes. */
  type H256 = int

  /** `hash_concat`: any function of two words; nothing below assumes more about it. */
  type HashFn = (H256, H256) -> H256

  const U32_MAX: nat := 0xFFFF_FFFF

  /** The depth of the trees is a parameter throughout. Where it matters that there is a leaf for
      every u32, it is required that 2^depth is U32_MAX + 1, which is to say that it is 32. */
  lemma DepthOfU32(depth: nat)
    ensures Pow2(depth) == U32_MAX + 1 <==> depth == 32
  {
    assert Pow2(2) == 4;
    Pow2Sum(2, 2);
    Pow2Sum(4, 4);
    Pow2Sum(8, 8);
    Pow2Sum(16, 16);
    if depth < 32 {
      Pow2Monotone(depth, 31);
    } else if depth > 32 {
      Pow2Monotone(33, depth);
    }
  }

  /** `ZERO_HASHES[i]`: the root of a perfect tree of 2^i zero leaves. */
  function ZeroHash(h: HashFn, i: nat): H256 {
    if i == 0 then 0 else h(ZeroHash(h, i - 1), ZeroHash(h, i - 1))
  }

  /** A pair of words handed to the hash. */
  type Pair = (H256, H256)

  /** No two different pairs of `pairs` have the same hash. */
  ghost predicate CollisionFree(h: HashFn, pairs: set<Pair>) {
    forall p, q :: p in pairs && q in pairs && h(p.0, p.1) == h(q.0, q.1) ==> p == q
  }
}
