/** Powers of two, shifts, and the bit tests that index the Merkle trees. */
module Bits {

  function Pow2(k: nat): (p: nat)
    ensures p > 0
  {
    if k == 0 then 1 else 2 * Pow2(k - 1)
  }

  /** `n >> i`: i halvings. */
  function Shr(n: nat, i: nat): nat
    decreases i
  {
    if i == 0 then n else Shr(n / 2, i - 1)
  }

  /** `(n >> i) & 1 == 1`. */
  predicate Bit(n: nat, i: nat) {
    Shr(n, i) % 2 == 1
  }

  /** The low i bits of n, the ones `n >> i` drops. */
  function Low(n: nat, i: nat): (r: nat)
    ensures r < Pow2(i) && r <= n
    decreases i
  {
    if i == 0 then 0 else n % 2 + 2 * Low(n / 2, i - 1)
  }

  lemma {:induction false} Pow2Monotone(i: nat, k: nat)
    requires i <= k
    ensures Pow2(i) <= Pow2(k)
  {
    if i < k {
      Pow2Monotone(i, k - 1);
    }
  }

  lemma {:induction false} Pow2Sum(i: nat, k: nat)
    ensures Pow2(i + k) == Pow2(i) * Pow2(k)
    decreases k
  {
    if k > 0 {
      Pow2Sum(i, k - 1);
      assert Pow2(i + k) == 2 * (Pow2(i) * Pow2(k - 1));
    }
  }

  /** One more halving, and the bit it splits off. */
  lemma {:induction false} ShiftStep(n: nat, i: nat)
    ensures Shr(n, i + 1) == Shr(n, i) / 2
    ensures Low(n, i + 1) == Low(n, i) + (if Bit(n, i) then Pow2(i) else 0)
    decreases i
  {
    if i > 0 {
      ShiftStep(n / 2, i - 1);
    }
  }

  /** A number below 2^i is all low bits. */
  lemma {:induction false} SmallNumber(n: nat, i: nat)
    requires n < Pow2(i)
    ensures Shr(n, i) == 0 && Low(n, i) == n && !Bit(n, i)
    decreases i
  {
    if i > 0 {
      SmallNumber(n / 2, i - 1);
    }
  }

  /** The successor: a full carry out of the low i bits, or none. */
  lemma {:induction false} Increment(n: nat, i: nat)
    ensures if Low(n, i) + 1 == Pow2(i) then Low(n + 1, i) == 0 && Shr(n + 1, i) == Shr(n, i) + 1
            else Low(n + 1, i) == Low(n, i) + 1 && Shr(n + 1, i) == Shr(n, i)
    decreases i
  {
    if i > 0 {
      Increment(n / 2, i - 1);
      assert n % 2 == 0 ==> (n + 1) / 2 == n / 2;
      assert n % 2 == 1 ==> (n + 1) / 2 == n / 2 + 1;
    }
  }
}
