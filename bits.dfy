/** Arithmetic on unbounded naturals standing for Go's non-negative `*big.Int`
    values: `BitLen`, `Bit` and `And` defined bit by bit. */
module Bits {

  function Pow2(n: nat): (r: nat)
    ensures r >= 1
  {
    if n == 0 then 1 else 2 * Pow2(n - 1)
  }

  /** big.Int.BitLen: the number of binary digits of x; 0 for x == 0. */
  function BitLen(x: nat): (r: nat)
    ensures r == 0 <==> x == 0
  {
    if x == 0 then 0 else 1 + BitLen(x / 2)
  }

  /** big.Int.Bit for a non-negative value: bit i of x, that is (x >> i) & 1. */
  function Bit(x: nat, i: nat): (b: nat)
    ensures b <= 1
  {
    if i == 0 then x % 2 else Bit(x / 2, i - 1)
  }

  /** big.Int.And on non-negative values. */
  function And(a: nat, b: nat): (r: nat)
    ensures r <= a && r <= b
  {
    if a == 0 || b == 0 then 0 else 2 * And(a / 2, b / 2) + (a % 2) * (b % 2)
  }

  /** A value is below 2 to the power of its bit length, and, when non-zero,
      at least 2 to the power of one less. */
  lemma {:induction false} BitLenBounds(x: nat)
    ensures x < Pow2(BitLen(x))
    ensures x > 0 ==> Pow2(BitLen(x) - 1) <= x
  {
    if x > 0 {
      BitLenBounds(x / 2);
    }
  }

  /** Every bit at or above the bit length is clear. */
  lemma {:induction false} BitBeyondLen(x: nat, i: nat)
    requires i >= BitLen(x)
    ensures Bit(x, i) == 0
  {
    if x == 0 {
      ZeroBits(i);
    } else {
      BitBeyondLen(x / 2, i - 1);
    }
  }

  /** The most significant bit of a non-zero value is set. */
  lemma {:induction false} TopBitSet(x: nat)
    requires x > 0
    ensures Bit(x, BitLen(x) - 1) == 1
  {
    if x / 2 > 0 {
      TopBitSet(x / 2);
    }
  }

  /** 2^n has n + 1 binary digits. */
  lemma {:induction false} BitLenPow2(n: nat)
    ensures BitLen(Pow2(n)) == n + 1
  {
    if n > 0 {
      assert Pow2(n) / 2 == Pow2(n - 1);
      BitLenPow2(n - 1);
    }
  }

  /** Bit i of a conjunction is the product of the operands' bits i. */
  lemma {:induction false} AndBit(a: nat, b: nat, i: nat)
    ensures Bit(And(a, b), i) == Bit(a, i) * Bit(b, i)
  {
    if a == 0 || b == 0 {
      ZeroBits(i);
    } else {
      var c := And(a / 2, b / 2);
      var d := if a % 2 == 1 && b % 2 == 1 then 1 else 0;
      assert (a % 2) * (b % 2) == d;
      assert And(a, b) == 2 * c + d;
      assert (2 * c + d) % 2 == d && (2 * c + d) / 2 == c;
      if i > 0 {
        AndBit(a / 2, b / 2, i - 1);
      }
    }
  }

  lemma {:induction false} ZeroBits(i: nat)
    ensures Bit(0, i) == 0
  {
    if i > 0 {
      ZeroBits(i - 1);
    }
  }

  /** Two naturals with the same bits are equal. */
  lemma {:induction false} BitsDetermineValue(x: nat, y: nat)
    requires forall i: nat :: Bit(x, i) == Bit(y, i)
    ensures x == y
  {
    if x != 0 || y != 0 {
      assert Bit(x, 0) == Bit(y, 0);
      forall i: nat ensures Bit(x / 2, i) == Bit(y / 2, i) {
        assert Bit(x, i + 1) == Bit(y, i + 1);
      }
      BitsDetermineValue(x / 2, y / 2);
    }
  }

  /** Every bit set in f is also set in mask. */
  ghost predicate BitsWithin(f: nat, mask: nat) {
    forall i: nat :: Bit(f, i) == 1 ==> Bit(mask, i) == 1
  }

  /** `mask & f == f` exactly when every bit set in f is set in mask. */
  lemma AndIsSubset(mask: nat, f: nat)
    ensures And(mask, f) == f <==> BitsWithin(f, mask)
  {
    if And(mask, f) == f {
      AndSubsetBits(mask, f);
    }
    if BitsWithin(f, mask) {
      SubsetBitsAnd(mask, f);
    }
  }

  lemma AndSubsetBits(mask: nat, f: nat)
    requires And(mask, f) == f
    ensures forall i: nat :: Bit(f, i) == 1 ==> Bit(mask, i) == 1
  {
    forall i: nat | Bit(f, i) == 1 ensures Bit(mask, i) == 1 {
      AndBit(mask, f, i);
    }
  }

  lemma SubsetBitsAnd(mask: nat, f: nat)
    requires forall i: nat :: Bit(f, i) == 1 ==> Bit(mask, i) == 1
    ensures And(mask, f) == f
  {
    forall i: nat ensures Bit(And(mask, f), i) == Bit(f, i) {
      AndBit(mask, f, i);
    }
    BitsDetermineValue(And(mask, f), f);
  }

  /** Placing v above a w-bit value b: bit k of the sum is bit k of b below w
      and bit k - w of v from w on. */
  lemma {:induction false} BitOfPacked(b: nat, w: nat, v: nat, k: nat)
    requires b < Pow2(w)
    ensures Bit(b + Pow2(w) * v, k) == if k < w then Bit(b, k) else Bit(v, k - w)
  {
    if w == 0 {
      assert b == 0;
    } else {
      var x := b + Pow2(w) * v;
      assert Pow2(w) * v == 2 * (Pow2(w - 1) * v);
      assert x / 2 == b / 2 + Pow2(w - 1) * v;
      assert x % 2 == b % 2;
      if k > 0 {
        BitOfPacked(b / 2, w - 1, v, k - 1);
      }
    }
  }

  /** 2 to the n has exactly bit n set. */
  lemma {:induction false} BitOfPow2(n: nat, k: nat)
    ensures Bit(Pow2(n), k) == if k == n then 1 else 0
  {
    if n == 0 {
      if k > 0 { ZeroBits(k - 1); }
    } else if k > 0 {
      BitOfPow2(n - 1, k - 1);
    }
  }
}
