/**
  Binary arithmetic on non-negative integers, as used by both the browser
  game's board hash and the simulator's box and move hashes: powers of two,
  the bit at a position, and how adding a power of two changes the bits.
 */
module Bits {

  function Pow2(n: nat): (r: nat)
    ensures r >= 1
  {
    if n == 0 then 1 else 2 * Pow2(n - 1)
  }

  /** Bit `i` of `h`, read the way the decoders read it: halve `i` times, then look at parity. */
  function Bit(h: int, i: nat): bool
    decreases i
  {
    if i == 0 then h % 2 == 1 else Bit(h / 2, i - 1)
  }

  lemma {:induction false} Pow2Monotone(a: nat, b: nat)
    requires a <= b
    ensures Pow2(a) <= Pow2(b)
    decreases b
  {
    if a < b {
      Pow2Monotone(a, b - 1);
    }
  }

  lemma {:induction false} BitOfZero(i: nat)
    ensures !Bit(0, i)
  {
    if i > 0 {
      BitOfZero(i - 1);
    }
  }

  /** A number below 2^k has no bit set at position k or above. */
  lemma {:induction false} BitAboveBound(x: int, k: nat, i: nat)
    requires 0 <= x < Pow2(k) && k <= i
    ensures !Bit(x, i)
  {
    if i == 0 {
      assert x == 0;
    } else if k == 0 {
      assert x == 0;
      BitOfZero(i);
    } else {
      BitAboveBound(x / 2, k - 1, i - 1);
    }
  }

  /** Adding 2^k to a number whose bit k is clear sets bit k and leaves every other bit alone. */
  lemma {:induction false} BitAddFresh(x: int, k: nat, i: nat)
    requires 0 <= x && !Bit(x, k)
    ensures Bit(x + Pow2(k), i) <==> (i == k || Bit(x, i))
  {
    if k == 0 {
      assert x % 2 == 0;
      if i > 0 {
        assert (x + 1) / 2 == x / 2;
      }
    } else if i > 0 {
      assert (x + Pow2(k)) / 2 == x / 2 + Pow2(k - 1);
      BitAddFresh(x / 2, k - 1, i - 1);
    }
  }

  /** Adding 2^k to a number below 2^n whose bit k (k < n) is clear stays below 2^n. */
  lemma {:induction false} AddFreshBelow(x: int, k: nat, n: nat)
    requires 0 <= x < Pow2(n) && k < n && !Bit(x, k)
    ensures x + Pow2(k) < Pow2(n)
  {
    assert Pow2(n) == 2 * Pow2(n - 1);
    if k == 0 {
      assert x % 2 == 0;
      assert x / 2 < Pow2(n - 1);
    } else {
      assert x / 2 < Pow2(n - 1);
      AddFreshBelow(x / 2, k - 1, n - 1);
      assert x == 2 * (x / 2) + x % 2;
      assert Pow2(k) == 2 * Pow2(k - 1);
    }
  }

  /** Two numbers below 2^n that agree on bits 0..n-1 are equal. */
  lemma {:induction false} BitsDetermine(x: int, y: int, n: nat)
    requires 0 <= x < Pow2(n) && 0 <= y < Pow2(n)
    requires forall i :: 0 <= i < n ==> (Bit(x, i) <==> Bit(y, i))
    ensures x == y
  {
    if n > 0 {
      assert Bit(x, 0) <==> Bit(y, 0);
      forall i | 0 <= i < n - 1
        ensures Bit(x / 2, i) <==> Bit(y / 2, i)
      {
        assert Bit(x, i + 1) <==> Bit(y, i + 1);
      }
      BitsDetermine(x / 2, y / 2, n - 1);
    }
  }
}
