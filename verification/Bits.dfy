/**
 Bit arithmetic on unsigned machine words, written on natural numbers: a word is
 a nat and bit i of it is the i-th binary digit. Also the "aligned block"
 arithmetic of the page allocator: Base rounds down to a multiple of 2^k.
 */
module Bits {

  function Pow2(k: nat): (r: nat)
    ensures r >= 1
  {
    if k == 0 then 1 else 2 * Pow2(k - 1)
  }

  predicate Bit(x: nat, i: nat) {
    if i == 0 then x % 2 == 1 else Bit(x / 2, i - 1)
  }

  function Digit(b: bool): nat {
    if b then 1 else 0
  }

  // The bitwise operators of C, digit by digit.
  function Xor(x: nat, y: nat): nat {
    if x == 0 && y == 0 then 0 else 2 * Xor(x / 2, y / 2) + Digit(x % 2 != y % 2)
  }

  function Or(x: nat, y: nat): nat {
    if x == 0 && y == 0 then 0 else 2 * Or(x / 2, y / 2) + Digit(x % 2 == 1 || y % 2 == 1)
  }

  function AndNot(x: nat, y: nat): nat {
    if x == 0 then 0 else 2 * AndNot(x / 2, y / 2) + Digit(x % 2 == 1 && y % 2 == 0)
  }

  // x & y, written with AndNot so that there is one definition of clearing bits.
  function And(x: nat, y: nat): nat {
    AndNot(x, AndNot(x, y))
  }

  lemma {:induction false} BitZero(i: nat)
    ensures !Bit(0, i)
  {
    if i > 0 { BitZero(i - 1); }
  }

  lemma {:induction false} OrBit(x: nat, y: nat, i: nat)
    ensures Bit(Or(x, y), i) <==> Bit(x, i) || Bit(y, i)
    decreases i
  {
    if x == 0 && y == 0 {
      BitZero(i);
    } else if i > 0 {
      OrBit(x / 2, y / 2, i - 1);
    }
  }

  lemma {:induction false} AndNotBit(x: nat, y: nat, i: nat)
    ensures Bit(AndNot(x, y), i) <==> Bit(x, i) && !Bit(y, i)
    decreases i
  {
    if x == 0 {
      BitZero(i);
    } else if i > 0 {
      AndNotBit(x / 2, y / 2, i - 1);
    }
  }

  lemma {:induction false} Pow2Bit(k: nat, i: nat)
    ensures Bit(Pow2(k), i) <==> i == k
  {
    if k == 0 {
      if i > 0 { BitZero(i - 1); }
    } else if i > 0 {
      Pow2Bit(k - 1, i - 1);
    }
  }

  // A word with n bits keeps them under the operators.
  lemma {:induction false} WordBounds(x: nat, y: nat, n: nat)
    requires x < Pow2(n) && y < Pow2(n)
    ensures Or(x, y) < Pow2(n) && AndNot(x, y) < Pow2(n)
  {
    if n > 0 && (x != 0 || y != 0) {
      WordBounds(x / 2, y / 2, n - 1);
    }
  }

  lemma {:induction false} Pow2Strict(j: nat, k: nat)
    requires j < k
    ensures Pow2(j) < Pow2(k)
  {
    if j > 0 { Pow2Strict(j - 1, k - 1); }
    else if k > 1 { Pow2Strict(0, k - 1); }
  }

  lemma {:induction false} OnesBit(x: nat, n: nat, i: nat)
    requires x == Pow2(n) - 1 && i < n
    ensures Bit(x, i)
  {
    if i > 0 { OnesBit(x / 2, n - 1, i - 1); }
  }

  lemma {:induction false} ZeroBit(x: nat, n: nat) returns (i: nat)
    requires x < Pow2(n) - 1
    ensures i < n && !Bit(x, i)
  {
    if x % 2 == 0 {
      i := 0;
    } else {
      i := ZeroBit(x / 2, n - 1);
      i := i + 1;
    }
  }

  // An n-bit word is all ones exactly when every bit is set.
  lemma AllOnes(x: nat, n: nat)
    requires x < Pow2(n)
    ensures x == Pow2(n) - 1 <==> forall i :: 0 <= i < n ==> Bit(x, i)
  {
    if x == Pow2(n) - 1 {
      forall i | 0 <= i < n ensures Bit(x, i) { OnesBit(x, n, i); }
    } else {
      var i := ZeroBit(x, n);
    }
  }

  /* Aligned blocks */

  // The largest multiple of 2^k that is not above x.
  function Base(x: nat, k: nat): nat {
    if k == 0 then x else 2 * Base(x / 2, k - 1)
  }

  predicate Aligned(x: nat, k: nat) {
    Base(x, k) == x
  }

  // The block of order k at an aligned p holds exactly the x that round down to p.
  lemma {:induction false} BaseBounds(x: nat, k: nat)
    ensures Base(x, k) <= x < Base(x, k) + Pow2(k)
  {
    if k > 0 { BaseBounds(x / 2, k - 1); }
  }

  lemma {:induction false} BaseUnique(p: nat, x: nat, k: nat)
    requires Aligned(p, k) && p <= x < p + Pow2(k)
    ensures Base(x, k) == p
  {
    if k > 0 { BaseUnique(p / 2, x / 2, k - 1); }
  }

  lemma {:induction false} BaseAligned(x: nat, k: nat)
    ensures Aligned(Base(x, k), k)
  {
    if k > 0 { BaseAligned(x / 2, k - 1); }
  }

  // Rounding to a finer grid first changes nothing: blocks nest.
  lemma {:induction false} BaseNest(x: nat, j: nat, k: nat)
    requires j <= k
    ensures Base(Base(x, j), k) == Base(x, k)
    ensures Base(Base(x, k), j) == Base(x, k)
  {
    if j > 0 { BaseNest(x / 2, j - 1, k - 1); }
  }

  lemma {:induction false} BaseMod(x: nat, k: nat)
    ensures Base(x, k) == x - x % Pow2(k)
    ensures Aligned(x, k) <==> x % Pow2(k) == 0
  {
    BaseBounds(x, k);
    BaseMultiple(x, k);
    var q := Base(x, k) / Pow2(k);
    assert Base(x, k) == q * Pow2(k);
    ModUnique(x, q, Pow2(k));
  }

  lemma ModUnique(x: nat, q: nat, m: nat)
    requires m >= 1 && q * m <= x < q * m + m
    ensures x % m == x - q * m && x / m == q
  {
    var d := x / m;
    assert x == d * m + x % m;
    MulMono(d + 1, q, m);
    MulMono(q + 1, d, m);
  }

  lemma MulMono(a: int, b: int, m: nat)
    ensures a <= b ==> a * m <= b * m
  {
    if a <= b {
      assert b * m - a * m == (b - a) * m;
    }
  }

  lemma MultiplesApart(y: nat, r: nat, a: nat)
    requires a >= 1 && r % a == 0 && y % a == 0
    ensures y < r ==> y + a <= r
  {
    assert y == y / a * a && r == r / a * a;
    MulMono(r / a, y / a, a);
    MulMono(y / a + 1, r / a, a);
  }

  lemma {:induction false} BaseMultiple(x: nat, k: nat)
    ensures Base(x, k) % Pow2(k) == 0
    ensures Base(x, k) == Base(x, k) / Pow2(k) * Pow2(k)
  {
    if k > 0 {
      BaseMultiple(x / 2, k - 1);
      var q := Base(x / 2, k - 1) / Pow2(k - 1);
      assert Base(x, k) == q * Pow2(k);
      ModUnique(Base(x, k), q, Pow2(k));
    }
  }

  // The buddy of a block, as the code computes it: flip bit k of its first page.
  function BuddyOf(p: nat, k: nat): nat {
    Xor(p, Pow2(k))
  }

  lemma {:induction false} XorZero(x: nat)
    ensures Xor(x, 0) == x
  {
    if x > 0 { XorZero(x / 2); }
  }

  lemma BaseDouble(x: nat, k: nat)
    ensures Base(2 * x, k + 1) == 2 * Base(x, k)
  {
  }

  lemma BuddyDouble(x: nat, k: nat)
    ensures BuddyOf(2 * x, k + 1) == 2 * BuddyOf(x, k)
  {
    assert Xor(2 * x, Pow2(k + 1)) == 2 * Xor(x, Pow2(k)) + Digit(false);
  }

  lemma BuddyOfPage(p: nat)
    ensures BuddyOf(p, 0) == (if p % 2 == 0 then p + 1 else p - 1)
  {
    XorZero(p / 2);
    assert Xor(p, 1) == 2 * Xor(p / 2, 0) + Digit(p % 2 != 1);
  }

  lemma BasePair(p: nat)
    ensures Base(p, 1) == p - p % 2 && Base(p, 0) == p
  {
    assert Base(p, 1) == 2 * Base(p / 2, 0);
  }

  // Flipping bit k of an aligned number adds or subtracts 2^k: the buddy is the
  // other half of the block of order k + 1 around p.
  lemma {:induction false} BuddyShift(p: nat, k: nat)
    requires Aligned(p, k)
    ensures BuddyOf(p, k) == if Aligned(p, k + 1) then p + Pow2(k) else p - Pow2(k)
    ensures Base(p, k + 1) == if Aligned(p, k + 1) then p else BuddyOf(p, k)
    ensures Aligned(BuddyOf(p, k), k) && BuddyOf(p, k) != p
    ensures Base(BuddyOf(p, k), k + 1) == Base(p, k + 1)
  {
    if k == 0 {
      BuddyOfPage(p);
      BasePair(p);
      BasePair(BuddyOf(p, 0));
    } else {
      var q := p / 2;
      var b := BuddyOf(q, k - 1);
      assert p == 2 * q && Aligned(q, k - 1);
      BuddyShift(q, k - 1);
      BuddyDouble(q, k - 1);
      BaseDouble(q, k);
      BaseDouble(b, k - 1);
      BaseDouble(b, k);
    }
  }

  // The block of order k + 1 around p is p's block and its buddy's block.
  lemma {:induction false} Halves(p: nat, x: nat, k: nat)
    requires Aligned(p, k)
    ensures Base(x, k + 1) == Base(p, k + 1) <==> Base(x, k) == p || Base(x, k) == BuddyOf(p, k)
  {
    BuddyShift(p, k);
    BaseNest(x, k, k + 1);
    BaseBounds(x, k);
    BaseBounds(x, k + 1);
    BaseAligned(x, k);
    if Base(x, k + 1) == Base(p, k + 1) {
      var low := Base(p, k + 1);
      if x < low + Pow2(k) {
        BaseAligned(p, k + 1);
        BaseNest(p, k, k + 1);
        BaseUnique(low, x, k);
      } else {
        BaseUnique(low + Pow2(k), x, k);
      }
    }
  }

  /* Masks of low bits */

  // Clearing the low k bits rounds down to a multiple of 2^k.
  lemma {:induction false} MaskRounds(y: nat, k: nat)
    ensures AndNot(y, Pow2(k) - 1) == Base(y, k)
  {
    if y == 0 {
      BaseBounds(0, k);
    } else if k > 0 {
      MaskRounds(y / 2, k - 1);
      assert (Pow2(k) - 1) / 2 == Pow2(k - 1) - 1;
    } else {
      AndNotZero(y);
    }
  }

  // The remainder has the low k bits of the number, and no others.
  lemma {:induction false} ModBit(x: nat, k: nat, i: nat)
    ensures Bit(x % Pow2(k), i) <==> i < k && Bit(x, i)
    decreases k
  {
    if k == 0 {
      BitZero(i);
    } else {
      HalfMod(x, Pow2(k - 1), Pow2(k));
      if i > 0 { ModBit(x / 2, k - 1, i - 1); }
    }
  }

  lemma HalfMod(x: nat, m: nat, n: nat)
    requires m >= 1 && n == 2 * m
    ensures x % n / 2 == x / 2 % m && x % n % 2 == x % 2
  {
    var h := x / 2;
    var q := h / m;
    assert h == q * m + h % m;
    assert q * n == 2 * (q * m);
    ModUnique(x, q, n);
  }

  lemma {:induction false} AndNotZero(y: nat)
    ensures AndNot(y, 0) == y
  {
    if y > 0 { AndNotZero(y / 2); }
  }

  // Keeping the low k bits gives the remainder.
  lemma {:induction false} MaskKeeps(y: nat, k: nat)
    ensures And(y, Pow2(k) - 1) == y - Base(y, k)
  {
    MaskRounds(y, k);
    BaseBounds(y, k);
    ClearHigh(y, k);
  }

  lemma {:induction false} ClearHigh(y: nat, k: nat)
    ensures Base(y, k) <= y && AndNot(y, Base(y, k)) == y - Base(y, k)
  {
    BaseBounds(y, k);
    if k == 0 {
      ClearAll(y);
    } else if y > 0 {
      ClearHigh(y / 2, k - 1);
      BaseBounds(y / 2, k - 1);
    }
  }

  lemma {:induction false} ClearAll(y: nat)
    ensures AndNot(y, y) == 0
  {
    if y > 0 { ClearAll(y / 2); }
  }

  // Joining a multiple of 2^k and a smaller number adds them.
  lemma {:induction false} OrAdds(y: nat, r: nat, k: nat)
    requires r < Pow2(k)
    ensures Or(Base(y, k), r) == Base(y, k) + r
  {
    if k == 0 {
      OrZero(y);
    } else if Base(y, k) != 0 || r != 0 {
      OrAdds(y / 2, r / 2, k - 1);
    }
  }

  lemma {:induction false} OrZero(y: nat)
    ensures Or(y, 0) == y
  {
    if y > 0 { OrZero(y / 2); }
  }
}
