/** Powers of two, set bits and alignment, all by halving. */
module Bits {

  function Pow2(n: nat): (p: nat)
    ensures p >= 1
  {
    if n == 0 then 1 else 2 * Pow2(n - 1)
  }

  lemma Doubling(n: nat)
    ensures Pow2(n + 1) == 2 * Pow2(n)
  {}

  lemma {:induction false} Pow2Monotone(a: nat, b: nat)
    ensures a <= b ==> Pow2(a) <= Pow2(b)
    ensures a < b ==> 2 * Pow2(a) <= Pow2(b)
    decreases b
  {
    if a < b { Pow2Monotone(a, b - 1); }
  }

  lemma {:induction false} Pow2Grows(n: nat)
    ensures n < Pow2(n)
  {
    if n > 0 { Pow2Grows(n - 1); }
  }

  /** bin(n).count("1") */
  function Popcount(n: nat): (c: nat)
    ensures c <= n && (n > 0 ==> c >= 1)
  {
    if n == 0 then 0 else n % 2 + Popcount(n / 2)
  }

  /** x is a multiple of 2^a. */
  predicate Aligned(x: nat, a: nat) {
    a == 0 || (x % 2 == 0 && Aligned(x / 2, a - 1))
  }

  /** Number of trailing zero bits. */
  function LowBit(f: nat): nat
    requires f > 0
  {
    if f % 2 == 1 then 0 else 1 + LowBit(f / 2)
  }

  /** Index of the highest set bit. */
  function TopBit(f: nat): (a: nat)
    requires f > 0
    ensures Pow2(a) <= f < 2 * Pow2(a)
  {
    if f == 1 then 0 else 1 + TopBit(f / 2)
  }

  lemma {:induction false} AlignedZero(a: nat)
    ensures Aligned(0, a)
  {
    if a > 0 { AlignedZero(a - 1); }
  }

  lemma {:induction false} AlignedWeaken(x: nat, a: nat, b: nat)
    requires Aligned(x, a) && b <= a
    ensures Aligned(x, b)
  {
    if b > 0 { AlignedWeaken(x / 2, a - 1, b - 1); }
  }

  lemma {:induction false} AlignedAdd(x: nat, y: nat, a: nat)
    requires Aligned(x, a) && Aligned(y, a)
    ensures Aligned(x + y, a)
  {
    if a > 0 {
      AlignedAdd(x / 2, y / 2, a - 1);
      assert (x + y) / 2 == x / 2 + y / 2;
    }
  }

  lemma {:induction false} AlignedSub(x: nat, y: nat, a: nat)
    requires Aligned(x, a) && Aligned(y, a) && y <= x
    ensures Aligned(x - y, a)
  {
    if a > 0 {
      AlignedSub(x / 2, y / 2, a - 1);
      assert (x - y) / 2 == x / 2 - y / 2;
    }
  }

  lemma {:induction false} AlignedPow2(a: nat, b: nat)
    requires b <= a
    ensures Aligned(Pow2(a), b)
  {
    if b > 0 {
      Doubling(a - 1);
      assert Pow2(a) % 2 == 0 && Pow2(a) / 2 == Pow2(a - 1);
      hide Pow2;
      AlignedPow2(a - 1, b - 1);
    }
  }

  /** Aligned blocks are nested or disjoint. */
  lemma {:induction false} AlignedNested(x: nat, a: nat, y: nat, b: nat)
    requires Aligned(x, a) && Aligned(y, b) && b <= a && y < x + Pow2(a)
    ensures y + Pow2(b) <= x + Pow2(a)
  {
    if b > 0 { AlignedNested(x / 2, a - 1, y / 2, b - 1); }
  }

  lemma {:induction false} AlignedTop(x: nat, a: nat)
    requires Aligned(x, a) && x < Pow2(a)
    ensures x == 0
  {
    if a > 0 { AlignedTop(x / 2, a - 1); }
  }

  lemma PopcountHalf(n: nat)
    ensures Popcount(n) == n % 2 + Popcount(n / 2)
  {}

  lemma PopcountTwicePlusOne(n: nat)
    ensures Popcount(2 * n + 1) == Popcount(n) + 1
  {
    hide Popcount;
    PopcountHalf(2 * n + 1);
  }

  lemma PopcountZero()
    ensures Popcount(0) == 0 && Popcount(1) == 1 && Pow2(0) == 1
  {}

  lemma {:induction false} PopcountSplit(x: nat, r: nat, a: nat)
    requires Aligned(x, a) && r < Pow2(a)
    ensures Popcount(x + r) == Popcount(x) + Popcount(r)
  {
    hide Pow2, Popcount;
    if a > 0 {
      Doubling(a - 1);
      PopcountSplit(x / 2, r / 2, a - 1);
      PopcountTwice(x / 2);
      PopcountHalf(r);
      PopcountHalf(x + r);
      assert (x + r) / 2 == x / 2 + r / 2 && (x + r) % 2 == r % 2;
    } else {
      PopcountZero();
    }
  }

  lemma {:induction false} PopcountPow2(a: nat)
    ensures Popcount(Pow2(a)) == 1
    ensures Popcount(Pow2(a) - 1) == a
  {
    hide Pow2, Popcount;
    if a > 0 {
      var p := Pow2(a - 1);
      Doubling(a - 1);
      PopcountPow2(a - 1);
      PopcountTwice(p);
      PopcountTwicePlusOne(p - 1);
      assert 2 * (p - 1) + 1 == 2 * p - 1;
    } else {
      PopcountZero();
    }
  }

  /** Adding one clears the trailing ones and sets the bit above them. */
  lemma {:induction false} PopcountStep(f: nat)
    ensures Popcount(f + 1) + LowBit(f + 1) == Popcount(f) + 1
  {
    if f % 2 == 1 {
      PopcountStep(f / 2);
      assert (f + 1) / 2 == f / 2 + 1;
    } else {
      assert (f + 1) / 2 == f / 2;
    }
  }

  lemma {:induction false} LowBitClear(f: nat)
    requires f > 0
    ensures Pow2(LowBit(f)) <= f
    ensures Aligned(f - Pow2(LowBit(f)), LowBit(f) + 1)
    ensures Aligned(f + Pow2(LowBit(f)), LowBit(f) + 1)
    ensures Popcount(f - Pow2(LowBit(f))) + 1 == Popcount(f)
  {
    hide LowBit, Pow2, Aligned, Popcount;
    var g := f / 2;
    if f % 2 == 0 {
      assert f == 2 * g;
      LowBitClear(g);
      LowBitTwice(g);
      Doubling(LowBit(g));
      ClearTwice(g, Pow2(LowBit(g)), LowBit(g) + 1);
    } else {
      assert f == 2 * g + 1;
      ClearOdd(g);
    }
  }

  lemma ClearOdd(g: nat)
    ensures LowBit(2 * g + 1) == 0 && Pow2(0) == 1
    ensures Aligned(2 * g, 1) && Aligned(2 * g + 2, 1)
    ensures Popcount(2 * g) + 1 == Popcount(2 * g + 1)
  {
    hide LowBit, Pow2, Aligned, Popcount;
    LowBitOdd(g);
    AlignedAny(g);
    AlignedAny(g + 1);
    AlignedTwice(g, 0);
    AlignedTwice(g + 1, 0);
    PopcountTwice(g);
    PopcountTwicePlusOne(g);
    assert 2 * (g + 1) == 2 * g + 2;
  }

  lemma LowBitOdd(g: nat)
    ensures LowBit(2 * g + 1) == 0 && Pow2(0) == 1
  {}

  lemma AlignedAny(x: nat)
    ensures Aligned(x, 0)
  {}

  lemma ClearTwice(g: nat, p: nat, a: nat)
    requires p <= g && Aligned(g - p, a) && Aligned(g + p, a)
    requires Popcount(g - p) + 1 == Popcount(g)
    ensures Aligned(2 * g - 2 * p, a + 1) && Aligned(2 * g + 2 * p, a + 1)
    ensures Popcount(2 * g - 2 * p) + 1 == Popcount(2 * g)
  {
    hide Aligned, Popcount;
    AlignedTwice(g - p, a);
    AlignedTwice(g + p, a);
    PopcountTwice(g - p);
    PopcountTwice(g);
    assert 2 * g - 2 * p == 2 * (g - p) && 2 * g + 2 * p == 2 * (g + p);
  }

  lemma LowBitTwice(g: nat)
    requires g > 0
    ensures LowBit(2 * g) == LowBit(g) + 1
  {}

  lemma AlignedTwice(x: nat, a: nat)
    requires Aligned(x, a)
    ensures Aligned(2 * x, a + 1)
  {}

  lemma PopcountTwice(x: nat)
    ensures Popcount(2 * x) == Popcount(x)
  {}

  lemma {:induction false} LowBitOfSum(x: nat, a: nat)
    requires Aligned(x, a + 1)
    ensures LowBit(x + Pow2(a)) == a
  {
    if a > 0 {
      LowBitOfSum(x / 2, a - 1);
      assert (x + Pow2(a)) / 2 == x / 2 + Pow2(a - 1);
    }
  }

  lemma {:induction false} LowBitAligned(f: nat, a: nat)
    requires f > 0 && Aligned(f, a)
    ensures a <= LowBit(f)
  {
    if a > 0 { LowBitAligned(f / 2, a - 1); }
  }
}
