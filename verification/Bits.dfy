/** Bit operations on unsigned words, written out on naturals, and the two
    bit tricks the page allocator relies on. */
module Bits {

  function Pow2(k: nat): (r: nat)
    ensures r >= 1
  {
    if k == 0 then 1 else 2 * Pow2(k - 1)
  }

  /** Number of binary digits of x; 0 for x == 0. */
  function Len(x: nat): nat {
    if x == 0 then 0 else 1 + Len(x / 2)
  }

  predicate Bit(x: nat, i: nat)
    decreases i
  {
    if i == 0 then x % 2 == 1 else Bit(x / 2, i - 1)
  }

  function Shr(x: nat, k: nat): nat
    decreases k, x
  {
    if k == 0 then x else Shr(x / 2, k - 1)
  }

  function Or(a: nat, b: nat): nat
    decreases a + b
  {
    if a + b == 0 then 0
    else 2 * Or(a / 2, b / 2) + (if a % 2 == 1 || b % 2 == 1 then 1 else 0)
  }

  function And(a: nat, b: nat): nat
    decreases a
  {
    if a == 0 then 0
    else 2 * And(a / 2, b / 2) + (if a % 2 == 1 && b % 2 == 1 then 1 else 0)
  }

  lemma {:induction false} Pow2Increasing(j: nat, k: nat)
    requires j < k
    ensures Pow2(j) < Pow2(k)
    decreases k
  {
    if j < k - 1 { Pow2Increasing(j, k - 1); }
  }

  lemma Pow2Pos(k: nat)
    requires k > 0
    ensures Pow2(k) == 2 * Pow2(k - 1) && Pow2(k) >= 2
  {
  }

  lemma {:induction false} LenBounds(x: nat)
    ensures x < Pow2(Len(x))
    ensures x > 0 ==> Len(x) >= 1 && Pow2(Len(x) - 1) <= x
  {
    if x > 0 {
      LenBounds(x / 2);
      if x / 2 == 0 { assert x == 1; assert Len(1) == 1 + Len(0); }
    }
  }

  lemma LenUnique(x: nat, k: nat)
    requires Pow2(k) <= x < Pow2(k + 1)
    ensures Len(x) == k + 1
  {
    LenBounds(x);
    if Len(x) < k + 1 {
      if Len(x) < k { Pow2Increasing(Len(x), k); }
    } else if Len(x) > k + 1 {
      if k + 1 < Len(x) - 1 { Pow2Increasing(k + 1, Len(x) - 1); }
    }
  }

  lemma LenLe(x: nat, k: nat)
    ensures Len(x) <= k <==> x < Pow2(k)
  {
    LenBounds(x);
    if Len(x) < k { Pow2Increasing(Len(x), k); }
    if k < Len(x) && k < Len(x) - 1 { Pow2Increasing(k, Len(x) - 1); }
  }

  lemma {:induction false} OrBit(a: nat, b: nat, i: nat)
    ensures Bit(Or(a, b), i) <==> Bit(a, i) || Bit(b, i)
    decreases i
  {
    if a + b == 0 {
      ZeroBit(i);
    } else {
      OrDigits(a, b);
      if i > 0 {
        hide Or;
        OrBit(a / 2, b / 2, i - 1);
      }
    }
  }

  lemma OrDigits(a: nat, b: nat)
    ensures Or(a, b) / 2 == Or(a / 2, b / 2)
    ensures Or(a, b) % 2 == 1 <==> a % 2 == 1 || b % 2 == 1
  {
  }

  lemma {:induction false} ZeroBit(i: nat)
    ensures !Bit(0, i)
  {
    if i > 0 { ZeroBit(i - 1); }
  }

  lemma {:induction false} ShrBit(x: nat, k: nat, i: nat)
    ensures Bit(Shr(x, k), i) == Bit(x, i + k)
    decreases k
  {
    if k > 0 { ShrBit(x / 2, k - 1, i); }
  }

  /** Some bit of x in positions i .. i + w - 1 is set. */
  ghost predicate AnyBit(x: nat, i: nat, w: nat) {
    exists j: nat :: i <= j < i + w && Bit(x, j)
  }

  /** z is x smeared down over w positions. */
  ghost predicate Smeared(x: nat, z: nat, w: nat) {
    forall i: nat :: Bit(z, i) <==> AnyBit(x, i, w)
  }

  /** One line of the smear doubles the window. */
  lemma SmearStep(x: nat, z: nat, w: nat)
    requires Smeared(x, z, w)
    ensures Smeared(x, Or(z, Shr(z, w)), 2 * w)
  {
    forall i: nat
      ensures Bit(Or(z, Shr(z, w)), i) <==> AnyBit(x, i, 2 * w)
    {
      OrBit(z, Shr(z, w), i);
      ShrBit(z, w, i);
    }
  }

  lemma {:induction false} TopBit(x: nat, i: nat)
    ensures Bit(x, i) ==> i < Len(x)
    ensures x > 0 ==> Bit(x, Len(x) - 1)
    decreases x
  {
    if x == 0 {
      ZeroBit(i);
    } else {
      if i > 0 { TopBit(x / 2, i - 1); } else { TopBit(x / 2, 0); }
    }
  }

  lemma {:induction false} OnesValue(z: nat, k: nat)
    requires forall i: nat :: Bit(z, i) <==> i < k
    ensures z + 1 == Pow2(k)
    decreases z
  {
    if k == 0 {
      if z > 0 { TopBit(z, 0); }
    } else {
      assert Bit(z, 0);
      forall i: nat
        ensures Bit(z / 2, i) <==> i < k - 1
      {
        assert Bit(z, i + 1) == Bit(z / 2, i);
      }
      OnesValue(z / 2, k - 1);
    }
  }

  /** Once the window covers the word, every position below the top bit is
      set, so the value is one less than a power of two. */
  lemma SmearedIsOnes(x: nat, z: nat, w: nat)
    requires Len(x) <= w && Smeared(x, z, w)
    ensures z + 1 == Pow2(Len(x))
  {
    forall i: nat
      ensures Bit(z, i) <==> i < Len(x)
    {
      if AnyBit(x, i, w) {
        var j: nat :| i <= j < i + w && Bit(x, j);
        TopBit(x, j);
      }
      if i < Len(x) {
        TopBit(x, 0);
        assert i <= Len(x) - 1 < i + w;
      }
    }
    OnesValue(z, Len(x));
  }

  const WORD: nat := 0x1_0000_0000_0000_0000

  lemma {:induction false} Pow2Add(a: nat, b: nat)
    ensures Pow2(a + b) == Pow2(a) * Pow2(b)
    decreases b
  {
    if b > 0 { Pow2Add(a, b - 1); }
  }

  lemma WordIsPow2()
    ensures Pow2(64) == WORD && Pow2(63) == WORD / 2
  {
    assert Pow2(8) == 256;
    hide Pow2;
    Pow2Add(8, 8);
    Pow2Add(16, 16);
    Pow2Add(32, 32);
    Pow2Pos(64);
  }

  lemma WordLen(size: nat)
    requires size < WORD
    ensures Len(size) <= 64
    ensures size < WORD / 2 ==> Pow2(Len(size)) < WORD
  {
    WordIsPow2();
    LenLe(size, 64);
    LenLe(size, 63);
    if size < WORD / 2 { Pow2Increasing(Len(size), 64); }
  }

  /** One line `size |= size >> w`. */
  method OrShift(s: nat, w: nat, ghost x: nat) returns (t: nat)
    requires Smeared(x, s, w)
    ensures Smeared(x, t, 2 * w)
  {
    SmearStep(x, s, w);
    t := Or(s, Shr(s, w));
  }

  /** `fixsize`: the least power of two above size, in 64-bit arithmetic. */
  method FixSize(size: nat) returns (r: nat)
    requires size < WORD
    ensures r == Pow2(Len(size)) % WORD
    ensures size < WORD / 2 ==> r == Pow2(Len(size))
  {
    var s := OrShift(size, 1, size);
    s := OrShift(s, 2, size);
    s := OrShift(s, 4, size);
    s := OrShift(s, 8, size);
    s := OrShift(s, 16, size);
    s := OrShift(s, 32, size);
    WordLen(size);
    SmearedIsOnes(size, s, 64);
    r := (s + 1) % WORD;
  }

  /** The IS_POW2 macro: !(x & (x - 1)). */
  predicate IsPow2(x: nat)
    requires x > 0
  {
    And(x, x - 1) == 0
  }

  lemma {:induction false} AndSelf(x: nat)
    ensures And(x, x) == x
  {
    if x > 0 { AndSelf(x / 2); }
  }

  lemma {:induction false} IsPow2Iff(x: nat)
    requires x > 0
    ensures IsPow2(x) <==> x == Pow2(Len(x) - 1)
  {
    if x == 1 {
      assert Len(1) == 1 + Len(0);
      assert And(1, 0) == 2 * And(0, 0);
    } else {
      IsPow2Iff(x / 2);
      assert Len(x) == 1 + Len(x / 2) && Len(x / 2) >= 1;
      if x % 2 == 1 {
        AndSelf(x / 2);
        assert (x - 1) / 2 == x / 2;
        assert Pow2(Len(x) - 1) == 2 * Pow2(Len(x) - 2);
      } else {
        assert (x - 1) / 2 == x / 2 - 1;
      }
    }
  }

  /** The least power of two that is at least n: what `buddy_alloc` searches for. */
  function RoundUp(n: nat): (r: nat)
    requires n > 0
    ensures r >= 1
  {
    Pow2(Len(n - 1))
  }

  lemma RoundUpLeast(n: nat)
    requires n > 0
    ensures n <= RoundUp(n)
    ensures forall k: nat :: n <= Pow2(k) ==> RoundUp(n) <= Pow2(k)
  {
    LenBounds(n - 1);
    forall k: nat | n <= Pow2(k)
      ensures RoundUp(n) <= Pow2(k)
    {
      LenLe(n - 1, k);
      if Len(n - 1) < k { Pow2Increasing(Len(n - 1), k); }
    }
  }

  lemma Pow2Below(n: nat, k: nat)
    requires n == Pow2(k)
    ensures Len(n) == k + 1 && Len(n - 1) == k
  {
    LenUnique(n, k);
    if k > 0 { LenUnique(n - 1, k - 1); }
  }

  lemma NotPow2Below(n: nat)
    requires n > 0 && n != Pow2(Len(n) - 1)
    ensures Len(n - 1) == Len(n)
  {
    LenBounds(n);
    LenUnique(n - 1, Len(n) - 1);
  }

  /** IS_POW2 with `fixsize` on the other branch computes RoundUp. */
  lemma RoundUpByCases(n: nat, pow2: bool)
    requires n > 0 && pow2 == IsPow2(n)
    ensures RoundUp(n) == if pow2 then n else Pow2(Len(n))
  {
    assert pow2 <==> n == Pow2(Len(n) - 1) by { IsPow2Iff(n); }
    if pow2 {
      Pow2Below(n, Len(n) - 1);
    } else {
      NotPow2Below(n);
    }
  }
}
