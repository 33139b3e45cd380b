/** Words bit by bit. Bit 0 is the lowest. */
module Bits {

  function Pow2(k: nat): nat {
    if k == 0 then 1 else 2 * Pow2(k - 1)
  }

  lemma {:induction false} Pow2Positive(k: nat)
    ensures Pow2(k) > 0
  {
    if k > 0 { Pow2Positive(k - 1); }
  }

  predicate Bit(x: nat, k: nat)
    decreases k
  {
    if k == 0 then x % 2 == 1 else Bit(x / 2, k - 1)
  }

  lemma HalfSum(lo: nat, p: nat, hi: nat)
    ensures (lo + 2 * p * hi) / 2 == lo / 2 + p * hi && (lo + 2 * p * hi) % 2 == lo % 2
  {
    assert 2 * p * hi == 2 * (p * hi);
    HalfEven(lo, p * hi);
  }

  lemma HalfEven(lo: nat, m: nat)
    ensures (lo + 2 * m) / 2 == lo / 2 + m && (lo + 2 * m) % 2 == lo % 2
  {
  }

  /** The bits of a low part of `j` bits and a high part above it. */
  lemma {:induction false} BitParts(lo: nat, j: nat, hi: nat, k: nat)
    requires lo < Pow2(j)
    ensures Bit(lo + Pow2(j) * hi, k) == if k < j then Bit(lo, k) else Bit(hi, k - j)
    decreases j
  {
    if j > 0 {
      HalfSum(lo, Pow2(j - 1), hi);
      if k > 0 { BitParts(lo / 2, j - 1, hi, k - 1); }
    }
  }

  lemma {:induction false} NoBits(k: nat)
    ensures !Bit(0, k)
  {
    if k > 0 { NoBits(k - 1); }
  }

  /** A number below 2^j has no bit from `j` on. */
  lemma SmallBits(x: nat, j: nat, k: nat)
    requires x < Pow2(j) && k >= j
    ensures !Bit(x, k)
  {
    BitParts(x, j, 0, k);
    NoBits(k - j);
  }

  /** Above 0 and below 2^n, some bit under bit `n` is set. */
  lemma {:induction false} SomeSet(x: nat, n: nat) returns (k: nat)
    requires 0 < x < Pow2(n)
    ensures k < n && Bit(x, k)
    decreases n
  {
    if x % 2 == 1 {
      k := 0;
    } else {
      k := SomeSet(x / 2, n - 1);
      k := k + 1;
    }
  }

  /** Below 2^n - 1, some bit under bit `n` is clear. */
  lemma {:induction false} SomeClear(x: nat, n: nat) returns (k: nat)
    requires x + 1 < Pow2(n)
    ensures k < n && !Bit(x, k)
    decreases n
  {
    if x % 2 == 0 {
      k := 0;
    } else {
      k := SomeClear(x / 2, n - 1);
      k := k + 1;
    }
  }

  lemma HalfOfOdd(x: nat, p: nat)
    requires x + 1 == 2 * p
    ensures x % 2 == 1 && x / 2 + 1 == p
  {
  }

  /** 2^n - 1 has every bit under bit `n`. */
  lemma {:induction false} AllSet(x: nat, n: nat, k: nat)
    requires x + 1 == Pow2(n) && k < n
    ensures Bit(x, k)
    decreases n
  {
    HalfOfOdd(x, Pow2(n - 1));
    if k > 0 { AllSet(x / 2, n - 1, k - 1); }
  }

  lemma Powers()
    ensures Pow2(1) == 2 && Pow2(3) == 8 && Pow2(4) == 16 && Pow2(7) == 128 && Pow2(9) == 512 && Pow2(12) == 4096
    ensures Pow2(17) == 0x2_0000
  {
    assert Pow2(3) == 2 * Pow2(2) && Pow2(2) == 2 * Pow2(1);
    assert Pow2(6) == 2 * Pow2(5) && Pow2(5) == 2 * Pow2(4);
    assert Pow2(9) == 2 * Pow2(8) && Pow2(8) == 2 * Pow2(7);
    assert Pow2(12) == 2 * Pow2(11) && Pow2(11) == 2 * Pow2(10);
    assert Pow2(15) == 2 * Pow2(14) && Pow2(14) == 2 * Pow2(13);
    assert Pow2(17) == 2 * Pow2(16) && Pow2(16) == 2 * Pow2(15);
  }

  lemma {:induction false} PowerSum(a: nat, b: nat)
    ensures Pow2(a + b) == Pow2(a) * Pow2(b)
    decreases b
  {
    if b > 0 {
      PowerSum(a, b - 1);
      assert Pow2(a + b) == 2 * (Pow2(a) * Pow2(b - 1));
    }
  }
}
