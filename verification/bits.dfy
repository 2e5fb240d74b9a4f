/**
 * Bit masks over the non-negative integers.
 *
 * The solvers represent a set of items as a machine word whose bit j is set
 * when item j is in the set. A 32-bit pattern is modelled here as a `nat`
 * below `Word` (2^32); the bitwise operators the sources use are defined
 * bit by bit and characterised by lemmas about `Bit`.
 */
module Bits {

  /** The number of distinct 32-bit patterns. */
  const Word: nat := 0x1_0000_0000

  /** 2 to the power `k`. */
  function Pow2(k: nat): (r: nat)
    ensures r >= 1
  {
    if k == 0 then 1 else 2 * Pow2(k - 1)
  }

  /** True iff bit `j` of `u` is set. */
  predicate Bit(u: nat, j: nat)
  {
    if j == 0 then u % 2 == 1 else Bit(u / 2, j - 1)
  }

  /** `m` is a submask of `u`: every bit of `m` is a bit of `u`. */
  ghost predicate IsSubmask(m: nat, u: nat)
  {
    forall j: nat :: Bit(m, j) ==> Bit(u, j)
  }

  /** Bitwise and (`a & b`). */
  function And(a: nat, b: nat): nat
    decreases a
  {
    if a == 0 || b == 0 then 0
    else 2 * And(a / 2, b / 2) + (if a % 2 == 1 && b % 2 == 1 then 1 else 0)
  }

  /** The bits of `a` that are not bits of `b` (`a & ~b`). */
  function AndNot(a: nat, b: nat): nat
    decreases a
  {
    if a == 0 then 0
    else 2 * AndNot(a / 2, b / 2) + (if a % 2 == 1 && b % 2 == 0 then 1 else 0)
  }

  /** Bitwise complement of a 32-bit pattern (`~m`). */
  function Not32(m: nat): nat
    requires m < Word
  {
    Word - 1 - m
  }

  /** 32-bit left shift (`x << k`): bits pushed past position 31 are lost. */
  function Shl32(x: nat, k: nat): nat
  {
    (x * Pow2(k)) % Word
  }

  /** Number of trailing zero bits of a non-zero word. */
  function Ctz(w: nat): (r: nat)
    requires w > 0
    ensures Bit(w, r)
    ensures forall j: nat :: j < r ==> !Bit(w, j)
    decreases w
  {
    if w % 2 == 1 then 0
    else
      var r := 1 + Ctz(w / 2);
      assert forall j: nat :: 0 < j < r ==> (Bit(w, j) <==> Bit(w / 2, j - 1));
      r
  }

  // ---------------------------------------------------------------------
  // Powers of two

  lemma {:induction false} Pow2Add(a: nat, b: nat)
    ensures Pow2(a + b) == Pow2(a) * Pow2(b)
    decreases a
  {
    if a > 0 {
      Pow2Add(a - 1, b);
    }
  }

  lemma Pow2Word()
    ensures Pow2(32) == Word
  {
    assert Pow2(8) == 256;
    Pow2Add(8, 8);
    Pow2Add(16, 16);
  }

  /** Bit 31, the sign bit of a 32-bit word. */
  const SignBit: nat := 0x8000_0000

  lemma Pow2SignBit()
    ensures Pow2(31) == SignBit
  {
    Pow2Word();
    assert Pow2(32) == 2 * Pow2(31);
  }

  lemma {:induction false} Pow2Monotone(a: nat, b: nat)
    requires a <= b
    ensures Pow2(a) <= Pow2(b)
    decreases b
  {
    if a < b {
      Pow2Monotone(a, b - 1);
    }
  }

  // ---------------------------------------------------------------------
  // Bits determine the number

  lemma {:induction false} BitOfZero(j: nat)
    ensures !Bit(0, j)
    decreases j
  {
    if j > 0 {
      BitOfZero(j - 1);
    }
  }

  /** Two numbers with the same bits are equal. */
  lemma {:induction false} BitsEqual(a: nat, b: nat)
    requires forall j: nat :: Bit(a, j) == Bit(b, j)
    ensures a == b
    decreases a + b
  {
    if a != 0 || b != 0 {
      assert Bit(a, 0) == Bit(b, 0);
      forall j: nat
        ensures Bit(a / 2, j) == Bit(b / 2, j)
      {
        assert Bit(a, j + 1) == Bit(b, j + 1);
      }
      BitsEqual(a / 2, b / 2);
    }
  }

  /** A number below 2^n has no bit at position n or above. */
  lemma {:induction false} BitBelowPow2(u: nat, n: nat, j: nat)
    requires u < Pow2(n) && n <= j
    ensures !Bit(u, j)
    decreases n
  {
    if n == 0 {
      BitOfZero(j);
    } else {
      BitBelowPow2(u / 2, n - 1, j - 1);
    }
  }

  /** A set bit of a value below `2^n` lies below `n`. */
  lemma SetBitBelow(u: nat, n: nat, j: nat)
    requires u < Pow2(n) && Bit(u, j)
    ensures j < n
  {
    if n <= j {
      BitBelowPow2(u, n, j);
      assert false;
    }
  }

  /** A number with no bit at position n or above is below 2^n. */
  lemma {:induction false} BelowPow2(u: nat, n: nat)
    requires forall j: nat :: n <= j ==> !Bit(u, j)
    ensures u < Pow2(n)
    decreases n
  {
    if n == 0 {
      if u != 0 {
        forall j: nat
          ensures Bit(u, j) == Bit(0, j)
        {
          BitOfZero(j);
        }
        BitsEqual(u, 0);
      }
    } else {
      forall j: nat | n - 1 <= j
        ensures !Bit(u / 2, j)
      {
        assert !Bit(u, j + 1);
      }
      BelowPow2(u / 2, n - 1);
    }
  }

  // ---------------------------------------------------------------------
  // Bits of the operators

  lemma {:induction false} BitAnd(a: nat, b: nat, j: nat)
    ensures Bit(And(a, b), j) == (Bit(a, j) && Bit(b, j))
    decreases j
  {
    if a == 0 || b == 0 {
      BitOfZero(j);
    } else if j > 0 {
      BitAnd(a / 2, b / 2, j - 1);
    }
  }

  lemma {:induction false} BitAndNot(a: nat, b: nat, j: nat)
    ensures Bit(AndNot(a, b), j) == (Bit(a, j) && !Bit(b, j))
    decreases j
  {
    if a == 0 {
      BitOfZero(j);
    } else if j > 0 {
      BitAndNot(a / 2, b / 2, j - 1);
    }
  }

  /** The bits of 2^n - 1 - m are the bits below n that m lacks. */
  lemma {:induction false} BitComplement(n: nat, m: nat, j: nat)
    requires m < Pow2(n)
    ensures Bit(Pow2(n) - 1 - m, j) == (j < n && !Bit(m, j))
    decreases n
  {
    if n == 0 {
      BitOfZero(j);
    } else {
      var c := Pow2(n) - 1 - m;
      assert c == 2 * (Pow2(n - 1) - 1 - m / 2) + (1 - m % 2);
      if j > 0 {
        BitComplement(n - 1, m / 2, j - 1);
      }
    }
  }

  lemma BitNot32(m: nat, j: nat)
    requires m < Word
    ensures Bit(Not32(m), j) == (j < 32 && !Bit(m, j))
  {
    Pow2Word();
    BitComplement(32, m, j);
  }

  /** The bits of 2^n - 2^k are exactly the positions k..n-1. */
  lemma {:induction false} BitHighMask(n: nat, k: nat, j: nat)
    requires k <= n
    ensures Pow2(k) <= Pow2(n)
    ensures Bit(Pow2(n) - Pow2(k), j) == (k <= j < n)
    decreases k
  {
    Pow2Monotone(k, n);
    if k == 0 {
      BitComplement(n, 0, j);
      BitOfZero(j);
    } else {
      Pow2Monotone(k - 1, n - 1);
      assert Pow2(n) - Pow2(k) == 2 * (Pow2(n - 1) - Pow2(k - 1));
      if j > 0 {
        BitHighMask(n - 1, k - 1, j - 1);
      }
    }
  }

  /** Adding 2^j to a number that lacks bit j sets exactly that bit. */
  lemma {:induction false} BitAddPow2(a: nat, j: nat, t: nat)
    requires !Bit(a, j)
    ensures Bit(a + Pow2(j), t) == (Bit(a, t) || t == j)
    decreases j
  {
    if j == 0 {
      if t > 0 {
        assert (a + 1) / 2 == a / 2;
      }
    } else {
      assert (a + Pow2(j)) / 2 == a / 2 + Pow2(j - 1);
      assert (a + Pow2(j)) % 2 == a % 2;
      if t > 0 {
        BitAddPow2(a / 2, j - 1, t - 1);
      }
    }
  }

  // ---------------------------------------------------------------------
  // 32-bit words

  /** `(2^32 - 1) << k` keeps the bits k..31. */
  lemma HighWordMask(k: nat, j: nat)
    requires k < 32
    ensures Shl32(Word - 1, k) == Word - Pow2(k)
    ensures Bit(Shl32(Word - 1, k), j) == (k <= j < 32)
  {
    Pow2Word();
    Pow2Monotone(k, 31);
    Pow2SignBit();
    ShiftedOnes(Pow2(k));
    BitHighMask(32, k, j);
  }

  /** Multiplying the all-ones word by `x` wraps to `2^32 - x`. */
  lemma ShiftedOnes(x: nat)
    requires 1 <= x <= SignBit
    ensures ((Word - 1) * x) % Word == Word - x
  {
    var a := (Word - 1) * x;
    assert a == (x - 1) * Word + (Word - x);
    assert a / Word == x - 1;
  }

  lemma AllOnesAnd(u: nat)
    requires u < Word
    ensures And(Word - 1, u) == u
  {
    Pow2Word();
    forall j: nat
      ensures Bit(And(Word - 1, u), j) == Bit(u, j)
    {
      BitAnd(Word - 1, u, j);
      BitComplement(32, 0, j);
      BitOfZero(j);
      if 32 <= j {
        BitBelowPow2(u, 32, j);
      }
    }
    BitsEqual(And(Word - 1, u), u);
  }

  /** The source's `~m & u` is `u` without the bits of `m`. */
  lemma NotAnd(m: nat, u: nat)
    requires m < Word && u < Word
    ensures And(Not32(m), u) == AndNot(u, m)
  {
    forall j: nat
      ensures Bit(And(Not32(m), u), j) == Bit(AndNot(u, m), j)
    {
      BitAnd(Not32(m), u, j);
      BitNot32(m, j);
      BitAndNot(u, m, j);
      if 32 <= j {
        Pow2Word();
        BitBelowPow2(u, 32, j);
      }
    }
    BitsEqual(And(Not32(m), u), AndNot(u, m));
  }

  // ---------------------------------------------------------------------
  // Submasks

  /** A submask is never larger than its mask. */
  lemma {:induction false} SubmaskBelow(m: nat, u: nat)
    requires IsSubmask(m, u)
    ensures m <= u
    decreases u
  {
    if u == 0 {
      forall j: nat
        ensures Bit(m, j) == Bit(0, j)
      {
        BitOfZero(j);
      }
      BitsEqual(m, 0);
    } else {
      forall j: nat | Bit(m / 2, j)
        ensures Bit(u / 2, j)
      {
        assert Bit(m, j + 1);
      }
      SubmaskBelow(m / 2, u / 2);
      assert Bit(m, 0) ==> Bit(u, 0);
    }
  }

  lemma SubmaskOfZero(m: nat)
    requires IsSubmask(m, 0)
    ensures m == 0
  {
    SubmaskBelow(m, 0);
  }

  lemma ZeroIsSubmask(u: nat)
    ensures IsSubmask(0, u)
  {
    forall j: nat
      ensures !Bit(0, j)
    {
      BitOfZero(j);
    }
  }

  lemma SubmaskAnd(m: nat, u: nat)
    requires IsSubmask(m, u)
    ensures And(m, u) == m
  {
    forall j: nat
      ensures Bit(And(m, u), j) == Bit(m, j)
    {
      BitAnd(m, u, j);
    }
    BitsEqual(And(m, u), m);
  }

  lemma AndIsSubmask(a: nat, u: nat)
    ensures IsSubmask(And(a, u), u) && IsSubmask(And(a, u), a)
    ensures And(a, u) <= a && And(a, u) <= u
  {
    forall j: nat
      ensures Bit(And(a, u), j) ==> Bit(u, j) && Bit(a, j)
    {
      BitAnd(a, u, j);
    }
    SubmaskBelow(And(a, u), u);
    SubmaskBelow(And(a, u), a);
  }

  lemma AndNotIsSubmask(u: nat, x: nat)
    ensures IsSubmask(AndNot(u, x), u)
    ensures AndNot(u, x) <= u
  {
    forall j: nat
      ensures Bit(AndNot(u, x), j) ==> Bit(u, j)
    {
      BitAndNot(u, x, j);
    }
    SubmaskBelow(AndNot(u, x), u);
  }

  /** Removing the complement of a submask gives the submask back. */
  lemma AndNotTwice(u: nat, x: nat)
    requires IsSubmask(x, u)
    ensures AndNot(u, AndNot(u, x)) == x
  {
    forall j: nat
      ensures Bit(AndNot(u, AndNot(u, x)), j) == Bit(x, j)
    {
      BitAndNot(u, AndNot(u, x), j);
      BitAndNot(u, x, j);
    }
    BitsEqual(AndNot(u, AndNot(u, x)), x);
  }

  lemma AndNotSelf(u: nat)
    ensures AndNot(u, u) == 0
  {
    forall j: nat
      ensures Bit(AndNot(u, u), j) == Bit(0, j)
    {
      BitAndNot(u, u, j);
      BitOfZero(j);
    }
    BitsEqual(AndNot(u, u), 0);
  }

  lemma AndNotZero(u: nat)
    ensures AndNot(u, 0) == u
  {
    forall j: nat
      ensures Bit(AndNot(u, 0), j) == Bit(u, j)
    {
      BitAndNot(u, 0, j);
      BitOfZero(j);
    }
    BitsEqual(AndNot(u, 0), u);
  }

  /** A submask whose complement in `u` is empty is `u` itself. */
  lemma SubmaskCovering(x: nat, u: nat)
    requires IsSubmask(x, u) && AndNot(u, x) == 0
    ensures x == u
  {
    forall j: nat
      ensures Bit(x, j) == Bit(u, j)
    {
      BitAndNot(u, x, j);
      BitOfZero(j);
    }
    BitsEqual(x, u);
  }

  lemma SubmaskTransitive(a: nat, b: nat, c: nat)
    requires IsSubmask(a, b) && IsSubmask(b, c)
    ensures IsSubmask(a, c)
  {
  }

  /** Every mask below 2^n is a submask of 2^n - 1. */
  lemma SubmaskOfLowMask(u: nat, n: nat)
    requires u < Pow2(n)
    ensures IsSubmask(u, Pow2(n) - 1)
  {
    forall j: nat | Bit(u, j)
      ensures Bit(Pow2(n) - 1, j)
    {
      BitComplement(n, 0, j);
      BitOfZero(j);
      if n <= j {
        BitBelowPow2(u, n, j);
      }
    }
  }

  /**
   * Stepping down from a non-zero submask `m` of `u` with `(m - 1) & u`
   * reaches the largest submask of `u` below `m`.
   */
  lemma {:induction false} PrevSubmask(u: nat, m: nat, x: nat)
    requires IsSubmask(m, u) && m > 0
    requires IsSubmask(x, u) && x < m
    ensures x <= And(m - 1, u)
    decreases m
  {
    assert Bit(x, 0) ==> Bit(u, 0);
    forall j: nat | Bit(m / 2, j)
      ensures Bit(u / 2, j)
    {
      assert Bit(m, j + 1);
    }
    forall j: nat | Bit(x / 2, j)
      ensures Bit(u / 2, j)
    {
      assert Bit(x, j + 1);
    }
    if m % 2 == 1 {
      SubmaskAnd(m / 2, u / 2);
      AndEven(m / 2, u);
    } else {
      PrevSubmask(u / 2, m / 2, x / 2);
      AndOdd(m / 2 - 1, u);
    }
  }

  lemma AndEven(a: nat, b: nat)
    ensures And(2 * a, b) == 2 * And(a, b / 2)
  {
  }

  lemma AndOdd(a: nat, b: nat)
    ensures And(2 * a + 1, b) == 2 * And(a, b / 2) + b % 2
  {
    var c := 2 * a + 1;
    assert c / 2 == a && c % 2 == 1;
    if b == 0 {
      assert And(a, b / 2) == 0;
    }
  }

  /** `(m - 1) & u` is a submask of `u` strictly below `m`. */
  lemma PrevSubmaskBelow(u: nat, m: nat)
    requires m > 0
    ensures IsSubmask(And(m - 1, u), u) && And(m - 1, u) < m
  {
    AndIsSubmask(m - 1, u);
  }

  // ---------------------------------------------------------------------
  // Searching for set bits

  /** No bit of `s` is set at a position from `lo` up to, and without, `hi`. */
  predicate NoBitIn(s: nat, lo: nat, hi: nat)
  {
    forall j: nat :: lo <= j < hi ==> !Bit(s, j)
  }

  /** `s & (0xffffffff << k)` keeps exactly the bits of `s` from position `k` to 31. */
  lemma MaskedWord(s: nat, k: nat)
    requires k < 32
    ensures forall j: nat :: Bit(And(s, Shl32(Word - 1, k)), j) == (Bit(s, j) && k <= j < 32)
  {
    forall j: nat
      ensures Bit(And(s, Shl32(Word - 1, k)), j) == (Bit(s, j) && k <= j < 32)
    {
      BitAnd(s, Shl32(Word - 1, k), j);
      HighWordMask(k, j);
    }
  }

  lemma NoBitsOfZero(k: nat)
    ensures forall j: nat :: k <= j ==> !Bit(0, j)
  {
    forall j: nat | k <= j
      ensures !Bit(0, j)
    {
      BitOfZero(j);
    }
  }

  // ---------------------------------------------------------------------
  // Adding one bit

  /** The low mask grows by one bit: `2^(j+1) - 1` is `2^j - 1` plus bit `j`, which it lacks. */
  lemma LowMaskStep(j: nat)
    ensures !Bit(Pow2(j) - 1, j)
    ensures Pow2(j + 1) - 1 == (Pow2(j) - 1) + Pow2(j)
  {
    BitComplement(j, 0, j);
  }

  /** Adding bit `j` to both a submask and its mask keeps the complement. */
  lemma AddBitToBoth(x: nat, u: nat, j: nat)
    requires IsSubmask(x, u) && !Bit(u, j)
    ensures !Bit(x, j)
    ensures IsSubmask(x + Pow2(j), u + Pow2(j))
    ensures AndNot(u + Pow2(j), x + Pow2(j)) == AndNot(u, x)
  {
    assert !Bit(x, j);
    var x', u' := x + Pow2(j), u + Pow2(j);
    var a, b := AndNot(u', x'), AndNot(u, x);
    forall t: nat
      ensures Bit(x', t) ==> Bit(u', t)
      ensures Bit(a, t) == Bit(b, t)
    {
      BitAddPow2(x, j, t);
      BitAddPow2(u, j, t);
      BitAndNot(u', x', t);
      BitAndNot(u, x, t);
    }
    BitsEqual(a, b);
  }

  /** Adding bit `j` to the mask only adds it to the complement of a submask. */
  lemma AddBitToMask(x: nat, u: nat, j: nat)
    requires IsSubmask(x, u) && !Bit(u, j)
    ensures IsSubmask(x, u + Pow2(j))
    ensures !Bit(AndNot(u, x), j)
    ensures AndNot(u + Pow2(j), x) == AndNot(u, x) + Pow2(j)
  {
    assert !Bit(x, j);
    BitAndNot(u, x, j);
    var u' := u + Pow2(j);
    var a, b := AndNot(u', x), AndNot(u, x) + Pow2(j);
    forall t: nat
      ensures Bit(x, t) ==> Bit(u', t)
      ensures Bit(a, t) == Bit(b, t)
    {
      BitAddPow2(u, j, t);
      BitAddPow2(AndNot(u, x), j, t);
      BitAndNot(u', x, t);
      BitAndNot(u, x, t);
    }
    BitsEqual(a, b);
  }

  lemma MulMonotone(i: nat, j: nat, c: nat)
    requires i <= j
    ensures i * c <= j * c
  {
  }
}
