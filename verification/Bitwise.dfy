/**
 The bitwise operators of C on non-negative integers, defined bit by bit, and the few laws that
 turn masks and shifts into division and remainder.
 */
module Bitwise {

  import opened Basics
  import opened Words

  /** `a & b` */
  function BitAnd(a: nat, b: nat): (r: nat)
    ensures r <= a
  {
    if a == 0 then 0
    else (if a % 2 == 1 && b % 2 == 1 then 1 else 0) + 2 * BitAnd(a / 2, b / 2)
  }

  /** `a | b` */
  function BitOr(a: nat, b: nat): nat
    decreases a + b
  {
    if a == 0 then b
    else if b == 0 then a
    else (if a % 2 == 1 || b % 2 == 1 then 1 else 0) + 2 * BitOr(a / 2, b / 2)
  }

  /** `a & ~b` */
  function BitClear(a: nat, b: nat): nat {
    a - BitAnd(a, b)
  }

  /** `a << k` */
  function Shl(a: nat, k: nat): nat
    decreases k
  {
    if k == 0 then a else 2 * Shl(a, k - 1)
  }

  /** `a >> k` */
  function Shr(a: nat, k: nat): nat
    decreases k
  {
    if k == 0 then a else Shr(a / 2, k - 1)
  }

  /** The low k bits of a. */
  function Low(a: nat, k: nat): nat
    decreases k
  {
    if k == 0 then 0 else a % 2 + 2 * Low(a / 2, k - 1)
  }

  /** Masking with 2^k - 1 keeps the low k bits. */
  lemma {:induction false} AndMask(a: nat, k: nat)
    ensures BitAnd(a, Pow2(k) - 1) == Low(a, k)
    decreases k
  {
    if k == 0 {
      AndZero(a);
    } else {
      AndMask(a / 2, k - 1);
      if a == 0 { LowZero(k); }
    }
  }

  lemma {:induction false} AndZero(a: nat)
    ensures BitAnd(a, 0) == 0
  {
    if a > 0 { AndZero(a / 2); }
  }

  lemma {:induction false} LowZero(k: nat)
    ensures Low(0, k) == 0 && Shr(0, k) == 0
  {
    if k > 0 { LowZero(k - 1); }
  }

  /** A mask moved up by k bits picks what lies above the low k bits. */
  lemma {:induction false} AndShifted(a: nat, m: nat, k: nat)
    ensures BitAnd(a, Shl(m, k)) == Shl(BitAnd(Shr(a, k), m), k)
    decreases k
  {
    if k > 0 {
      AndShifted(a / 2, m, k - 1);
      if a == 0 { LowZero(k); }
    }
  }

  /** Joining a number below 2^k to one moved up by k bits adds them. */
  lemma {:induction false} OrAdds(a: nat, b: nat, k: nat)
    requires a < Pow2(k)
    ensures BitOr(a, Shl(b, k)) == a + Shl(b, k)
    decreases k
  {
    if a != 0 && k > 0 { OrAdds(a / 2, b, k - 1); }
  }

  lemma {:induction false} OrCommutes(a: nat, b: nat)
    ensures BitOr(a, b) == BitOr(b, a)
    decreases a + b
  {
    if a != 0 && b != 0 { OrCommutes(a / 2, b / 2); }
  }

  lemma {:induction false} SplitAt(a: nat, k: nat)
    ensures a == Low(a, k) + Shl(Shr(a, k), k)
    ensures Low(a, k) < Pow2(k)
    decreases k
  {
    if k > 0 { SplitAt(a / 2, k - 1); }
  }

  /** Replacing the low k bits. */
  lemma ReplaceLow(a: nat, x: nat, k: nat)
    requires x < Pow2(k)
    ensures BitOr(BitClear(a, Pow2(k) - 1), x) == Shl(Shr(a, k), k) + x
  {
    AndMask(a, k);
    SplitAt(a, k);
    OrAdds(x, Shr(a, k), k);
    OrCommutes(x, Shl(Shr(a, k), k));
  }

  /** Replacing all but the low k bits, with a mask m that covers them. */
  lemma ReplaceHigh(a: nat, v: nat, m: nat, k: nat)
    requires BitAnd(Shr(a, k), m) == Shr(a, k)
    ensures BitOr(BitClear(a, Shl(m, k)), Shl(v, k)) == Low(a, k) + Shl(v, k)
  {
    AndShifted(a, m, k);
    SplitAt(a, k);
    OrAdds(Low(a, k), v, k);
  }

  lemma Halves(a: nat, m: nat)
    requires m > 0
    ensures a / (2 * m) == a / 2 / m && a % (2 * m) == a % 2 + 2 * (a / 2 % m)
  {
    var q, r := a / 2 / m, a / 2 % m;
    assert a / 2 == q * m + r;
    assert a == q * (2 * m) + (a % 2 + 2 * r);
    Quotient(a, 2 * m, q, a % 2 + 2 * r);
  }

  /** Shifts and masks as arithmetic. */
  lemma {:induction false} ShiftValue(a: nat, k: nat)
    ensures Shr(a, k) == a / Pow2(k)
    ensures Low(a, k) == a % Pow2(k)
    ensures Shl(a, k) == a * Pow2(k)
    decreases k
  {
    if k > 0 {
      ShiftValue(a / 2, k - 1);
      ShiftUp(a, k);
      Halves(a, Pow2(k - 1));
    }
  }

  lemma {:induction false} ShiftUp(a: nat, k: nat)
    ensures Shl(a, k) == a * Pow2(k)
  {
    if k > 0 {
      ShiftUp(a, k - 1);
      assert a * Pow2(k) == 2 * (a * Pow2(k - 1));
    }
  }

  lemma SmallPowers()
    ensures Pow2(0) == 1 && Pow2(1) == 2 && Pow2(2) == 4 && Pow2(3) == 8 && Pow2(4) == 16
    ensures Pow2(5) == 32 && Pow2(6) == 64 && Pow2(7) == 128 && Pow2(8) == 256
  {}

  // ------------------------------------------------------------------- single bits

  /** Bit j of a number. */
  predicate Test(a: nat, j: nat)
    decreases j
  {
    if j == 0 then a % 2 == 1 else Test(a / 2, j - 1)
  }

  lemma {:induction false} TestShr(a: nat, j: nat)
    ensures Test(a, j) <==> Shr(a, j) % 2 == 1
    decreases j
  {
    if j > 0 { TestShr(a / 2, j - 1); }
  }

  lemma {:induction false} TestShifted(a: nat, s: nat, j: nat)
    ensures Test(Shr(a, s), j) <==> Test(a, s + j)
    decreases s
  {
    if s > 0 { TestShifted(a / 2, s - 1, j); }
  }

  lemma {:induction false} TestAnd(a: nat, b: nat, j: nat)
    ensures Test(BitAnd(a, b), j) <==> Test(a, j) && Test(b, j)
    decreases j
  {
    if a == 0 {
      TestZero(j);
    } else if j > 0 {
      TestAnd(a / 2, b / 2, j - 1);
    }
  }

  lemma {:induction false} TestZero(j: nat)
    ensures !Test(0, j)
  {
    if j > 0 { TestZero(j - 1); }
  }

  lemma {:induction false} TestOr(a: nat, b: nat, j: nat)
    ensures Test(BitOr(a, b), j) <==> Test(a, j) || Test(b, j)
    decreases j
  {
    if a == 0 || b == 0 {
      TestZero(j);
    } else if j > 0 {
      TestOr(a / 2, b / 2, j - 1);
    }
  }

  lemma {:induction false} TestClear(a: nat, b: nat, j: nat)
    ensures Test(BitClear(a, b), j) <==> Test(a, j) && !Test(b, j)
    decreases j
  {
    if a == 0 {
      TestZero(j);
    } else {
      assert BitClear(a, b) == (if a % 2 == 1 && b % 2 == 0 then 1 else 0) + 2 * BitClear(a / 2, b / 2);
      if j > 0 { TestClear(a / 2, b / 2, j - 1); }
    }
  }

  lemma {:induction false} TestShl(a: nat, k: nat, j: nat)
    ensures Test(Shl(a, k), j) <==> j >= k && Test(a, j - k)
    decreases k
  {
    if k > 0 && j > 0 { TestShl(a, k - 1, j - 1); }
  }

  lemma {:induction false} TestHigh(a: nat, k: nat, j: nat)
    requires a < Pow2(k) && k <= j
    ensures !Test(a, j)
    decreases k
  {
    if k == 0 { TestZero(j); } else { TestHigh(a / 2, k - 1, j - 1); }
  }

  lemma {:induction false} OrBound(a: nat, b: nat, k: nat)
    requires a < Pow2(k) && b < Pow2(k)
    ensures BitOr(a, b) < Pow2(k)
    decreases k
  {
    if a != 0 && b != 0 { OrBound(a / 2, b / 2, k - 1); }
  }

  lemma {:induction false} ShlOne(k: nat)
    ensures Shl(1, k) == Pow2(k)
  {
    if k > 0 { ShlOne(k - 1); }
  }
}
