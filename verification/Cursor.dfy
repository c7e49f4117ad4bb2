/**
 The reversed-binary cursor of the table scan.

 A cursor is ordered by its bits from the least significant one upwards, which is the order of
 the reversed words. In that order a bucket of a table with 2^k slots is one interval of hashes:
 all those that agree with the bucket on the low k bits. The scan moves through these intervals.
 */
module Cursor {
  import opened Basics
  import opened Words

  /** The lowest bit where two words differ, or the width when they are equal. */
  function FirstDiff(a: Word, b: Word, from: nat := 0): (d: nat)
    requires from <= WORD
    ensures from <= d <= WORD
    ensures forall i :: from <= i < d ==> a[i] == b[i]
    ensures d < WORD ==> a[d] != b[d]
    decreases WORD - from
  {
    if from == WORD || a[from] != b[from] then from else FirstDiff(a, b, from + 1)
  }

  /** Word a comes before word b in scan order. */
  predicate Before(a: Word, b: Word) {
    var d := FirstDiff(a, b);
    d < WORD && b[d]
  }

  /** The two words fall in the same bucket of every table with 2^k slots. */
  predicate Agree(a: Word, b: Word, k: nat)
    requires k <= WORD
  {
    forall i :: 0 <= i < k ==> a[i] == b[i]
  }

  /** `v |= ~m0; v = rev(v); v++; v = rev(v);` for the mask m0 = 2^k - 1. */
  function NextCursor(v: Word, k: nat): Word {
    Reverse(Increment(Reverse(Or(v, Not(Mask(k))))))
  }

  /** The highest differing bit decides the numeric order. */
  lemma {:induction false} TopBitDecides(a: seq<bool>, b: seq<bool>, p: nat)
    requires |a| == |b| && p < |a|
    requires !a[p] && b[p]
    requires forall i :: p < i < |a| ==> a[i] == b[i]
    ensures Value(a) < Value(b)
  {
    if p == 0 {
      assert a[1..] == b[1..];
    } else {
      TopBitDecides(a[1..], b[1..], p - 1);
    }
  }

  lemma {:induction false} BitwiseAtLeast(a: seq<bool>, b: seq<bool>)
    requires |a| == |b|
    requires forall i :: 0 <= i < |a| ==> b[i] ==> a[i]
    ensures Value(a) >= Value(b)
  {
    if a != [] { BitwiseAtLeast(a[1..], b[1..]); }
  }

  /** The highest clear bit below k, or -1 when the low k bits are all set. */
  function TopClear(v: Word, k: nat): (z: int)
    requires k <= WORD
    ensures -1 <= z < k
    ensures z >= 0 ==> !v[z]
    ensures forall i :: z < i < k ==> v[i]
  {
    if k == 0 then -1 else if !v[k - 1] then k - 1 else TopClear(v, k - 1)
  }

  /**
   The reversed increment carries downwards: it sets the highest clear bit below k, clears
   everything above it, and keeps everything below it. With no clear bit the cursor is back at 0.
   */
  lemma NextCursorBits(v: Word, k: nat)
    requires k <= WORD
    ensures var z := TopClear(v, k);
            && (z == -1 ==> NextCursor(v, k) == Zero())
            && (z >= 0 ==> forall i :: 0 <= i < WORD ==>
                  NextCursor(v, k)[i] == (if i < z then v[i] else i == z))
  {
    var z := TopClear(v, k);
    var x := Reverse(Or(v, Not(Mask(k))));
    assert forall i :: 0 <= i < WORD ==> x[i] == (WORD - 1 - i >= k || v[WORD - 1 - i]);
    if z == -1 {
      IncrementAllOnes(x);
      assert NextCursor(v, k) == Zero();
    } else {
      IncrementAt(x, WORD - 1 - z);
    }
  }

  /** The scan is over exactly when the low k bits of the cursor were all set. */
  lemma NextCursorZero(v: Word, k: nat)
    requires k <= WORD
    ensures NextCursor(v, k) == Zero() <==> TopClear(v, k) == -1
  {
    NextCursorBits(v, k);
    if TopClear(v, k) != -1 { assert NextCursor(v, k)[TopClear(v, k)]; }
  }

  /** The cursor returned after scanning a table with 2^k slots only uses its low k bits. */
  lemma NextCursorFits(v: Word, k: nat)
    requires k <= WORD
    ensures forall i :: k <= i < WORD ==> !NextCursor(v, k)[i]
  {
    NextCursorBits(v, k);
  }

  /** The scan makes progress: either it is over or the cursor moved forward. */
  lemma NextCursorAdvances(v: Word, k: nat)
    requires k <= WORD
    ensures NextCursor(v, k) == Zero() || Before(v, NextCursor(v, k))
  {
    NextCursorBits(v, k);
    NextCursorZero(v, k);
    var z := TopClear(v, k);
    if z >= 0 {
      assert FirstDiff(v, NextCursor(v, k)) == z;
    }
  }

  /**
   One step covers its interval: a hash at or after the cursor, and before the next cursor, falls
   in the cursor's bucket.
   */
  lemma StepCovers(v: Word, k: nat, h: Word)
    requires k <= WORD
    ensures !Before(h, v) && (NextCursor(v, k) == Zero() || Before(h, NextCursor(v, k))) ==> Agree(h, v, k)
  {
    var d := FirstDiff(h, v);
    if !Before(h, v) && d < k {
      NextCursorZero(v, k);
      NotBeforeNext(v, k, h, d);
    }
  }

  /** A hash that leaves the cursor's bucket upwards is at or after the next cursor. */
  lemma NotBeforeNext(v: Word, k: nat, h: Word, d: nat)
    requires d < k <= WORD && h[d] && !v[d]
    requires forall i :: 0 <= i < d ==> h[i] == v[i]
    ensures TopClear(v, k) >= d && !Before(h, NextCursor(v, k))
  {
    NextCursorBits(v, k);
    AtOrAfter(h, NextCursor(v, k), d);
  }

  lemma AtOrAfter(h: Word, n: Word, d: nat)
    requires d < WORD && h[d] && forall i :: 0 <= i < d ==> h[i] == n[i]
    requires !n[d] || forall i :: d < i < WORD ==> !n[i]
    ensures !Before(h, n)
  {
    var f := FirstDiff(h, n);
    assert f >= d;
  }

  /** The converse: a hash in the cursor's bucket is left behind by the step. */
  lemma StepPasses(v: Word, k: nat, h: Word)
    requires k <= WORD
    requires Agree(h, v, k)
    ensures NextCursor(v, k) == Zero() || Before(h, NextCursor(v, k))
  {
    NextCursorBits(v, k);
    var z := TopClear(v, k);
    if z >= 0 {
      assert FirstDiff(h, NextCursor(v, k)) == z;
    }
  }

  // --------------------------------------------------- two tables, k0 <= k1

  /** The number formed by bits k0..k1: which of the expansions of a small bucket a word names. */
  function Expansion(w: Word, k0: nat, k1: nat): nat
    requires k0 <= k1 <= WORD
  {
    Value(w[k0..k1])
  }

  /**
   What the expansion loop needs of its cursor. The loop counts the expansions upwards from the
   cursor's own, in normal binary order; the expansions that the scan still owes are those from
   the cursor onwards in reversed order. The first include the second exactly when, between k0
   and k1, no clear bit of the cursor lies below a set one.
   */
  predicate ExpansionsInOrder(v: Word, k0: nat, k1: nat)
    requires k0 <= k1 <= WORD
  {
    forall i, j :: k0 <= i < j < k1 && v[j] ==> v[i]
  }

  /** With the condition, every owed expansion is at or above the one the loop starts from. */
  lemma OwedExpansionsReached(v: Word, k0: nat, k1: nat, h: Word)
    requires k0 <= k1 <= WORD
    requires ExpansionsInOrder(v, k0, k1)
    requires Agree(h, v, k0) && !Before(h, v)
    ensures Expansion(h, k0, k1) >= Expansion(v, k0, k1)
  {
    var d := FirstDiff(h, v);
    assert d < WORD ==> !v[d] && h[d];
    forall i | 0 <= i < k1 - k0
      ensures v[k0..k1][i] ==> h[k0..k1][i]
    {
      assert d < k0 + i ==> !v[k0 + i];
    }
    BitwiseAtLeast(h[k0..k1], v[k0..k1]);
  }

  /** Word v with its bits at and above k1 dropped, bit i set and bit j cleared. */
  function Moved(v: Word, k1: nat, i: nat, j: nat): Word {
    seq(WORD, b requires 0 <= b < WORD => b < k1 && b != j && (b == i || v[b]))
  }

  lemma FirstDiffIs(a: Word, b: Word, d: nat)
    requires d < WORD && a[d] != b[d] && forall i :: 0 <= i < d ==> a[i] == b[i]
    ensures FirstDiff(a, b) == d
  {}

  /** Without the condition there is an owed expansion below the one the loop starts from. */
  lemma OwedExpansionMissed(v: Word, k0: nat, k1: nat) returns (h: Word)
    requires k0 <= k1 <= WORD
    requires !ExpansionsInOrder(v, k0, k1)
    ensures Agree(h, v, k0) && Before(v, h)
    ensures Expansion(h, k0, k1) < Expansion(v, k0, k1)
    ensures forall i :: k1 <= i < WORD ==> !h[i]
  {
    var i, j :| k0 <= i < j < k1 && v[j] && !v[i];
    h := Moved(v, k1, i, j);
    MovedIsMissed(v, k0, k1, i, j);
  }

  lemma MovedIsMissed(v: Word, k0: nat, k1: nat, i: nat, j: nat)
    requires k0 <= i < j < k1 <= WORD && v[j] && !v[i]
    ensures var h := Moved(v, k1, i, j);
            Agree(h, v, k0) && Before(v, h) && Expansion(h, k0, k1) < Expansion(v, k0, k1)
  {
    hide FirstDiff, Value;
    var h := Moved(v, k1, i, j);
    FirstDiffIs(v, h, i);
    var a, b := h[k0..k1], v[k0..k1];
    assert forall t :: 0 <= t < k1 - k0 ==> a[t] == h[k0 + t] && b[t] == v[k0 + t];
    TopBitDecides(a, b, j - k0);
  }

  // ------------------------------------------------------ the expansion loop

  /** `(((v | m0) + 1) & ~m0) | (v & m0)`: the next expansion of the same small bucket. */
  function NextExpansion(v: Word, k0: nat): Word {
    Or(And(Increment(Or(v, Mask(k0))), Not(Mask(k0))), And(v, Mask(k0)))
  }

  lemma {:induction false} IncrementDrop(b: seq<bool>, k: nat)
    requires k <= |b| && forall i :: 0 <= i < k ==> b[i]
    ensures Increment(b)[k..] == Increment(b[k..])
  {
    if k > 0 {
      IncrementDrop(b[1..], k - 1);
      assert b[1..][k - 1..] == b[k..];
      assert Increment(b)[k..] == Increment(b[1..])[k - 1..];
    }
  }

  lemma {:induction false} IncrementTake(b: seq<bool>, n: nat)
    requires n <= |b|
    ensures Increment(b)[..n] == Increment(b[..n])
  {
    if n > 0 {
      assert b[..n][1..] == b[1..][..n - 1];
      if b[0] {
        IncrementTake(b[1..], n - 1);
        assert Increment(b)[..n] == [false] + Increment(b[1..])[..n - 1];
      } else {
        assert Increment(b)[..n] == [true] + b[1..][..n - 1];
      }
    }
  }

  /** The next expansion keeps the small bucket and counts one up, wrapping to 0 at the end. */
  lemma NextExpansionCounts(v: Word, k0: nat, k1: nat)
    requires k0 <= k1 <= WORD
    ensures Agree(NextExpansion(v, k0), v, k0)
    ensures var x := Expansion(v, k0, k1);
            Expansion(NextExpansion(v, k0), k0, k1) == if x + 1 == Pow2(k1 - k0) then 0 else x + 1
  {
    var w, n := Or(v, Mask(k0)), NextExpansion(v, k0);
    NextExpansionSlice(v, k0, k1);
    IncrementDrop(w, k0);
    IncrementTake(w[k0..], k1 - k0);
    IncrementValue(v[k0..k1]);
  }

  lemma NextExpansionSlice(v: Word, k0: nat, k1: nat)
    requires k0 <= k1 <= WORD
    ensures var w := Or(v, Mask(k0));
            NextExpansion(v, k0)[k0..k1] == Increment(w)[k0..][..k1 - k0] && w[k0..][..k1 - k0] == v[k0..k1]
  {
    hide Increment;
    var w, n := Or(v, Mask(k0)), NextExpansion(v, k0);
    assert forall i :: k0 <= i < k1 ==> n[i] == Increment(w)[i] && w[i] == v[i];
  }

  lemma {:induction false} ValueZero(b: seq<bool>)
    ensures Value(b) == 0 <==> forall i :: 0 <= i < |b| ==> !b[i]
  {
    if b != [] { ValueZero(b[1..]); }
  }

  /** The loop's test `v & (m0 ^ m1)`: the expansion number is not 0. */
  lemma ExpansionTest(v: Word, k0: nat, k1: nat)
    requires k0 <= k1 <= WORD
    ensures And(v, Xor(Mask(k0), Mask(k1))) == Zero() <==> Expansion(v, k0, k1) == 0
  {
    ValueZero(v[k0..k1]);
    var t := And(v, Xor(Mask(k0), Mask(k1)));
    assert forall i :: 0 <= i < WORD ==> t[i] == (v[i] && k0 <= i < k1);
    if Expansion(v, k0, k1) == 0 {
      assert forall i :: k0 <= i < k1 ==> v[i] == v[k0..k1][i - k0];
      assert t == Zero();
    } else {
      var i :| 0 <= i < k1 - k0 && v[k0..k1][i];
      assert t[k0 + i] && !Zero()[k0 + i];
    }
  }

  /** Sharing a large bucket is sharing the small one and the expansion number. */
  lemma AgreeByExpansion(a: Word, b: Word, k0: nat, k1: nat)
    requires k0 <= k1 <= WORD
    ensures Agree(a, b, k1) <==> Agree(a, b, k0) && Expansion(a, k0, k1) == Expansion(b, k0, k1)
  {
    if Agree(a, b, k1) {
      assert a[k0..k1] == b[k0..k1];
    } else if Agree(a, b, k0) && Expansion(a, k0, k1) == Expansion(b, k0, k1) {
      ValueInjective(a[k0..k1], b[k0..k1]);
      assert forall i :: k0 <= i < k1 ==> a[i] == a[k0..k1][i - k0] && b[i] == b[k0..k1][i - k0];
    }
  }

  /** Two hashes share a bucket of a table with 2^k slots exactly when they agree on k bits. */
  lemma SameBucket(a: Word, b: Word, k: nat)
    requires k <= WORD
    ensures Value(And(a, Mask(k))) == Value(And(b, Mask(k))) <==> Agree(a, b, k)
  {
    var x, y := And(a, Mask(k)), And(b, Mask(k));
    if Value(x) == Value(y) {
      ValueInjective(x, y);
      assert forall i :: 0 <= i < k ==> x[i] == a[i] && y[i] == b[i];
    }
    if Agree(a, b, k) {
      assert x == y;
    }
  }

  /** The next cursor depends only on the bits the mask keeps. */
  lemma NextCursorOfAgreeing(a: Word, b: Word, k: nat)
    requires k <= WORD && Agree(a, b, k)
    ensures NextCursor(a, k) == NextCursor(b, k)
  {
    assert Or(a, Not(Mask(k))) == Or(b, Not(Mask(k)));
  }
}
