/**
 Machine words as the lists of their bits, least significant bit first.

 The hash table code works on `unsigned long` words with `&`, `|`, `^`, `~`, `+ 1` and a
 bit-reversal routine. Here those operators act on the bits, so that the reversed-binary cursor
 of the table scan can be reasoned about bit by bit; `Value` gives the number a list of bits
 stands for and is what indexes a bucket array.
 */
module Words {

  import opened Basics

  const WORD: nat := 64

  /** An `unsigned long`. */
  type Word = w: seq<bool> | |w| == WORD witness seq(WORD, _ => false)

  function Zero(): Word {
    seq(WORD, _ => false)
  }

  function And(a: Word, b: Word): Word {
    seq(WORD, i requires 0 <= i < WORD => a[i] && b[i])
  }

  function Or(a: Word, b: Word): Word {
    seq(WORD, i requires 0 <= i < WORD => a[i] || b[i])
  }

  function Xor(a: Word, b: Word): Word {
    seq(WORD, i requires 0 <= i < WORD => a[i] != b[i])
  }

  function Not(a: Word): Word {
    seq(WORD, i requires 0 <= i < WORD => !a[i])
  }

  /** `a << s`: bits move towards the most significant end, zeros come in at the bottom. */
  function ShiftLeft(a: Word, s: nat): Word {
    seq(WORD, i requires 0 <= i < WORD => s <= i && a[i - s])
  }

  /** `a >> s` on an unsigned word. */
  function ShiftRight(a: Word, s: nat): Word {
    seq(WORD, i requires 0 <= i < WORD => i + s < WORD && a[i + s])
  }

  /** The word 2^k. */
  function Bit(k: nat): Word {
    seq(WORD, i => i == k)
  }

  /** The mask `2^k - 1`: the low k bits set. */
  function Mask(k: nat): Word {
    seq(WORD, i => i < k)
  }

  /** `b + 1`, dropping the carry out of the last bit: the carry stops at the lowest clear bit. */
  function Increment(b: seq<bool>): (r: seq<bool>)
    ensures |r| == |b|
  {
    if b == [] then []
    else if b[0] then [false] + Increment(b[1..])
    else [true] + b[1..]
  }

  /** The number a list of bits stands for. */
  function Value(b: seq<bool>): nat {
    if b == [] then 0 else (if b[0] then 1 else 0) + 2 * Value(b[1..])
  }

  lemma {:induction false} ValueBound(b: seq<bool>)
    ensures Value(b) < Pow2(|b|)
  {
    if b != [] { ValueBound(b[1..]); }
  }

  lemma {:induction false} ValueInjective(a: seq<bool>, b: seq<bool>)
    requires |a| == |b|
    requires Value(a) == Value(b)
    ensures a == b
  {
    if a != [] {
      ValueInjective(a[1..], b[1..]);
      assert a == [a[0]] + a[1..] && b == [b[0]] + b[1..];
    }
  }

  /** `Increment` adds one modulo the width. */
  lemma {:induction false} IncrementValue(b: seq<bool>)
    ensures Value(Increment(b)) == if Value(b) + 1 == Pow2(|b|) then 0 else Value(b) + 1
  {
    if b != [] {
      ValueBound(b[1..]);
      if b[0] {
        IncrementValue(b[1..]);
        assert Increment(b)[1..] == Increment(b[1..]);
      } else {
        assert Increment(b)[1..] == b[1..];
      }
    }
  }

  /** Where the carry stops: everything below is cleared, that bit is set, the rest stays. */
  lemma {:induction false} IncrementAt(b: seq<bool>, p: nat)
    requires p < |b| && !b[p]
    requires forall i :: 0 <= i < p ==> b[i]
    ensures forall i :: 0 <= i < |b| ==> Increment(b)[i] == if i < p then false else if i == p then true else b[i]
  {
    if b[0] {
      IncrementAt(b[1..], p - 1);
    }
  }

  lemma {:induction false} IncrementAllOnes(b: seq<bool>)
    requires forall i :: 0 <= i < |b| ==> b[i]
    ensures forall i :: 0 <= i < |b| ==> !Increment(b)[i]
  {
    if b != [] { IncrementAllOnes(b[1..]); }
  }

  /** Masking with 2^k - 1 keeps the number made of the low k bits. */
  lemma {:induction false} MaskedValue(w: Word, k: nat)
    requires k <= WORD
    ensures Value(And(w, Mask(k))) == Value(w[..k]) < Pow2(k)
  {
    ValueBound(w[..k]);
    var m := And(w, Mask(k));
    assert m == w[..k] + seq(WORD - k, _ => false);
    ZeroPadding(w[..k], WORD - k);
  }

  lemma {:induction false} ZeroPadding(b: seq<bool>, n: nat)
    ensures Value(b + seq(n, _ => false)) == Value(b)
  {
    var z: seq<bool> := seq(n, _ => false);
    if b == [] {
      assert b + z == z;
      if n > 0 {
        assert z[1..] == [] + seq(n - 1, _ => false);
        ZeroPadding([], n - 1);
      }
    } else {
      assert (b + z)[1..] == b[1..] + z;
      ZeroPadding(b[1..], n);
    }
  }

  // ------------------------------------------------------------- bit reversal

  /** The word read backwards. */
  function Reverse(w: Word): Word {
    seq(WORD, i requires 0 <= i < WORD => w[WORD - 1 - i])
  }

  /** Index i with the blocks of s bits mirrored and the order inside a block kept. */
  function BlockMirror(i: int, s: nat): (j: int)
    requires s > 0
  {
    WORD - s - (i / s) * s + i % s
  }

  /** Bit i of `v` is the bit of `w` at the mirrored block position. */
  predicate BlocksMirrored(v: Word, w: Word, s: nat)
    requires s > 0
  {
    forall i :: 0 <= i < WORD ==> 0 <= BlockMirror(i, s) < WORD && v[i] == w[BlockMirror(i, s)]
  }

  /** The mask selecting the even blocks of s bits. */
  predicate EvenBlocks(mask: Word, s: nat)
    requires s > 0
  {
    forall i :: 0 <= i < WORD ==> mask[i] == (i % (s + s) < s)
  }

  lemma Quotient(x: int, d: nat, q: int, r: nat)
    requires d > 0 && r < d && x == q * d + r
    ensures x / d == q && x % d == r
  {
    var e := x / d - q;
    assert e * d == r - x % d;
    MultipleBound(e, d);
  }

  lemma MultipleBound(e: int, d: nat)
    ensures e >= 1 ==> e * d >= d
    ensures e <= -1 ==> e * d <= 0 - d
  {}

  lemma Doubled(a: int, s: int)
    ensures (2 * a) * s == a * (s + s)
    ensures (2 * a + 1) * s == a * (s + s) + s
    ensures (a - 1) * s == a * s - s
  {}

  lemma MirrorOf(i: int, s: nat, q: int, r: nat)
    requires s > 0 && r < s && i == q * s + r
    ensures BlockMirror(i, s) == WORD - s - q * s + r
  {
    Quotient(i, s, q, r);
  }

  /** Swapping with the neighbouring block of s bits turns mirrored 2s-blocks into mirrored s-blocks. */
  lemma MirrorStep(i: nat, s: nat, a: nat, r: nat)
    requires s > 0 && r < s + s && i == a * (s + s) + r
    ensures i % (s + s) == r
    ensures r < s ==> BlockMirror(i, s) == BlockMirror(i + s, s + s)
    ensures r >= s ==> i >= s && BlockMirror(i, s) == BlockMirror(i - s, s + s)
  {
    var p := a * (s + s);
    Doubled(a, s);
    Quotient(i, s + s, a, r);
    if r < s {
      MirrorOf(i, s, 2 * a, r);
      MirrorOf(i + s, s + s, a, r + s);
    } else {
      MirrorOf(i, s, 2 * a + 1, r - s);
      MirrorOf(i - s, s + s, a, r - s);
    }
  }

  /** Blocks do not straddle the end of the word. */
  lemma LastBlock(i: nat, s: nat, c: nat, a: nat, r: nat)
    requires s > 0 && c * (s + s) == WORD
    requires i < WORD && r < s && i == a * (s + s) + r
    ensures i + s < WORD
  {
    assert (c - a) * (s + s) == WORD - (i - r);
    MultipleBound(c - a, s + s);
  }

  /** `mask ^= mask << s` turns the mask of even 2s-blocks into the mask of even s-blocks. */
  lemma MaskStep(mask: Word, s: nat)
    requires s > 0
    requires EvenBlocks(mask, s + s)
    ensures EvenBlocks(Xor(mask, ShiftLeft(mask, s)), s)
  {
    forall i: nat | i < WORD
      ensures Xor(mask, ShiftLeft(mask, s))[i] == (i % (s + s) < s)
    {
      assert Xor(mask, ShiftLeft(mask, s))[i] == (mask[i] != (s <= i && mask[i - s]));
      MaskBit(i, s);
    }
  }

  lemma MaskBit(i: nat, s: nat)
    requires s > 0
    ensures (i % (s + s) < s) ==
            ((i % ((s + s) + (s + s)) < s + s) != (s <= i && (i - s) % ((s + s) + (s + s)) < s + s))
  {
    var d := (s + s) + (s + s);
    MaskBitAt(i, s, d, i / d, i % d);
  }

  lemma MaskBitAt(i: nat, s: nat, d: nat, a: nat, r: nat)
    requires s > 0 && d == (s + s) + (s + s)
    requires r < d && i == a * d + r
    ensures i % d == r
    ensures i % (s + s) == if r < s + s then r else r - (s + s)
    ensures s <= i ==> (i - s) % d == if r >= s then r - s else r - s + d
    ensures s > i ==> r < s
  {
    Quotient(i, d, a, r);
    Doubled(a, s + s);
    if r < s + s { Quotient(i, s + s, 2 * a, r); } else { Quotient(i, s + s, 2 * a + 1, r - (s + s)); }
    if r >= s {
      Quotient(i - s, d, a, r - s);
    } else {
      Doubled(a, d);
      Quotient(i - s, d, a - 1, r + d - s);
    }
  }

  lemma SwapBit(w: Word, v: Word, mask: Word, s: nat, c: nat, i: nat)
    requires s > 0 && c * (s + s) == WORD && i < WORD
    requires EvenBlocks(mask, s) && BlocksMirrored(v, w, s + s)
    ensures 0 <= BlockMirror(i, s) < WORD
    ensures Or(And(ShiftRight(v, s), mask), And(ShiftLeft(v, s), Not(mask)))[i] == w[BlockMirror(i, s)]
  {
    hide BlockMirror;
    var a, r := i / (s + s), i % (s + s);
    MirrorStep(i, s, a, r);
    if r < s { LastBlock(i, s, c, a, r); }
  }

  lemma SwapStep(w: Word, v: Word, mask: Word, s: nat, c: nat)
    requires s > 0 && c * (s + s) == WORD
    requires EvenBlocks(mask, s)
    requires BlocksMirrored(v, w, s + s)
    ensures BlocksMirrored(Or(And(ShiftRight(v, s), mask), And(ShiftLeft(v, s), Not(mask))), w, s)
  {
    hide BlockMirror, And, Or, Not, ShiftLeft, ShiftRight, EvenBlocks;
    var v' := Or(And(ShiftRight(v, s), mask), And(ShiftLeft(v, s), Not(mask)));
    forall i: nat | i < WORD
      ensures 0 <= BlockMirror(i, s) < WORD && v'[i] == w[BlockMirror(i, s)]
    {
      SwapBit(w, v, mask, s, c, i);
    }
  }

  lemma Unmirrored(w: Word)
    ensures BlocksMirrored(w, w, WORD) && EvenBlocks(Not(Zero()), WORD)
  {
    hide BlockMirror;
    forall i: nat | i < WORD
      ensures BlockMirror(i, WORD) == i
    {
      MirrorOf(i, WORD, 0, i);
    }
  }

  lemma Mirrored(v: Word, w: Word)
    requires BlocksMirrored(v, w, 1)
    ensures v == Reverse(w)
  {
    assert forall i :: 0 <= i < WORD ==> BlockMirror(i, 1) == WORD - 1 - i;
  }

  /**
   `rev`: swap neighbouring blocks of 32, 16, ..., 1 bits. After the round with block size s the
   blocks of s bits stand in mirrored order, so the last round leaves the word read backwards.
   */
  method Rev(w: Word) returns (v: Word)
    ensures v == Reverse(w)
  {
    hide And, Or, Xor, Not, Zero, ShiftLeft, ShiftRight, BlocksMirrored, EvenBlocks, Reverse;
    v := w;
    var s := WORD;
    var mask := Not(Zero());
    Unmirrored(w);
    s := s / 2;
    ghost var c, last := 1, WORD;
    while s > 0
      invariant s == 32 || s == 16 || s == 8 || s == 4 || s == 2 || s == 1 || s == 0
      invariant last > 0 && s == last / 2 && BlocksMirrored(v, w, last)
      invariant s == 0 ==> last == 1
      invariant s > 0 ==> c * (s + s) == WORD && last == s + s && EvenBlocks(mask, s + s)
    {
      MaskStep(mask, s);
      mask := Xor(mask, ShiftLeft(mask, s));
      SwapStep(w, v, mask, s, c);
      v := Or(And(ShiftRight(v, s), mask), And(ShiftLeft(v, s), Not(mask)));
      c, last := c * 2, s;
      s := s / 2;
    }
    Mirrored(v, w);
  }
}
