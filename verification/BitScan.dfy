/**
 Finding and counting bits of a string a word at a time (src/vr_bitops.c), whatever the alignment
 of the string in memory.
 */
module BitScan {

  import opened Basics
  import opened Words
  import opened Bitwise
  import opened Bitfields

  const WORD_BYTES: nat := 8

  /** Bit k of a string, with zeros behind its end. */
  predicate PaddedBit(s: seq<byte>, k: nat) {
    k / 8 < |s| && BitAt(s, k)
  }

  /** No bit below n equals the one looked for. */
  predicate NoneBelow(s: seq<byte>, n: nat, bit: bool) {
    forall k :: 0 <= k < n ==> PaddedBit(s, k) != bit
  }

  /** A byte all of whose bits are the ones not looked for. */
  function SkipByte(bit: bool): byte {
    if bit then 0 else 255
  }

  lemma SkipBits(bit: bool, j: nat)
    requires j < 8
    ensures Test(SkipByte(bit), j) != bit
  {
    if bit { TestZero(j); } else { AllOnes(8, j); }
  }

  lemma {:induction false} AllOnes(k: nat, j: nat)
    requires j < k
    ensures Test(Pow2(k) - 1, j)
    decreases k
  {
    if j > 0 { AllOnes(k - 1, j - 1); }
  }

  lemma SkipMore(s: seq<byte>, i: nat, bit: bool)
    requires i < |s| && s[i] == SkipByte(bit) && NoneBelow(s, 8 * i, bit)
    ensures NoneBelow(s, 8 * (i + 1), bit)
  {
    forall k | 8 * i <= k < 8 * (i + 1)
      ensures PaddedBit(s, k) != bit
    {
      SkipBits(bit, 7 - k % 8);
    }
  }

  /** Skips bytes one by one until an aligned address or a byte of interest. */
  method SkipBytes(s: seq<byte>, align: nat, bit: bool) returns (i: nat)
    ensures i <= |s| && NoneBelow(s, 8 * i, bit)
  {
    i := 0;
    while (align + i) % WORD_BYTES != 0 && i < |s|
      invariant i <= |s| && NoneBelow(s, 8 * i, bit)
      decreases |s| - i
    {
      if s[i] != SkipByte(bit) { break; }
      SkipMore(s, i, bit);
      i := i + 1;
    }
  }

  /** Skips whole words. */
  method SkipWords(s: seq<byte>, from: nat, bit: bool) returns (i: nat)
    requires from <= |s| && NoneBelow(s, 8 * from, bit)
    ensures from <= i <= |s| && NoneBelow(s, 8 * i, bit)
    ensures |s| - i >= WORD_BYTES ==> exists k :: i <= k < i + WORD_BYTES && s[k] != SkipByte(bit)
  {
    i := from;
    while |s| - i >= WORD_BYTES
      invariant from <= i <= |s| && NoneBelow(s, 8 * i, bit)
    {
      var word := s[i..i + WORD_BYTES];
      if word != seq(WORD_BYTES, _ => SkipByte(bit)) {
        ghost var k :| 0 <= k < |word| && word[k] != SkipByte(bit);
        assert s[i + k] != SkipByte(bit);
        return;
      }
      SkipWord(s, i, bit, WORD_BYTES);
      i := i + WORD_BYTES;
    }
  }

  lemma {:induction false} SkipWord(s: seq<byte>, i: nat, bit: bool, n: nat)
    requires i + n <= |s| && NoneBelow(s, 8 * i, bit)
    requires forall k :: i <= k < i + n ==> s[k] == SkipByte(bit)
    ensures NoneBelow(s, 8 * (i + n), bit)
    decreases n
  {
    if n > 0 {
      SkipWord(s, i, bit, n - 1);
      SkipMore(s, i + n - 1, bit);
    }
  }

  lemma NextByte(word: nat, b: byte, j: nat)
    ensures Test(BitOr(Shl(word, 8), b), j) == if j < 8 then Test(b, j) else Test(word, j - 8)
  {
    TestOr(Shl(word, 8), b, j);
    TestShl(word, 8, j);
    if j >= 8 {
      SmallPowers();
      TestHigh(b, 8, j);
    }
  }

  /** The first n bytes of word, most significant first, are those of s from i on, zero padded. */
  predicate Loaded(word: nat, s: seq<byte>, i: nat, n: nat) {
    word < Pow2(8 * n) && forall t :: 0 <= t < 8 * n ==> Test(word, t) == PaddedBit(s, 8 * i + 8 * n - 1 - t)
  }

  /** The padding byte after the end, or the byte itself. */
  function ByteOrZero(s: seq<byte>, i: nat): byte {
    if i < |s| then s[i] else 0
  }

  lemma LoadMore(word: nat, s: seq<byte>, i: nat, n: nat)
    requires Loaded(word, s, i, n)
    ensures Loaded(BitOr(Shl(word, 8), ByteOrZero(s, i + n)), s, i, n + 1)
  {
    var b := ByteOrZero(s, i + n);
    var w := BitOr(Shl(word, 8), b);
    LoadBound(word, b, n);
    forall t | 0 <= t < 8 * (n + 1)
      ensures Test(w, t) == PaddedBit(s, 8 * i + 8 * (n + 1) - 1 - t)
    {
      NextByte(word, b, t);
      if t < 8 {
        TestZero(t);
      } else {
        assert Test(word, t - 8) == PaddedBit(s, 8 * i + 8 * n - 1 - (t - 8));
      }
    }
  }

  lemma LoadBound(word: nat, b: byte, n: nat)
    requires word < Pow2(8 * n)
    ensures BitOr(Shl(word, 8), b) < Pow2(8 * (n + 1))
  {
    SmallPowers();
    OrAdds(b, word, 8);
    OrCommutes(b, Shl(word, 8));
    ShiftUp(word, 8);
    PowerSplit(8, 8 * n);
  }

  /** Loads up to eight bytes as a big-endian word. */
  method LoadWord(s: seq<byte>, i: nat) returns (word: nat)
    requires i <= |s|
    ensures Loaded(word, s, i, WORD_BYTES)
  {
    word := 0;
    for j := 0 to WORD_BYTES
      invariant Loaded(word, s, i, j)
    {
      LoadMore(word, s, i, j);
      word := BitOr(Shl(word, 8), ByteOrZero(s, i + j));
    }
  }

  /** A byte that is not to be skipped has a bit of interest. */
  lemma {:induction false} InterestingBit(b: nat, n: nat, bit: bool) returns (t: nat)
    requires b < Pow2(n) && b != (if bit then 0 else Pow2(n) - 1)
    ensures t < n && Test(b, t) == bit
    decreases n
  {
    if b % 2 == (if bit then 1 else 0) {
      t := 0;
    } else {
      t := InterestingBit(b / 2, n - 1, bit);
      t := t + 1;
    }
  }

  /** The word loaded after the skips holds a bit looked for, unless no bit is set at all. */
  lemma WordHasMatch(s: seq<byte>, i: nat, word: nat, bit: bool) returns (t: nat)
    requires i <= |s| && Loaded(word, s, i, WORD_BYTES) && (bit ==> word != 0)
    requires |s| - i >= WORD_BYTES ==> exists k :: i <= k < i + WORD_BYTES && s[k] != SkipByte(bit)
    ensures t < 64 && Test(word, t) == bit
  {
    hide BitAnd;
    SmallPowers();
    if bit {
      t := InterestingBit(word, 64, true);
    } else if |s| - i < WORD_BYTES {
      t := 0;
      assert !PaddedBit(s, 8 * i + 63);
    } else {
      var k :| i <= k < i + WORD_BYTES && s[k] != SkipByte(bit);
      var j := InterestingBit(s[k], 8, false);
      t := 8 * (i + 7 - k) + j;
      assert PaddedBit(s, 8 * i + 63 - t) == Test(s[k], j);
    }
  }

  lemma ZeroWindow(s: seq<byte>, i: nat, k: nat)
    requires Loaded(0, s, i, WORD_BYTES) && 8 * i <= k < 8 * i + 64
    ensures !PaddedBit(s, k)
  {
    var t := 8 * i + 63 - k;
    TestZero(t);
    assert Test(0, t) == PaddedBit(s, 8 * i + 8 * WORD_BYTES - 1 - t);
  }

  lemma SetBitOf(s: seq<byte>, k: nat) returns (q: nat)
    requires k < |s| && s[k] != 0
    ensures 8 * k <= q < 8 * k + 8 && PaddedBit(s, q)
  {
    SmallPowers();
    var j := InterestingBit(s[k], 8, true);
    q := 8 * k + 7 - j;
  }

  lemma NoOnes(s: seq<byte>, i: nat)
    requires i <= |s| && NoneBelow(s, 8 * i, true) && Loaded(0, s, i, WORD_BYTES)
    requires |s| - i >= WORD_BYTES ==> exists k :: i <= k < i + WORD_BYTES && s[k] != SkipByte(true)
    ensures NoneBelow(s, 8 * |s|, true)
  {
    forall k | 8 * i <= k < 8 * i + 64
      ensures !PaddedBit(s, k)
    {
      ZeroWindow(s, i, k);
    }
    if |s| - i >= WORD_BYTES {
      var k :| i <= k < i + WORD_BYTES && s[k] != SkipByte(true);
      var q := SetBitOf(s, k);
    }
  }

  /** The first bit of a value in a string taken as followed by zeros; -1 when a set bit is looked
      for and there is none. The scan of the last word always succeeds. */
  method BitPos(s: seq<byte>, align: nat, bit: bool) returns (pos: int)
    ensures pos == -1 <==> bit && NoneBelow(s, 8 * |s|, true)
    ensures pos != -1 ==> 0 <= pos <= 8 * |s| && NoneBelow(s, pos, bit) && PaddedBit(s, pos) == bit
  {
    var i := SkipBytes(s, align, bit);
    i := SkipWords(s, i, bit);
    var word := LoadWord(s, i);
    if bit && word == 0 {
      NoOnes(s, i);
      return -1;
    }
    ghost var t := WordHasMatch(s, i, word, bit);
    pos := ScanWord(s, i, word, bit, 63, t);
    assert !PaddedBit(s, 8 * |s|);
  }

  /** The last word, bit by bit from the most significant one. */
  method ScanWord(s: seq<byte>, i: nat, word: nat, bit: bool, top: nat, ghost t: nat) returns (pos: nat)
    requires i <= |s| && Loaded(word, s, i, WORD_BYTES) && NoneBelow(s, 8 * i, bit)
    requires top == 63 && t <= top && Test(word, t) == bit
    ensures NoneBelow(s, pos, bit) && PaddedBit(s, pos) == bit
  {
    hide BitAnd, Test, Loaded, PaddedBit;
    var one := Pow2(top);
    pos := 8 * i;
    ghost var k := 0;
    while one > 0
      invariant pos == 8 * i + k && k <= top - t && one == Pow2(top - k) && NoneBelow(s, pos, bit)
      decreases top - k
    {
      BitOfWord(s, i, word, one, top - k);
      if (BitAnd(one, word) != 0) == bit { return; }
      pos := pos + 1;
      one := one / 2;
      k := k + 1;
    }
    assert false;
  }

  lemma BitOfWord(s: seq<byte>, i: nat, word: nat, one: nat, t: nat)
    requires Loaded(word, s, i, WORD_BYTES) && t < 64 && one == Pow2(t)
    ensures BitAnd(one, word) != 0 <==> Test(word, t)
    ensures Test(word, t) == PaddedBit(s, 8 * i + 63 - t)
  {
    ShlOne(t);
    AndCommutes(one, word);
    MaskTests(word, t);
    assert Test(word, t) == PaddedBit(s, 8 * i + 8 * WORD_BYTES - 1 - t);
  }

  lemma {:induction false} AndCommutes(a: nat, b: nat)
    ensures BitAnd(a, b) == BitAnd(b, a)
  {
    if a == 0 {
      AndZero(b);
    } else if b == 0 {
      AndZero(a);
    } else {
      AndCommutes(a / 2, b / 2);
    }
  }
}
