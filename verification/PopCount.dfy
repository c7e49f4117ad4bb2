/**
 Counting the set bits of a string (src/vr_bitops.c): byte by byte through a table up to an aligned
 address, then 28 bytes at a time by adding up neighbouring bit groups inside 32-bit words, then
 the rest byte by byte.
 */
module PopCounts {

  import opened Basics
  import opened Words
  import opened Bitwise
  import opened Bitfields
  import opened LittleEndian

  /** The number of ones among the low n bits. */
  function Ones(w: nat, n: nat): (r: nat)
    ensures r <= n
    decreases n
  {
    if n == 0 then 0 else w % 2 + Ones(w / 2, n - 1)
  }

  /** The counts of n neighbouring groups of k bits, each in its group's place. */
  function Lanes(w: nat, k: nat, n: nat): nat
    decreases n
  {
    if n == 0 then 0 else Ones(w, k) + Shl(Lanes(Shr(w, k), k, n - 1), k)
  }

  /** A mask m repeated n times, k bits apart. */
  function Repeated(m: nat, k: nat, n: nat): nat {
    if n == 0 then 0 else m + Shl(Repeated(m, k, n - 1), k)
  }

  lemma {:induction false} OnesSplit(w: nat, j: nat, k: nat)
    ensures Ones(w, j + k) == Ones(w, j) + Ones(Shr(w, j), k)
    decreases j
  {
    if j > 0 { OnesSplit(w / 2, j - 1, k); }
  }

  /** Masking group by group. */
  lemma AndBit(x: nat, y: nat)
    ensures BitAnd(x, y) == (if x % 2 == 1 && y % 2 == 1 then 1 else 0) + 2 * BitAnd(x / 2, y / 2)
  {}

  lemma HalfShifted(m: nat, rest: nat, k: nat)
    requires k > 0
    ensures (m + Shl(rest, k)) / 2 == m / 2 + Shl(rest, k - 1) && (m + Shl(rest, k)) % 2 == m % 2
  {}

  lemma HalfLow(x: nat, k: nat)
    requires k > 0
    ensures Low(x, k) / 2 == Low(x / 2, k - 1) && Low(x, k) % 2 == x % 2
  {}

  lemma {:induction false} AndSplit(x: nat, m: nat, rest: nat, k: nat)
    requires m < Pow2(k)
    ensures BitAnd(x, m + Shl(rest, k)) == BitAnd(Low(x, k), m) + Shl(BitAnd(Shr(x, k), rest), k)
    decreases k
  {
    if k > 0 {
      hide BitAnd;
      AndSplit(x / 2, m / 2, rest, k - 1);
      AndBit(x, m + Shl(rest, k));
      AndBit(Low(x, k), m);
      HalfShifted(m, rest, k);
      HalfLow(x, k);
    }
  }

  lemma {:induction false} LowLow(x: nat, j: nat, k: nat)
    requires j <= k
    ensures Low(Low(x, k), j) == Low(x, j)
    decreases k
  {
    if j > 0 { LowLow(x / 2, j - 1, k - 1); }
  }

  /** A mask of j ones every k bits, on the first group and on the others. */
  lemma GroupAnd(x: nat, j: nat, k: nat, rest: nat)
    requires j <= k
    ensures BitAnd(x, Pow2(j) - 1 + Shl(rest, k)) == Low(x, j) + Shl(BitAnd(Shr(x, k), rest), k)
  {
    Pow2Monotone(j, k);
    AndSplit(x, Pow2(j) - 1, rest, k);
    AndMask(Low(x, k), j);
    LowLow(x, j, k);
  }

  /** The same in numbers: c is 2^j and d is 2^k. */
  lemma GroupMask(x: nat, j: nat, k: nat, c: nat, d: nat, rest: nat, low: nat, high: nat)
    requires j <= k && c == Pow2(j) && d == Pow2(k)
    requires low == x % c && high == x / d
    ensures BitAnd(x, c - 1 + rest * d) == low + BitAnd(high, rest) * d
  {
    GroupAnd(x, j, k, rest);
    ShiftValue(x, j);
    ShiftValue(x, k);
    ShiftUp(rest, k);
    ShiftUp(BitAnd(high, rest), k);
  }

  lemma MaskOne(x: nat, r: nat)
    ensures BitAnd(x, 1 + 4 * r) == x % 2 + 4 * BitAnd(x / 4, r)
  {
    SmallPowers();
    GroupMask(x, 1, 2, 2, 4, r, x % 2, x / 4);
  }

  lemma MaskThree(x: nat, r: nat)
    ensures BitAnd(x, 3 + 16 * r) == x % 4 + 16 * BitAnd(x / 16, r)
  {
    SmallPowers();
    GroupMask(x, 2, 4, 4, 16, r, x % 4, x / 16);
  }

  lemma MaskFifteen(x: nat, r: nat)
    ensures BitAnd(x, 15 + 256 * r) == x % 16 + 256 * BitAnd(x / 256, r)
  {
    SmallPowers();
    GroupMask(x, 4, 8, 16, 256, r, x % 16, x / 256);
  }

  lemma {:induction false} ShrShr(w: nat, j: nat, k: nat)
    ensures Shr(Shr(w, j), k) == Shr(w, j + k)
    decreases j
  {
    if j > 0 { ShrShr(w / 2, j - 1, k); }
  }

  /** The first group of 2k bits as two groups of k bits. */
  lemma TwoGroups(w: nat, w': nat, k: nat, m: nat, m': nat)
    requires m == m' + 2 && w' == Shr(w, k + k)
    ensures Lanes(w, k, m) == Ones(w, k) + Shl(Ones(Shr(w, k), k) + Shl(Lanes(w', k, m'), k), k)
  {
    ShrShr(w, k, k);
    OneDeep(w, k, m);
    OneDeep(Shr(w, k), k, m - 1);
  }

  lemma ShiftTwice(q: nat, r: nat, k: nat)
    ensures Pow2(k) == 4 ==> Shl(q + Shl(r, k), k) == 4 * q + 16 * r
    ensures Pow2(k) == 16 ==> Shl(q + Shl(r, k), k) == 16 * q + 256 * r
  {
    ShiftUp(r, k);
    ShiftUp(q + Shl(r, k), k);
  }

  lemma GroupValues(w: nat, w': nat, k: nat, m: nat, m': nat)
    requires m == m' + 2 && w' == Shr(w, k + k)
    ensures Pow2(k) == 4 ==> Lanes(w, k, m) == Ones(w, k) + 4 * Ones(Shr(w, k), k) + 16 * Lanes(w', k, m')
    ensures Pow2(k) == 16 ==> Lanes(w, k, m) == Ones(w, k) + 16 * Ones(Shr(w, k), k) + 256 * Lanes(w', k, m')
  {
    TwoGroups(w, w', k, m, m');
    ShiftTwice(Ones(Shr(w, k), k), Lanes(w', k, m'), k);
  }

  lemma OneDeep(w: nat, k: nat, m: nat)
    requires m > 0
    ensures Lanes(w, k, m) == Ones(w, k) + Shl(Lanes(Shr(w, k), k, m - 1), k)
  {}

  /** And as one: e is 2^(2k). */
  lemma OneGroup(w: nat, w': nat, k: nat, l: nat, e: nat, n: nat)
    requires n > 0 && l == k + k && e == Pow2(l) && w' == Shr(w, l)
    ensures Lanes(w, l, n) == Ones(w, k) + Ones(Shr(w, k), k) + Lanes(w', l, n - 1) * e
  {
    OnesSplit(w, k, k);
    ShiftUp(Lanes(w', l, n - 1), l);
  }

  /** One step of three below: the groups of k bits become groups of 2k bits. */
  lemma MaskStep(m: nat, k: nat, n: nat)
    requires n > 0
    ensures Repeated(m, k, n) == m + Repeated(m, k, n - 1) * Pow2(k)
  {
    ShiftUp(Repeated(m, k, n - 1), k);
  }

  lemma PairArithmetic(w: nat, x: nat, l: nat, m: nat)
    requires w / 4 - x == l && m == w / 2 % 2 + 4 * x
    ensures w - m == w % 2 + w / 2 % 2 + 4 * l
  {}

  lemma QuarterPower(m: nat)
    requires m >= 2
    ensures Pow2(m) == 4 * Pow2(m - 2)
  {}

  lemma OnesOfPair(w: nat, k: nat)
    requires Pow2(k) == 4
    ensures Ones(w, k) == w % 2 + w / 2 % 2
  {
    assert Pow2(k - 1) == 2 && Pow2(k - 2) == 1 && k == 2;
  }

  lemma PairLanes(w: nat, n: nat, k: nat)
    requires n > 0 && Pow2(k) == 4
    ensures Lanes(w, k, n) == w % 2 + w / 2 % 2 + 4 * Lanes(w / 4, k, n - 1)
  {
    OneDeep(w, k, n);
    OnesOfPair(w, k);
    ShiftValue(w, k);
    ShiftUp(Lanes(w / 4, k, n - 1), k);
  }

  predicate PairsCounted(w: nat, m: nat, l: nat) {
    w - BitAnd(w / 2, m) == l
  }

  lemma PairInduct(w: nat, m: nat, l: nat, m': nat, l': nat)
    requires PairsCounted(w / 4, m', l') && m == 1 + 4 * m' && l == w % 2 + w / 2 % 2 + 4 * l'
    ensures PairsCounted(w, m, l)
  {
    MaskOne(w / 2, m');
    assert w / 2 / 4 == w / 4 / 2;
    PairArithmetic(w, BitAnd(w / 4 / 2, m'), l', BitAnd(w / 2, m));
  }

  /** Subtracting the upper bit of every pair leaves the number of ones of the pair. */
  lemma {:induction false} PairStep(w: nat, n: nat, k: nat)
    requires Pow2(k) == 4 && w < Pow2(2 * n)
    ensures PairsCounted(w, Repeated(1, k, n), Lanes(w, k, n))
    decreases n
  {
    if n == 0 {
      AndZero(w / 2);
    } else {
      QuarterPower(2 * n);
      PairStep(w / 4, n - 1, k);
      PairLanes(w, n, k);
      MaskStep(1, k, n);
      PairInduct(w, Repeated(1, k, n), Lanes(w, k, n), Repeated(1, k, n - 1), Lanes(w / 4, k, n - 1));
    }
  }

  lemma NibbleArithmetic(x: nat, a: nat, b: nat, r: nat)
    requires x == a + 4 * b + 16 * r && a <= 2 && b <= 2
    ensures x % 4 == a && x / 16 == r && x / 4 % 4 == b && x / 4 / 16 == r / 4
  {}

  predicate NibblesCounted(x: nat, m: nat, l: nat) {
    BitAnd(x, m) + BitAnd(x / 4, m) == l
  }

  lemma NibbleInduct(x: nat, m: nat, l: nat, x': nat, m': nat, l': nat, a: nat, b: nat)
    requires NibblesCounted(x', m', l') && a <= 2 && b <= 2
    requires x == a + 4 * b + 16 * x' && m == 3 + 16 * m' && l == a + b + 16 * l'
    ensures NibblesCounted(x, m, l)
  {
    NibbleArithmetic(x, a, b, x');
    MaskThree(x, m');
    MaskThree(x / 4, m');
  }

  /** Adding neighbouring pairs gives the number of ones of each group of four bits. */
  lemma {:induction false} NibbleStep(w: nat, n: nat, k: nat, l: nat)
    requires k <= 2 && l == k + k && Pow2(k) == 4 && Pow2(l) == 16
    ensures NibblesCounted(Lanes(w, k, 2 * n), Repeated(3, l, n), Lanes(w, l, n))
    decreases n
  {
    if n > 0 {
      NibbleStep(Shr(w, l), n - 1, k, l);
      NibbleMore(w, Shr(w, l), n, k, l, 2 * n, 2 * (n - 1));
    }
  }

  lemma NibbleMore(w: nat, w': nat, n: nat, k: nat, l: nat, m: nat, m': nat)
    requires k <= 2 && l == k + k && Pow2(k) == 4 && Pow2(l) == 16
    requires n > 0 && w' == Shr(w, l) && m == m' + 2
    requires NibblesCounted(Lanes(w', k, m'), Repeated(3, l, n - 1), Lanes(w', l, n - 1))
    ensures NibblesCounted(Lanes(w, k, m), Repeated(3, l, n), Lanes(w, l, n))
  {
    GroupValues(w, w', k, m, m');
    OneGroup(w, w', k, l, 16, n);
    MaskStep(3, l, n);
    NibbleInduct(Lanes(w, k, m), Repeated(3, l, n), Lanes(w, l, n),
                 Lanes(w', k, m'), Repeated(3, l, n - 1), Lanes(w', l, n - 1), Ones(w, k), Ones(Shr(w, k), k));
  }

  lemma ByteArithmetic(y: nat, a: nat, b: nat, r: nat)
    requires y == a + 16 * b + 256 * r && a <= 4 && b <= 4 && r % 16 <= 4
    ensures (y + y / 16) % 16 == a + b && (y + y / 16) / 256 == r + r / 16 && y % 16 == a
  {
    assert y / 16 == b + 16 * r;
  }

  /** The first group of four bits counts at most four, so that nothing is carried into a byte. */
  predicate BytesCounted(y: nat, m: nat, l: nat) {
    BitAnd(y + y / 16, m) == l && y % 16 <= 4
  }

  lemma ByteInduct(y: nat, m: nat, l: nat, y': nat, m': nat, l': nat, a: nat, b: nat)
    requires BytesCounted(y', m', l') && a <= 4 && b <= 4
    requires y == a + 16 * b + 256 * y' && m == 15 + 256 * m' && l == a + b + 256 * l'
    ensures BytesCounted(y, m, l)
  {
    ByteArithmetic(y, a, b, y');
    MaskFifteen(y + y / 16, m');
  }

  /** Adding neighbouring groups of four gives the number of ones of each byte. */
  lemma {:induction false} ByteStep(w: nat, n: nat, k: nat, l: nat)
    requires k <= 4 && l == k + k && Pow2(k) == 16 && Pow2(l) == 256
    ensures BytesCounted(Lanes(w, k, 2 * n), Repeated(15, l, n), Lanes(w, l, n))
    decreases n
  {
    if n > 0 {
      var w' := Shr(w, l);
      ByteStep(w', n - 1, k, l);
      ByteMore(w, w', n, k, l, 2 * n, 2 * (n - 1));
    } else {
      NoBytes(w, k, l);
    }
  }

  lemma NoBytes(w: nat, k: nat, l: nat)
    ensures BytesCounted(Lanes(w, k, 0), Repeated(15, l, 0), Lanes(w, l, 0))
  {}

  lemma ByteMore(w: nat, w': nat, n: nat, k: nat, l: nat, m: nat, m': nat)
    requires k <= 4 && l == k + k && Pow2(k) == 16 && Pow2(l) == 256
    requires n > 0 && w' == Shr(w, l) && m == m' + 2
    requires BytesCounted(Lanes(w', k, m'), Repeated(15, l, n - 1), Lanes(w', l, n - 1))
    ensures BytesCounted(Lanes(w, k, m), Repeated(15, l, n), Lanes(w, l, n))
  {
    GroupValues(w, w', k, m, m');
    OneGroup(w, w', k, l, 256, n);
    MaskStep(15, l, n);
    ByteInduct(Lanes(w, k, m), Repeated(15, l, n), Lanes(w, l, n),
               Lanes(w', k, m'), Repeated(15, l, n - 1), Lanes(w', l, n - 1), Ones(w, k), Ones(Shr(w, k), k));
  }

  // ----------------------------------------------------------------------- counting

  /** The number of ones of a number: the entries of the table of bytes. */
  function BitsIn(b: nat): nat {
    if b == 0 then 0 else b % 2 + BitsIn(b / 2)
  }

  lemma {:induction false} OnesIsBitsIn(b: nat, k: nat)
    requires b < Pow2(k)
    ensures Ones(b, k) == BitsIn(b)
    decreases k
  {
    if k > 0 { OnesIsBitsIn(b / 2, k - 1); }
  }

  lemma {:induction false} OnesOfLow(w: nat, k: nat)
    ensures Ones(Low(w, k), k) == Ones(w, k)
    decreases k
  {
    if k > 0 { OnesOfLow(w / 2, k - 1); }
  }

  /** The number of set bits of a string, byte by byte. */
  function CountBits(s: seq<byte>): nat {
    if s == [] then 0 else CountBits(s[..|s| - 1]) + BitsIn(s[|s| - 1])
  }

  lemma {:induction false} CountAppend(a: seq<byte>, b: seq<byte>)
    ensures CountBits(a + b) == CountBits(a) + CountBits(b)
  {
    if b == [] {
      assert a + b == a;
    } else {
      var n := |b| - 1;
      assert (a + b)[..|a| + n] == a + b[..n];
      CountAppend(a, b[..n]);
    }
  }

  const MASK_PAIRS: nat := 0x55555555
  const MASK_NIBBLES: nat := 0x33333333
  const MASK_BYTES: nat := 0x0F0F0F0F

  lemma MaskValues(j: nat, k: nat, l: nat)
    requires Pow2(j) == 4 && Pow2(k) == 16 && Pow2(l) == 256
    ensures Repeated(1, j, 16) == MASK_PAIRS && Repeated(3, k, 8) == MASK_NIBBLES && Repeated(15, l, 4) == MASK_BYTES
  {
    PairMasks(j);
    NibbleMasks(k);
    MaskStep(15, l, 4);
    MaskStep(15, l, 3);
    MaskStep(15, l, 2);
    MaskStep(15, l, 1);
  }

  lemma NibbleMasks(k: nat)
    requires Pow2(k) == 16
    ensures Repeated(3, k, 8) == MASK_NIBBLES
  {
    MaskStep(3, k, 8);
    MaskStep(3, k, 7);
    MaskStep(3, k, 6);
    MaskStep(3, k, 5);
    MaskStep(3, k, 4);
    MaskStep(3, k, 3);
    MaskStep(3, k, 2);
    MaskStep(3, k, 1);
  }

  lemma PairMasks(j: nat)
    requires Pow2(j) == 4
    ensures Repeated(1, j, 16) == MASK_PAIRS
  {
    HalfPairMask(j);
    MaskStep(1, j, 16);
    MaskStep(1, j, 15);
    MaskStep(1, j, 14);
    MaskStep(1, j, 13);
    MaskStep(1, j, 12);
    MaskStep(1, j, 11);
    MaskStep(1, j, 10);
    MaskStep(1, j, 9);
  }

  lemma HalfPairMask(j: nat)
    requires Pow2(j) == 4
    ensures Repeated(1, j, 8) == 0x5555
  {
    MaskStep(1, j, 8);
    MaskStep(1, j, 7);
    MaskStep(1, j, 6);
    MaskStep(1, j, 5);
    MaskStep(1, j, 4);
    MaskStep(1, j, 3);
    MaskStep(1, j, 2);
    MaskStep(1, j, 1);
  }

  /** Each byte's count in its own byte. */
  function Weighted(bs: seq<byte>): nat {
    if bs == [] then 0 else BitsIn(bs[0]) + 256 * Weighted(bs[1..])
  }

  lemma LaneOfByte(b: byte, rest: nat, k: nat, n: nat)
    requires Pow2(k) == 256 && n > 0
    ensures Lanes(b + 256 * rest, k, n) == BitsIn(b) + 256 * Lanes(rest, k, n - 1)
  {
    var w := b + 256 * rest;
    OneDeep(w, k, n);
    ByteShift(b, rest, k);
    ShiftUp(Lanes(rest, k, n - 1), k);
    OnesOfLow(w, k);
    OnesIsBitsIn(b, k);
  }

  lemma ByteShift(b: byte, rest: nat, k: nat)
    requires Pow2(k) == 256
    ensures Shr(b + 256 * rest, k) == rest && Low(b + 256 * rest, k) == b
  {
    ShiftValue(b + 256 * rest, k);
  }

  lemma {:induction false} LanesOfBytes(bs: seq<byte>, k: nat)
    requires Pow2(k) == 256
    ensures Lanes(FromBytes(bs), k, |bs|) == Weighted(bs)
  {
    if bs != [] {
      LanesOfBytes(bs[1..], k);
      LaneOfByte(bs[0], FromBytes(bs[1..]), k, |bs|);
    }
  }

  /** Group widths of 2, 4 and 8 bits and the masks that go with them, for words of n bytes. */
  ghost predicate Widths(i: nat, j: nat, k: nat, n: nat, mi: nat, mj: nat, mk: nat) {
    && i <= 2 && j == i + i && k == j + j
    && Pow2(i) == 4 && Pow2(j) == 16 && Pow2(k) == 256
    && Repeated(1, i, 2 * (2 * n)) == mi && Repeated(3, j, 2 * n) == mj && Repeated(15, k, n) == mk
    && Pow2(2 * (2 * (2 * n))) == Pow256(n)
  }

  lemma WordWidths(i: nat, j: nat, k: nat, n: nat)
    requires i == 2 && j == 4 && k == 8 && n == 4
    ensures Widths(i, j, k, n, MASK_PAIRS, MASK_NIBBLES, MASK_BYTES)
  {
    SmallPowers();
    MaskValues(i, j, k);
    PowerSplit(16, 16);
    PowerSplit(8, 8);
  }

  function CountPairs(w: nat, m: nat): int {
    w - BitAnd(w / 2, m)
  }

  function CountNibbles(x: nat, m: nat): nat {
    BitAnd(x, m) + BitAnd(x / 4, m)
  }

  function CountBytes(y: nat, m: nat): nat {
    BitAnd(y + y / 16, m)
  }

  lemma WordSteps(word: nat, x: int, y: nat, z: nat, mi: nat, mj: nat, mk: nat, i: nat, j: nat, k: nat, n: nat)
    requires Widths(i, j, k, n, mi, mj, mk) && word < Pow256(n)
    requires x == CountPairs(word, mi) && (x >= 0 ==> y == CountNibbles(x, mj)) && z == CountBytes(y, mk)
    ensures x >= 0 && z == Lanes(word, k, n)
  {
    StepOne(word, x, mi, i, 2 * (2 * n));
    StepTwo(word, x, y, mj, i, j, 2 * n);
    StepThree(word, y, z, mk, j, k, n);
  }

  lemma StepOne(word: nat, x: int, m: nat, i: nat, p: nat)
    requires Pow2(i) == 4 && word < Pow2(2 * p) && m == Repeated(1, i, p) && x == CountPairs(word, m)
    ensures x == Lanes(word, i, p)
  {
    PairStep(word, p, i);
  }

  lemma StepTwo(word: nat, x: nat, y: nat, m: nat, i: nat, j: nat, p: nat)
    requires i <= 2 && j == i + i && Pow2(i) == 4 && Pow2(j) == 16
    requires x == Lanes(word, i, 2 * p) && m == Repeated(3, j, p) && y == CountNibbles(x, m)
    ensures y == Lanes(word, j, p)
  {
    NibbleStep(word, p, i, j);
  }

  lemma StepThree(word: nat, y: nat, z: nat, m: nat, j: nat, k: nat, p: nat)
    requires j <= 4 && k == j + j && Pow2(j) == 16 && Pow2(k) == 256
    requires y == Lanes(word, j, 2 * p) && m == Repeated(15, k, p) && z == CountBytes(y, m)
    ensures z == Lanes(word, k, p)
  {
    ByteStep(word, p, j, k);
  }

  /** The three steps on one word of n bytes. */
  method WordCounts(bs: seq<byte>, ghost i: nat, ghost j: nat, ghost k: nat) returns (aux: nat)
    requires Widths(i, j, k, |bs|, MASK_PAIRS, MASK_NIBBLES, MASK_BYTES)
    ensures aux == Weighted(bs)
  {
    var word := FromBytes(bs);
    FromBytesBound(bs);
    LanesOfBytes(bs, k);
    var mi, mj, mk := MASK_PAIRS, MASK_NIBBLES, MASK_BYTES;
    var x := CountPairs(word, mi);
    StepOne(word, x, mi, i, 2 * (2 * |bs|));
    var y := CountNibbles(x, mj);
    aux := CountBytes(y, mk);
    WordSteps(word, x, y, aux, mi, mj, mk, i, j, k, |bs|);
  }

  lemma BitsInByte(b: byte, k: nat)
    requires Pow2(k) == 256 && k <= 8
    ensures BitsIn(b) <= 8
  {
    OnesIsBitsIn(b, k);
  }

  // The bytes of a word as a list of counts, and what such lists add up to.

  function Pack(q: seq<nat>): nat {
    if q == [] then 0 else q[0] + 256 * Pack(q[1..])
  }

  function Total(q: seq<nat>): nat {
    if q == [] then 0 else q[0] + Total(q[1..])
  }

  predicate Bounded(q: seq<nat>, max: nat) {
    forall i :: 0 <= i < |q| ==> q[i] <= max
  }

  function Plus(q: seq<nat>, r: seq<nat>): (s: seq<nat>)
    requires |q| == |r|
    ensures |s| == |q|
  {
    if q == [] then [] else [q[0] + r[0]] + Plus(q[1..], r[1..])
  }

  lemma {:induction false} PlusSums(q: seq<nat>, r: seq<nat>, m: nat, n: nat)
    requires |q| == |r| && Bounded(q, m) && Bounded(r, n)
    ensures Pack(Plus(q, r)) == Pack(q) + Pack(r) && Total(Plus(q, r)) == Total(q) + Total(r)
    ensures Bounded(Plus(q, r), m + n)
  {
    if q != [] {
      PlusSums(q[1..], r[1..], m, n);
      var s := Plus(q, r);
      assert s[1..] == Plus(q[1..], r[1..]);
      forall i | 0 <= i < |s|
        ensures s[i] <= m + n
      {
        if i > 0 { assert s[i] == s[1..][i - 1]; }
      }
    }
  }

  /** The counts of the bytes of a word. */
  function Counts(bs: seq<byte>): (q: seq<nat>)
    ensures |q| == |bs|
  {
    if bs == [] then [] else [BitsIn(bs[0])] + Counts(bs[1..])
  }

  lemma {:induction false} CountsSums(bs: seq<byte>, k: nat)
    requires Pow2(k) == 256 && k <= 8
    ensures Pack(Counts(bs)) == Weighted(bs) && Total(Counts(bs)) == CountBits(bs) && Bounded(Counts(bs), 8)
  {
    if bs != [] {
      CountsSums(bs[1..], k);
      var q := Counts(bs);
      assert q[1..] == Counts(bs[1..]);
      BitsInByte(bs[0], k);
      CountAppend([bs[0]], bs[1..]);
      assert [bs[0]] + bs[1..] == bs;
      assert CountBits([bs[0]]) == BitsIn(bs[0]);
      forall i | 0 <= i < |q|
        ensures q[i] <= 8
      {
        if i > 0 { assert q[i] == q[1..][i - 1]; }
      }
    }
  }

  /** Multiplying by 0x01010101 adds the four bytes up in the top one, modulo 2^32. */
  lemma TopByte(q: seq<nat>)
    requires |q| == 4 && Bounded(q, 56)
    ensures Pack(q) * 0x01010101 % 0x1_0000_0000 / 0x100_0000 == Total(q)
  {
    var a, b, c, d := q[0], q[1], q[2], q[3];
    FourBytes(q);
    var rest := a + 256 * (a + b) + 65536 * (a + b + c);
    var low := rest + 0x100_0000 * (a + b + c + d);
    var high := (b + c + d) + 256 * (c + d) + 65536 * d;
    Quotient(low, 0x100_0000, a + b + c + d, rest);
    assert Pack(q) * 0x01010101 == high * 0x1_0000_0000 + low;
    Quotient(Pack(q) * 0x01010101, 0x1_0000_0000, high, low);
  }

  lemma FourBytes(q: seq<nat>)
    requires |q| == 4
    ensures Pack(q) == q[0] + 256 * q[1] + 65536 * q[2] + 16777216 * q[3]
    ensures Total(q) == q[0] + q[1] + q[2] + q[3]
  {
    var r := q[1..];
    var s := r[1..];
    var t := s[1..];
    assert t[1..] == [];
    assert Pack(t) == q[3] && Pack(s) == q[2] + 256 * Pack(t) && Pack(r) == q[1] + 256 * Pack(s);
    assert Total(t) == q[3] && Total(s) == q[2] + Total(t) && Total(r) == q[1] + Total(s);
  }

  /** One word of four bytes. */
  method FourCounts(bs: seq<byte>) returns (aux: nat)
    requires |bs| == 4
    ensures aux == Pack(Counts(bs)) && Total(Counts(bs)) == CountBits(bs) && Bounded(Counts(bs), 8)
  {
    WordWidths(2, 4, 8, |bs|);
    aux := WordCounts(bs, 2, 4, 8);
    SmallPowers();
    CountsSums(bs, 8);
  }

  /** The byte counts of some words added up. */
  method SumWords(s: seq<byte>, words: nat) returns (sum: nat, ghost q: seq<nat>)
    requires |s| == 4 * words
    ensures |q| == 4 && sum == Pack(q) && Bounded(q, 8 * words) && Total(q) == CountBits(s)
  {
    sum, q := 0, [0, 0, 0, 0];
    FourBytes(q);
    var n := 0;
    while n < words
      invariant n <= words && |q| == 4 && sum == Pack(q) && Bounded(q, 8 * n) && Total(q) == CountBits(s[..4 * n])
    {
      var bs := s[4 * n..4 * n + 4];
      var aux := FourCounts(bs);
      CountMore(s, 4 * n, 4);
      PlusSums(q, Counts(bs), 8 * n, 8);
      sum, q := sum + aux, Plus(q, Counts(bs));
      n := n + 1;
    }
    assert s[..4 * n] == s;
  }

  /** Seven words at a time. */
  method CountSeven(s: seq<byte>) returns (bits: nat)
    requires |s| == 28
    ensures bits == CountBits(s)
  {
    var sum, q := SumWords(s, 7);
    TopByte(q);
    bits := sum * 0x01010101 % 0x1_0000_0000 / 0x100_0000;
  }

  lemma CountMore(s: seq<byte>, i: nat, n: nat)
    requires i + n <= |s|
    ensures CountBits(s[..i + n]) == CountBits(s[..i]) + CountBits(s[i..i + n])
  {
    CountAppend(s[..i], s[i..i + n]);
    assert s[..i] + s[i..i + n] == s[..i + n];
  }

  lemma CountOneMore(s: seq<byte>, i: nat)
    requires i < |s|
    ensures CountBits(s[..i + 1]) == CountBits(s[..i]) + BitsIn(s[i])
  {
    assert s[..i + 1][..i] == s[..i];
  }

  method PopCount(s: seq<byte>, align: nat) returns (bits: nat)
    ensures bits == CountBits(s)
  {
    bits := 0;
    var i := 0;
    while (align + i) % 4 != 0 && i < |s|
      invariant i <= |s| && bits == CountBits(s[..i])
      decreases |s| - i
    {
      CountOneMore(s, i);
      bits := bits + BitsIn(s[i]);
      i := i + 1;
    }
    while |s| - i >= 28
      invariant i <= |s| && bits == CountBits(s[..i])
    {
      CountMore(s, i, 28);
      var more := CountSeven(s[i..i + 28]);
      bits := bits + more;
      i := i + 28;
    }
    while i < |s|
      invariant i <= |s| && bits == CountBits(s[..i])
    {
      CountOneMore(s, i);
      bits := bits + BitsIn(s[i]);
      i := i + 1;
    }
    assert s[..i] == s;
  }

  // ------------------------------------------------------------- what has been counted

  /** The number of set bits among the first n, one by one. */
  function SetBits(s: seq<byte>, n: nat): nat
    requires n <= 8 * |s|
  {
    if n == 0 then 0 else SetBits(s, n - 1) + (if BitAt(s, n - 1) then 1 else 0)
  }

  lemma OnesOneMore(b: nat, k: nat)
    ensures Ones(b, k + 1) == Ones(b, k) + (if Test(b, k) then 1 else 0)
  {
    OnesSplit(b, k, 1);
    TestShr(b, k);
    assert Ones(Shr(b, k), 1) == Shr(b, k) % 2 + Ones(Shr(b, k) / 2, 0);
  }

  /** The last t bits of byte i. */
  lemma {:induction false} BitsOfByte(s: seq<byte>, i: nat, t: nat)
    requires i < |s| && t <= 8
    ensures SetBits(s, 8 * i + 8 - t) + Ones(s[i], t) == SetBits(s, 8 * i + 8)
    decreases t
  {
    hide BitAt, Ones, Test;
    if t > 0 {
      BitsOfByte(s, i, t - 1);
      OnesOneMore(s[i], t - 1);
      BitOfByte(s, i, t - 1);
    }
  }

  lemma BitOfByte(s: seq<byte>, i: nat, t: nat)
    requires i < |s| && t < 8
    ensures BitAt(s, 8 * i + 7 - t) == Test(s[i], t)
  {}

  /** The count is the number of positions at which the string has a set bit. */
  lemma {:induction false} CountIsSetBits(s: seq<byte>, n: nat)
    requires n <= |s|
    ensures CountBits(s[..n]) == SetBits(s, 8 * n)
  {
    if n > 0 {
      CountIsSetBits(s, n - 1);
      CountOneMore(s, n - 1);
      ByteBits(s, n - 1, 8);
    }
  }

  lemma ByteBits(s: seq<byte>, i: nat, k: nat)
    requires i < |s| && k == 8
    ensures SetBits(s, 8 * i + 8) == SetBits(s, 8 * i) + BitsIn(s[i])
  {
    BitsOfByte(s, i, k);
    SmallPowers();
    OnesIsBitsIn(s[i], k);
  }
}
