/**
 The dense form of a HyperLogLog: 16384 registers of six bits each, packed from the least
 significant bit on into 12288 bytes (src/vr_hyperloglog.c). Four registers share three bytes.
 */
module HllDense {

  import opened Basics
  import opened Words
  import opened Bitwise

  const REGISTERS: nat := 16384
  const REGISTER_MAX: nat := 63
  const HLL_BITS: nat := 6

  /** The packed registers and the zero byte that ends every string of the server: reading or
      writing the last register touches that byte as well. */
  const DENSE_BYTES: nat := 12289

  type Dense = p: seq<byte> | |p| == DENSE_BYTES witness seq(DENSE_BYTES, _ => 0)

  /** The macro that reads one register. */
  function GetRegister(p: Dense, regnum: nat): nat
    requires regnum < REGISTERS
  {
    var at := regnum * HLL_BITS / 8;
    var fb := BitAnd(regnum * HLL_BITS, 7);
    AndBound(regnum * HLL_BITS);
    Window(p[at], p[at + 1], fb)
  }

  /** The macro that writes one register: clear, then join, in each of the two bytes. */
  function SetRegister(p: Dense, regnum: nat, val: nat): Dense
    requires regnum < REGISTERS
  {
    var at := regnum * HLL_BITS / 8;
    var fb := BitAnd(regnum * HLL_BITS, 7);
    AndBound(regnum * HLL_BITS);
    p[at := FirstByte(p[at], val, fb)][at + 1 := SecondByte(p[at + 1], val, fb)]
  }

  function FirstByte(b: byte, val: nat, fb: nat): byte {
    BitOr(BitClear(b, Shl(REGISTER_MAX, fb)), Shl(val, fb)) % 256
  }

  function SecondByte(b: byte, val: nat, fb: nat): byte
    requires fb <= 8
  {
    BitOr(BitClear(b, Shr(REGISTER_MAX, 8 - fb)), Shr(val, 8 - fb)) % 256
  }

  /** The registers a dense buffer holds. */
  function Registers(p: Dense): (r: seq<nat>)
    ensures |r| == REGISTERS
  {
    seq(REGISTERS, i requires 0 <= i < REGISTERS => GetRegister(p, i))
  }

  lemma AndBound(x: nat)
    ensures BitAnd(x, 7) == x % 8
  {
    AndMask(x, 3);
    ShiftValue(x, 3);
    SmallPowers();
  }

  lemma AndRegisterMax(x: nat)
    ensures BitAnd(x, 63) == x % 64
  {
    AndMask(x, 6);
    ShiftValue(x, 6);
    SmallPowers();
  }

  /** Register k of four packed in three bytes. */
  function Part(b0: byte, b1: byte, b2: byte, k: nat): (v: nat)
    requires k < 4
    ensures v <= REGISTER_MAX
  {
    if k == 0 then b0 % 64
    else if k == 1 then b0 / 64 + b1 % 16 * 4
    else if k == 2 then b1 / 16 + b2 % 4 * 16
    else b2 / 4
  }

  /** Where register 4q + k starts. */
  lemma Position(q: nat, k: nat)
    requires k < 4
    ensures (4 * q + k) * HLL_BITS / 8 == 3 * q + (if k == 0 then 0 else k - 1)
    ensures (4 * q + k) * HLL_BITS % 8 == (if k == 0 then 0 else 8 - 2 * k)
  {
    assert (4 * q + k) * HLL_BITS == 8 * (3 * q) + 6 * k;
  }

  lemma JoinLow(x: nat, y: nat, k: nat)
    requires x < Pow2(k)
    ensures BitAnd(BitOr(x, Shl(y, k)), REGISTER_MAX) == (x + Shl(y, k)) % 64
  {
    OrAdds(x, y, k);
    AndRegisterMax(x + Shl(y, k));
  }

  lemma DivBound(a: nat, d: nat, m: nat)
    requires d > 0 && a < d * m
    ensures a / d < m
  {
    assert a / d * d <= a;
    MultipleBound(a / d - m, d);
  }

  /** The six bits from bit fb of byte b0 on. */
  function Window(b0: byte, b1: byte, fb: nat): nat
    requires fb <= 8
  {
    BitAnd(BitOr(Shr(b0, fb), Shl(b1, 8 - fb)), REGISTER_MAX)
  }

  /** Its bits are those bits. */
  lemma WindowBit(b0: byte, b1: byte, fb: nat, j: nat)
    requires fb <= 8 && j < HLL_BITS
    ensures Test(Window(b0, b1, fb), j) <==> if fb + j < 8 then Test(b0, fb + j) else Test(b1, fb + j - 8)
  {
    hide BitAnd, BitOr, Shl, Shr, Test;
    TestAnd(BitOr(Shr(b0, fb), Shl(b1, 8 - fb)), REGISTER_MAX, j);
    TestOr(Shr(b0, fb), Shl(b1, 8 - fb), j);
    TestShifted(b0, fb, j);
    TestShl(b1, 8 - fb, j);
    AllOnes(j);
    if fb + j >= 8 { SmallPowers(); TestHigh(b0, 8, fb + j); }
  }

  lemma AllOnes(j: nat)
    requires j < HLL_BITS
    ensures Test(REGISTER_MAX, j)
  {
    assert Test(1, 0) && Test(3, 1) && Test(7, 2);
    assert Test(15, 3) && Test(31, 4) && Test(63, 5);
    assert Test(63, 0) && Test(63, 1) && Test(63, 2) && Test(63, 3) && Test(63, 4);
  }

  /** The layout: bit j of register i is bit 6 * i + j of the buffer, each byte counted from its least
      significant bit on. */
  lemma RegisterBit(p: Dense, i: nat, j: nat)
    requires i < REGISTERS && j < HLL_BITS
    ensures Test(GetRegister(p, i), j) <==> Test(p[(6 * i + j) / 8], (6 * i + j) % 8)
  {
    hide Window, BitAnd, Test;
    var at, fb := i * HLL_BITS / 8, i * HLL_BITS % 8;
    AndBound(i * HLL_BITS);
    WindowBit(p[at], p[at + 1], fb, j);
    var x := 6 * i + j;
    assert x == 8 * at + (fb + j);
    if fb + j < 8 {
      Quotient(x, 8, at, fb + j);
    } else {
      Quotient(x, 8, at + 1, fb + j - 8);
    }
  }

  lemma WindowValue(b0: byte, b1: byte, fb: nat, d: nat, m: nat)
    requires fb <= 8 && d == Pow2(fb) && m == Pow2(8 - fb) && d * m == 256
    ensures Window(b0, b1, fb) == (b0 / d + b1 * m) % 64
  {
    hide BitAnd, BitOr, BitClear, Shl, Shr, Pow2;
    ShiftValue(b0, fb);
    ShiftValue(b1, 8 - fb);
    DivBound(b0, d, m);
    JoinLow(Shr(b0, fb), b1, 8 - fb);
  }

  lemma LowParts(b0: byte, b1: byte)
    ensures (b0 + b1 * 256) % 64 == b0 % 64
    ensures (b0 / 4 + b1 * 64) % 64 == b0 / 4
    ensures (b0 / 16 + b1 * 16) % 64 == b0 / 16 + b1 % 4 * 16
    ensures (b0 / 64 + b1 * 4) % 64 == b0 / 64 + b1 % 16 * 4
  {
    Mod64(b0 + b1 * 256, b0 / 64 + b1 * 4, b0 % 64);
    Mod64(b0 / 4 + b1 * 64, b1, b0 / 4);
    Mod64(b0 / 16 + b1 * 16, b1 / 4, b0 / 16 + b1 % 4 * 16);
    Mod64(b0 / 64 + b1 * 4, b1 / 16, b0 / 64 + b1 % 16 * 4);
  }

  lemma Mod64(x: nat, q: nat, r: nat)
    requires x == 64 * q + r && r < 64
    ensures x % 64 == r
  {}

  lemma WindowPart(b0: byte, b1: byte, fb: nat)
    requires fb == 0 || fb == 2 || fb == 4 || fb == 6
    ensures Window(b0, b1, fb)
         == (if fb == 0 then b0 % 64
             else if fb == 2 then b0 / 4
             else if fb == 4 then b0 / 16 + b1 % 4 * 16
             else b0 / 64 + b1 % 16 * 4)
  {
    SmallPowers();
    LowParts(b0, b1);
    var d := if fb == 0 then 1 else if fb == 2 then 4 else if fb == 4 then 16 else 64;
    var m := if fb == 0 then 256 else if fb == 2 then 64 else if fb == 4 then 16 else 4;
    WindowValue(b0, b1, fb, d, m);
  }

  lemma GetPart(p: Dense, q: nat, k: nat)
    requires k < 4 && 4 * q + k < REGISTERS
    ensures GetRegister(p, 4 * q + k) == Part(p[3 * q], p[3 * q + 1], p[3 * q + 2], k)
  {
    Position(q, k);
    AndBound((4 * q + k) * HLL_BITS);
    var at, fb := (4 * q + k) * HLL_BITS / 8, (4 * q + k) * HLL_BITS % 8;
    WindowPart(p[at], p[at + 1], fb);
  }

  /** What writing v at bit fb leaves in the first byte: d is 2^fb. */
  lemma FirstByteValue(b: byte, v: nat, fb: nat, d: nat)
    requires d == Pow2(fb) && b / d < 64
    ensures FirstByte(b, v, fb) == (b % d + v * d) % 256
  {
    hide BitAnd, BitOr, BitClear, Shl, Shr, Pow2;
    ShiftValue(b, fb);
    ShiftValue(v, fb);
    AndRegisterMax(Shr(b, fb));
    ReplaceHigh(b, v, REGISTER_MAX, fb);
  }

  lemma FirstByteAligned(b: byte, v: nat, fb: nat, j: nat)
    requires fb == 0 && Pow2(j) == REGISTER_MAX + 1 && v <= REGISTER_MAX
    ensures FirstByte(b, v, fb) == (b - b % 64 + v) % 256
  {
    ReplaceLow(b, v, j);
    SplitAt(b, j);
    ShiftValue(b, j);
  }

  /** What it leaves in the second byte: e is 2^j, the weight of the j bits that spill over. */
  lemma SecondByteValue(b: byte, v: nat, fb: nat, m: nat, j: nat, e: nat)
    requires fb <= 8 && m == Pow2(8 - fb) && e == Pow2(j)
    requires REGISTER_MAX / m == e - 1 && v / m < e
    ensures SecondByte(b, v, fb) == (b - b % e + v / m) % 256
  {
    hide Shl, Shr, Pow2, SecondByte;
    ShiftValue(REGISTER_MAX, 8 - fb);
    ShiftValue(v, 8 - fb);
    LowReplaced(b, v, fb, j);
    LowCleared(b, j, e);
  }

  lemma LowReplaced(b: byte, v: nat, fb: nat, j: nat)
    requires fb <= 8 && Shr(REGISTER_MAX, 8 - fb) == Pow2(j) - 1 && Shr(v, 8 - fb) < Pow2(j)
    ensures SecondByte(b, v, fb) == (Shl(Shr(b, j), j) + Shr(v, 8 - fb)) % 256
  {
    hide BitOr, BitClear, Shl, Shr, Pow2;
    ReplaceLow(b, Shr(v, 8 - fb), j);
  }

  lemma LowCleared(b: nat, j: nat, e: nat)
    requires e == Pow2(j)
    ensures Shl(Shr(b, j), j) == b - b % e
  {
    hide Shl, Shr, Pow2;
    SplitAt(b, j);
    ShiftValue(b, j);
  }

  /** The three ways a register straddles two bytes: d and m are the weights of its first bit in
      the first byte and of the bits left for the second, e is 2^(number of those bits). */
  predicate Straddle(d: nat, m: nat, e: nat) {
    (d == 4 && m == 64 && e == 1) || (d == 16 && m == 16 && e == 4) || (d == 64 && m == 4 && e == 16)
  }

  lemma StraddleBounds(b0: byte, b1: byte, v: nat, d: nat, m: nat, e: nat)
    requires Straddle(d, m, e) && v <= REGISTER_MAX
    ensures b0 / d < 64 && REGISTER_MAX / m == e - 1 && v / m < e && 0 <= b1 - b1 % e + v / m < 256
  {
    if d == 4 {
    } else if d == 16 {
    } else {
    }
  }

  lemma BelowByte(x: int)
    ensures 0 <= x < 256 ==> x % 256 == x
  {}

  lemma SecondByteAcross(b1: byte, v: nat, fb: nat, d: nat, m: nat, e: nat)
    requires v <= REGISTER_MAX && 2 <= fb <= 8 && Straddle(d, m, e)
    requires m == Pow2(8 - fb) && e == Pow2(fb - 2)
    ensures SecondByte(b1, v, fb) == b1 - b1 % e + v / m
  {
    StraddleBounds(b1, b1, v, d, m, e);
    BelowByte(b1 - b1 % e + v / m);
    SecondByteValue(b1, v, fb, m, fb - 2, e);
  }

  lemma FirstByteAcross(b0: byte, v: nat, fb: nat, d: nat, m: nat, e: nat)
    requires v <= REGISTER_MAX && Straddle(d, m, e) && d == Pow2(fb)
    ensures FirstByte(b0, v, fb) == (b0 % d + v * d) % 256
  {
    StraddleBounds(b0, b0, v, d, m, e);
    FirstByteValue(b0, v, fb, d);
  }

  lemma AlignedBounds(b: byte, v: nat, m: nat, e: nat)
    requires m == 256 && e == 1 && v <= REGISTER_MAX
    ensures REGISTER_MAX / m == e - 1 && v / m == 0 && b - b % e + v / m == b
  {}

  lemma SecondByteAligned(b: byte, v: nat, fb: nat, m: nat, e: nat)
    requires v <= REGISTER_MAX && fb == 0 && m == Pow2(8 - fb) && e == Pow2(fb)
    requires m == 256 && e == 1
    ensures SecondByte(b, v, fb) == b
  {
    AlignedBounds(b, v, m, e);
    BelowByte(b);
    SecondByteValue(b, v, fb, m, fb, e);
  }

  /** The two bytes after writing part k. */
  lemma WriteAligned(b0: byte, b1: byte, v: nat, fb: nat)
    requires v <= REGISTER_MAX && fb == 0
    ensures FirstByte(b0, v, fb) == b0 / 64 * 64 + v && SecondByte(b1, v, fb) == b1
  {
    SmallPowers();
    FirstByteAligned(b0, v, fb, 6);
    SecondByteAligned(b1, v, fb, 256, 1);
    AlignedValue(b0, v);
  }

  lemma AlignedValue(b: byte, v: nat)
    requires v <= REGISTER_MAX
    ensures (b - b % 64 + v) % 256 == b / 64 * 64 + v
  {}

  lemma WriteAcross(b0: byte, b1: byte, v: nat, fb: nat, k: nat)
    requires v <= REGISTER_MAX && 1 <= k <= 3 && fb == 8 - 2 * k
    ensures k == 1 ==> FirstByte(b0, v, fb) == b0 % 64 + v % 4 * 64 && SecondByte(b1, v, fb) == b1 / 16 * 16 + v / 4
    ensures k == 2 ==> FirstByte(b0, v, fb) == b0 % 16 + v % 16 * 16 && SecondByte(b1, v, fb) == b1 / 4 * 4 + v / 16
    ensures k == 3 ==> FirstByte(b0, v, fb) == b0 % 4 + v * 4 && SecondByte(b1, v, fb) == b1
  {
    hide FirstByte, SecondByte, Pow2;
    SmallPowers();
    var d := if k == 3 then 4 else if k == 2 then 16 else 64;
    var m := if k == 3 then 64 else if k == 2 then 16 else 4;
    var e := if k == 3 then 1 else if k == 2 then 4 else 16;
    FirstByteAcross(b0, v, fb, d, m, e);
    SecondByteAcross(b1, v, fb, d, m, e);
    AcrossValue(b0, b1, v, k, d, m, e);
  }

  lemma FirstPart(b: byte, v: nat, d: nat)
    requires (d == 4 || d == 16 || d == 64) && v <= REGISTER_MAX
    ensures d == 64 ==> (b % d + v * d) % 256 == b % 64 + v % 4 * 64
    ensures d == 16 ==> (b % d + v * d) % 256 == b % 16 + v % 16 * 16
    ensures d == 4 ==> (b % d + v * d) % 256 == b % 4 + v * 4
  {
    if d == 4 {
      Mod256(b % 4 + v * 4, 0, b % 4 + v * 4);
    } else if d == 16 {
      Mod256(b % 16 + v * 16, v / 16, b % 16 + v % 16 * 16);
    } else {
      Mod256(b % 64 + v * 64, v / 4, b % 64 + v % 4 * 64);
    }
  }

  lemma Mod256(x: nat, q: nat, r: nat)
    requires x == 256 * q + r && r < 256
    ensures x % 256 == r
  {}

  lemma SecondPart(b: byte, v: nat, m: nat, e: nat)
    requires (m == 64 && e == 1) || (m == 16 && e == 4) || (m == 4 && e == 16)
    requires v <= REGISTER_MAX
    ensures e == 16 ==> b - b % e + v / m == b / 16 * 16 + v / 4
    ensures e == 4 ==> b - b % e + v / m == b / 4 * 4 + v / 16
    ensures e == 1 ==> b - b % e + v / m == b
  {}

  lemma AcrossValue(b0: byte, b1: byte, v: nat, k: nat, d: nat, m: nat, e: nat)
    requires Straddle(d, m, e) && v <= REGISTER_MAX
    ensures d == 64 ==> (b0 % d + v * d) % 256 == b0 % 64 + v % 4 * 64 && b1 - b1 % e + v / m == b1 / 16 * 16 + v / 4
    ensures d == 16 ==> (b0 % d + v * d) % 256 == b0 % 16 + v % 16 * 16 && b1 - b1 % e + v / m == b1 / 4 * 4 + v / 16
    ensures d == 4 ==> (b0 % d + v * d) % 256 == b0 % 4 + v * 4 && b1 - b1 % e + v / m == b1
  {
    FirstPart(b0, v, d);
    SecondPart(b1, v, m, e);
  }

  /** Three bytes with part k of four replaced. */
  function Packed(b0: byte, b1: byte, b2: byte, k: nat, v: nat): (byte, byte, byte)
    requires k < 4 && v <= REGISTER_MAX
  {
    if k == 0 then (b0 / 64 * 64 + v, b1, b2)
    else if k == 1 then (b0 % 64 + v % 4 * 64, b1 / 16 * 16 + v / 4, b2)
    else if k == 2 then (b0, b1 % 16 + v % 16 * 16, b2 / 4 * 4 + v / 16)
    else (b0, b1, b2 % 4 + v * 4)
  }

  /** A byte written in two parts reads back as them. */
  lemma TwoParts(hi: nat, lo: nat, d: nat)
    requires lo < d && (d == 4 || d == 16 || d == 64)
    ensures (hi * d + lo) % d == lo && (hi * d + lo) / d == hi
  {}

  lemma PackedPart(b0: byte, b1: byte, b2: byte, k: nat, v: nat, i: nat)
    requires k < 4 && v <= REGISTER_MAX && i < 4
    ensures var (c0, c1, c2) := Packed(b0, b1, b2, k, v);
      Part(c0, c1, c2, i) == if i == k then v else Part(b0, b1, b2, i)
  {
    hide Part, Packed;
    if k < 2 { PackedLow(b0, b1, b2, k, v, i); } else { PackedHigh(b0, b1, b2, k, v, i); }
  }

  lemma PackedLow(b0: byte, b1: byte, b2: byte, k: nat, v: nat, i: nat)
    requires k < 2 && v <= REGISTER_MAX && i < 4
    ensures var (c0, c1, c2) := Packed(b0, b1, b2, k, v);
      Part(c0, c1, c2, i) == if i == k then v else Part(b0, b1, b2, i)
  {
    if k == 0 { TwoParts(b0 / 64, v, 64); } else { PackedOne(b0, b1, v); }
  }

  lemma PackedHigh(b0: byte, b1: byte, b2: byte, k: nat, v: nat, i: nat)
    requires 2 <= k < 4 && v <= REGISTER_MAX && i < 4
    ensures var (c0, c1, c2) := Packed(b0, b1, b2, k, v);
      Part(c0, c1, c2, i) == if i == k then v else Part(b0, b1, b2, i)
  {
    if k == 2 { PackedTwo(b1, b2, v); } else { TwoParts(v, b2 % 4, 4); }
  }

  lemma PackedOne(b0: byte, b1: byte, v: nat)
    requires v <= REGISTER_MAX
    ensures var c0, c1 := b0 % 64 + v % 4 * 64, b1 / 16 * 16 + v / 4;
      c0 % 64 == b0 % 64 && c0 / 64 + c1 % 16 * 4 == v && c1 / 16 == b1 / 16
  {
    TwoParts(v % 4, b0 % 64, 64);
    TwoParts(b1 / 16, v / 4, 16);
  }

  lemma PackedTwo(b1: byte, b2: byte, v: nat)
    requires v <= REGISTER_MAX
    ensures var c1, c2 := b1 % 16 + v % 16 * 16, b2 / 4 * 4 + v / 16;
      c1 % 16 == b1 % 16 && c1 / 16 + c2 % 4 * 16 == v && c2 / 4 == b2 / 4
  {
    TwoParts(v % 16, b1 % 16, 16);
    TwoParts(b2 / 4, v / 16, 4);
  }

  lemma SetAt(p: Dense, regnum: nat, v: nat, at: nat, fb: nat)
    requires regnum < REGISTERS && at == regnum * HLL_BITS / 8 && fb == regnum * HLL_BITS % 8
    ensures SetRegister(p, regnum, v) == p[at := FirstByte(p[at], v, fb)][at + 1 := SecondByte(p[at + 1], v, fb)]
  {
    AndBound(regnum * HLL_BITS);
  }

  lemma PackedBytes(p: Dense, q: nat, k: nat, v: nat, at: nat, fb: nat)
    requires k < 4 && 4 * q + k < REGISTERS && v <= REGISTER_MAX
    requires at == 3 * q + (if k == 0 then 0 else k - 1) && fb == (if k == 0 then 0 else 8 - 2 * k)
    ensures var (c0, c1, c2) := Packed(p[3 * q], p[3 * q + 1], p[3 * q + 2], k, v);
      p[at := FirstByte(p[at], v, fb)][at + 1 := SecondByte(p[at + 1], v, fb)]
      == p[3 * q := c0][3 * q + 1 := c1][3 * q + 2 := c2]
  {
    hide FirstByte, SecondByte;
    if k == 0 {
      WriteAligned(p[at], p[at + 1], v, fb);
    } else {
      WriteAcross(p[at], p[at + 1], v, fb, k);
    }
  }

  lemma SetPart(p: Dense, q: nat, k: nat, v: nat)
    requires k < 4 && 4 * q + k < REGISTERS && v <= REGISTER_MAX
    ensures var (c0, c1, c2) := Packed(p[3 * q], p[3 * q + 1], p[3 * q + 2], k, v);
      SetRegister(p, 4 * q + k, v) == p[3 * q := c0][3 * q + 1 := c1][3 * q + 2 := c2]
  {
    Position(q, k);
    var at, fb := (4 * q + k) * HLL_BITS / 8, (4 * q + k) * HLL_BITS % 8;
    SetAt(p, 4 * q + k, v, at, fb);
    PackedBytes(p, q, k, v, at, fb);
  }

  lemma PartsAfter(p: Dense, p': Dense, q: nat, k: nat, v: nat, r: nat, l: nat)
    requires k < 4 && l < 4 && 4 * q + k < REGISTERS && 4 * r + l < REGISTERS && v <= REGISTER_MAX
    requires var (c0, c1, c2) := Packed(p[3 * q], p[3 * q + 1], p[3 * q + 2], k, v);
      p' == p[3 * q := c0][3 * q + 1 := c1][3 * q + 2 := c2]
    ensures Part(p'[3 * r], p'[3 * r + 1], p'[3 * r + 2], l)
         == if r == q && l == k then v else Part(p[3 * r], p[3 * r + 1], p[3 * r + 2], l)
  {
    if r == q { PackedPart(p[3 * q], p[3 * q + 1], p[3 * q + 2], k, v, l); }
  }

  lemma SetThenGetParts(p: Dense, q: nat, k: nat, v: nat, r: nat, l: nat)
    requires k < 4 && l < 4 && 4 * q + k < REGISTERS && 4 * r + l < REGISTERS && v <= REGISTER_MAX
    ensures GetRegister(SetRegister(p, 4 * q + k, v), 4 * r + l)
         == if r == q && l == k then v else GetRegister(p, 4 * r + l)
  {
    var p' := SetRegister(p, 4 * q + k, v);
    SetPart(p, q, k, v);
    GetPart(p, r, l);
    GetPart(p', r, l);
    PartsAfter(p, p', q, k, v, r, l);
  }

  /** Writing one register changes that register and no other. */
  lemma SetThenGet(p: Dense, i: nat, v: nat, j: nat)
    requires i < REGISTERS && j < REGISTERS && v <= REGISTER_MAX
    ensures GetRegister(SetRegister(p, i, v), j) == if j == i then v else GetRegister(p, j)
  {
    hide SetRegister, GetRegister;
    SetThenGetParts(p, i / 4, i % 4, v, j / 4, j % 4);
  }

  lemma SetRegisters(p: Dense, i: nat, v: nat)
    requires i < REGISTERS && v <= REGISTER_MAX
    ensures Registers(SetRegister(p, i, v)) == Registers(p)[i := v]
  {
    forall j | 0 <= j < REGISTERS
      ensures Registers(SetRegister(p, i, v))[j] == Registers(p)[i := v][j]
    {
      SetThenGet(p, i, v, j);
    }
  }

}
