/**
 Integers of any width at any bit offset of a string (src/vr_bitops.c), bit 0 being the most
 significant bit of the first byte, and the arithmetic of the BITFIELD command on them.
 */
module Bitfields {

  import opened Basics
  import opened Words
  import opened Bitwise
  import opened Decimal

  /** Bit i of a string. */
  predicate BitAt(p: seq<byte>, i: nat)
    requires i / 8 < |p|
  {
    Test(p[i / 8], 7 - i % 8)
  }

  /** The number made of n bits of a string, most significant bit first. */
  function Field(p: seq<byte>, offset: nat, n: nat): (v: nat)
    requires offset + n <= 8 * |p|
    ensures v < Pow2(n)
  {
    if n == 0 then 0 else 2 * Field(p, offset, n - 1) + (if BitAt(p, offset + n - 1) then 1 else 0)
  }

  lemma LowBit(x: nat)
    ensures BitAnd(x, 1) == x % 2
  {
    AndZero(x / 2);
  }

  lemma AppendBit(value: nat, bit: nat)
    requires bit <= 1
    ensures BitOr(Shl(value, 1), bit) == 2 * value + bit
  {
    ShiftUp(value, 1);
    OrAdds(bit, value, 1);
    OrCommutes(bit, Shl(value, 1));
    assert Shl(value, 1) == 2 * Shl(value, 0);
  }

  method GetUnsigned(p: seq<byte>, at: nat, bits: nat) returns (value: nat)
    requires at + bits <= 8 * |p|
    ensures value == Field(p, at, bits)
  {
    value := 0;
    var offset := at;
    for j := 0 to bits
      invariant offset == at + j && value == Field(p, at, j)
    {
      var i := offset / 8;
      var bit := 7 - offset % 8;
      var byteval := p[i];
      var bitval := BitAnd(Shr(byteval, bit), 1);
      LowBit(Shr(byteval, bit));
      TestShr(byteval, bit);
      AppendBit(value, bitval);
      value := BitOr(Shl(value, 1), bitval);
      offset := offset + 1;
    }
  }

  /** A byte with one bit set to a value. */
  function WithBit(b: byte, bit: nat, bitval: nat): nat {
    BitOr(BitClear(b, Shl(1, bit)), Shl(bitval, bit))
  }

  lemma WithBitIs(b: byte, bit: nat, bitval: nat, j: nat)
    requires bit < 8 && bitval <= 1 && j < 8
    ensures WithBit(b, bit, bitval) < 256
    ensures Test(WithBit(b, bit, bitval), j) == if j == bit then bitval == 1 else Test(b, j)
  {
    TestOr(BitClear(b, Shl(1, bit)), Shl(bitval, bit), j);
    TestClear(b, Shl(1, bit), j);
    TestShl(1, bit, j);
    TestShl(bitval, bit, j);
    OnlyBit(bitval, j - bit);
    OnlyBit(1, j - bit);
    BelowByte(b, bit, bitval);
  }

  lemma OnlyBit(v: nat, j: int)
    requires v <= 1
    ensures j >= 0 ==> (Test(v, j) <==> j == 0 && v == 1)
  {
    if j > 0 { TestZero(j - 1); }
  }

  lemma BelowByte(b: byte, bit: nat, bitval: nat)
    requires bit < 8 && bitval <= 1
    ensures WithBit(b, bit, bitval) < 256
  {
    SmallPowers();
    ShiftUp(bitval, bit);
    PowerBelow(bit, 8);
    OrBound(BitClear(b, Shl(1, bit)), Shl(bitval, bit), 8);
  }

  lemma {:induction false} PowerBelow(j: nat, k: nat)
    requires j < k
    ensures 2 * Pow2(j) <= Pow2(k)
    decreases k
  {
    if j < k - 1 { PowerBelow(j, k - 1); }
  }

  method SetUnsigned(p: array<byte>, at: nat, bits: nat, value: nat)
    requires at + bits <= 8 * p.Length
    modifies p
    ensures forall i :: 0 <= i < 8 * p.Length ==>
      BitAt(p[..], i) == if at <= i < at + bits then Test(value, bits - 1 - (i - at)) else BitAt(old(p[..]), i)
  {
    var offset := at;
    for j := 0 to bits
      invariant offset == at + j
      invariant forall i :: 0 <= i < 8 * p.Length ==>
        BitAt(p[..], i) == if at <= i < at + j then Test(value, bits - 1 - (i - at)) else BitAt(old(p[..]), i)
    {
      var bitval := if BitAnd(value, Shl(1, bits - 1 - j)) != 0 then 1 else 0;
      MaskTests(value, bits - 1 - j);
      WriteBit(p, offset, bitval);
      offset := offset + 1;
    }
  }

  /** value & (1 << k) is not zero exactly when bit k is set. */
  lemma MaskTests(value: nat, k: nat)
    ensures BitAnd(value, Shl(1, k)) != 0 <==> Test(value, k)
  {
    AndShifted(value, 1, k);
    LowBit(Shr(value, k));
    TestShr(value, k);
    ShiftUp(Shr(value, k) % 2, k);
  }

  method WriteBit(p: array<byte>, offset: nat, bitval: nat)
    requires offset < 8 * p.Length && bitval <= 1
    modifies p
    ensures forall i :: 0 <= i < 8 * p.Length ==> BitAt(p[..], i) == if i == offset then bitval == 1 else BitAt(old(p[..]), i)
  {
    var k, bit := offset / 8, 7 - offset % 8;
    BelowByte(p[k], bit, bitval);
    ghost var before := p[..];
    p[k] := WithBit(p[k], bit, bitval) % 256;
    forall i | 0 <= i < 8 * p.Length
      ensures BitAt(p[..], i) == if i == offset then bitval == 1 else BitAt(before, i)
    {
      if i / 8 == k { WithBitIs(before[k], bit, bitval, 7 - i % 8); }
    }
  }

  /** The bits from offset on spell the low n bits of v. */
  predicate Spells(p: seq<byte>, offset: nat, n: nat, v: nat)
    requires offset + n <= 8 * |p|
  {
    forall i :: offset <= i < offset + n ==> BitAt(p, i) == Test(v, n - 1 - (i - offset))
  }

  /** Bits that spell a number are read as that number. */
  lemma {:induction false} FieldReads(p: seq<byte>, offset: nat, n: nat, v: nat)
    requires offset + n <= 8 * |p| && Spells(p, offset, n, v)
    ensures Field(p, offset, n) == Low(v, n)
    decreases n
  {
    if n > 0 {
      FieldReads(p, offset, n - 1, v / 2);
      assert BitAt(p, offset + n - 1) == Test(v, 0);
    }
  }

  /** A field depends on its own bits only. */
  lemma {:induction false} FieldSame(p: seq<byte>, a: nat, q: seq<byte>, b: nat, n: nat)
    requires a + n <= 8 * |p| && b + n <= 8 * |q|
    requires forall i :: a <= i < a + n ==> BitAt(p, i) == BitAt(q, i - a + b)
    ensures Field(p, a, n) == Field(q, b, n)
    decreases n
  {
    if n > 0 {
      FieldSame(p, a, q, b, n - 1);
      assert BitAt(p, a + n - 1) == BitAt(q, a + n - 1 - a + b);
    }
  }

  // -------------------------------------------------------------- signed numbers

  const UINT64: nat := 0x1_0000_0000_0000_0000

  /** The number n bits stand for in two's complement. */
  function Signed(v: nat, bits: nat): int {
    if 2 * v < Pow2(bits) then v else v - Pow2(bits)
  }

  /** What n bits keep of a number. */
  function Reduced(v: int, bits: nat): (r: nat)
    ensures r < Pow2(bits)
  {
    v % Pow2(bits)
  }

  lemma {:induction false} TopBit(v: nat, k: nat)
    requires k >= 1 && v < Pow2(k)
    ensures Test(v, k - 1) <==> 2 * v >= Pow2(k)
    decreases k
  {
    if k > 1 { TopBit(v / 2, k - 1); }
  }

  lemma AddMultiple(v: int, m: nat, q: int)
    requires m > 0
    ensures (v + q * m) % m == v % m
  {
    assert v + q * m == (v / m + q) * m + v % m;
    Quotient(v + q * m, m, v / m + q, v % m);
  }

  lemma {:induction false} PowerSplit(j: nat, k: nat)
    ensures Pow2(j + k) == Pow2(j) * Pow2(k)
  {
    if j > 0 {
      PowerSplit(j - 1, k);
      assert Pow2(j) * Pow2(k) == 2 * (Pow2(j - 1) * Pow2(k));
    }
  }

  lemma Power64()
    ensures Pow2(64) == UINT64
  {
    SmallPowers();
    PowerSplit(8, 8);
    PowerSplit(16, 16);
    PowerSplit(32, 32);
  }

  /** Wrapping at 64 bits does not change the low bits. */
  lemma WrapKeeps(v: int, bits: nat)
    requires bits <= 64
    ensures Reduced(v % UINT64, bits) == Reduced(v, bits)
  {
    hide Pow2;
    Power64();
    PowerSplit(64 - bits, bits);
    var q := v / UINT64;
    assert v % UINT64 == v + (-q * Pow2(64 - bits)) * Pow2(bits) by {
      assert q * UINT64 == q * (Pow2(64 - bits) * Pow2(bits));
    }
    AddMultiple(v, Pow2(bits), -q * Pow2(64 - bits));
  }

  /** The signed numbers n bits can hold. */
  predicate InRange(v: int, bits: nat)
    requires bits >= 1
  {
    MinOf(bits) <= v <= MaxOf(bits)
  }

  function MaxOf(bits: nat): int
    requires bits >= 1
  {
    Pow2(bits - 1) - 1
  }

  function MinOf(bits: nat): int
    requires bits >= 1
  {
    -1 - MaxOf(bits)
  }

  lemma SignedReduced(v: int, bits: nat)
    requires bits >= 1 && InRange(v, bits)
    ensures Signed(Reduced(v, bits), bits) == v
  {
    if v < 0 {
      Quotient(v, Pow2(bits), -1, v + Pow2(bits));
    } else {
      Quotient(v, Pow2(bits), 0, v);
    }
  }

  /** Sign extension: setting all bits from `bits` on of a number below 2^bits takes 2^bits off its
      value in two's complement. */
  method GetSigned(p: seq<byte>, at: nat, bits: nat) returns (value: int)
    requires 1 <= bits <= 63 && at + bits <= 8 * |p|
    ensures value == Signed(Field(p, at, bits), bits)
  {
    var v := GetUnsigned(p, at, bits);
    value := v;
    MaskTests(v, bits - 1);
    TopBit(v, bits);
    if BitAnd(v, Shl(1, bits - 1)) != 0 {
      value := v - Pow2(bits);
    }
  }

  method SetSigned(p: array<byte>, at: nat, bits: nat, value: int)
    requires bits <= 63 && at + bits <= 8 * p.Length && IsLong(value)
    modifies p
    ensures Field(p[..], at, bits) == Reduced(value, bits)
    ensures forall i :: 0 <= i < 8 * p.Length && !(at <= i < at + bits) ==> BitAt(p[..], i) == BitAt(old(p[..]), i)
  {
    var uv := if value >= 0 then value else value + UINT64;
    SetUnsigned(p, at, bits, uv);
    FieldReads(p[..], at, bits, uv);
    ShiftValue(uv, bits);
    WrapKeeps(value, bits);
    if value < 0 {
      Quotient(value, UINT64, -1, value + UINT64);
    } else {
      Quotient(value, UINT64, 0, value);
    }
  }

  // ------------------------------------------------------------------ overflow checks

  datatype OverflowType = Wrap | Sat | Fail

  lemma ModBits(v: int, bits: nat)
    requires bits <= 63
    ensures Low(v % UINT64, bits) == Reduced(v, bits)
  {
    ShiftValue(v % UINT64, bits);
    WrapKeeps(v, bits);
  }

  method CheckUnsigned(value: nat, incr: int, bits: nat, ow: OverflowType) returns (r: int, limit: nat)
    requires 1 <= bits <= 63 && value < UINT64 && IsLong(incr)
    ensures -1 <= r <= 1 && (r == 0 <==> value < Pow2(bits) && 0 <= value + incr < Pow2(bits))
    ensures r == -1 <==> !ow.Wrap? && value < Pow2(bits) && value + incr < 0
    ensures r != 0 && ow.Wrap? ==> limit == Reduced(value + incr, bits)
    ensures r != 0 && ow.Sat? ==> limit == if value >= Pow2(bits) || incr > 0 then Pow2(bits) - 1 else 0
  {
    var max := Pow2(bits) - 1;
    limit := 0;
    var wrap := false;
    if value > max || (incr > 0 && incr > max - value) {
      if ow.Wrap? {
        wrap := true;
      } else if ow.Sat? {
        limit := max;
      }
      r := 1;
    } else if incr < 0 && incr < 0 - (value as int) {
      if ow.Wrap? {
        wrap := true;
      } else if ow.Sat? {
        limit := 0;
      }
      r := -1;
    } else {
      r := 0;
    }
    if wrap {
      ModBits(value + incr, bits);
      AndMask((value + incr) % UINT64, bits);
      limit := BitAnd((value + incr) % UINT64, Pow2(bits) - 1);
      r := 1;
    }
  }

  method CheckSigned(value: int, incr: int, bits: nat, ow: OverflowType) returns (r: int, limit: int)
    requires 1 <= bits <= 63 && IsLong(value) && IsLong(incr)
    requires IsLong(MaxOf(bits) - value) && IsLong(MinOf(bits) - value)
    ensures -1 <= r <= 1
    ensures InRange(value, bits) ==> (r == 0 <==> InRange(value + incr, bits))
    ensures !InRange(value, bits) && incr == 0 ==> r != 0
    ensures r == -1 <==> !ow.Wrap? && value <= MaxOf(bits) && value + incr <= MaxOf(bits)
                         && (value < MinOf(bits) || value + incr < MinOf(bits))
    ensures r != 0 && ow.Wrap? ==> limit == Signed(Reduced(value + incr, bits), bits)
    ensures r != 0 && ow.Sat? ==> limit == if value > MaxOf(bits) || value + incr > MaxOf(bits) then MaxOf(bits) else MinOf(bits)
  {
    var max, min := MaxOf(bits), MinOf(bits);
    var maxincr, minincr := max - value, min - value;
    limit := 0;
    var wrap := false;
    if value > max || incr > maxincr || (value >= 0 && incr > 0 && incr > maxincr) {
      if ow.Wrap? {
        wrap := true;
      } else if ow.Sat? {
        limit := max;
      }
      r := 1;
    } else if value < min || incr < minincr || (value < 0 && incr < 0 && incr < minincr) {
      if ow.Wrap? {
        wrap := true;
      } else if ow.Sat? {
        limit := min;
      }
      r := -1;
    } else {
      r := 0;
    }
    if wrap {
      limit := WrapSigned(value, incr, bits);
      r := 1;
    }
  }

  /** The sum taken modulo 2^64, then cut to the width with its sign bit extended. */
  method WrapSigned(value: int, incr: int, bits: nat) returns (limit: int)
    requires 1 <= bits <= 63
    ensures limit == Signed(Reduced(value + incr, bits), bits)
  {
    hide BitAnd, Shl, Low, Test, Pow2;
    var c := (value + incr) % UINT64;
    var msb := Shl(1, bits - 1);
    ModBits(value + incr, bits);
    AndMask(c, bits);
    var low := BitAnd(c, Pow2(bits) - 1);
    MaskTests(c, bits - 1);
    LowTest(c, bits, bits - 1);
    TopBit(low, bits);
    if BitAnd(c, msb) != 0 {
      limit := low - Pow2(bits);
    } else {
      limit := low;
    }
  }

  lemma {:induction false} LowTest(a: nat, k: nat, j: nat)
    requires j < k
    ensures Test(Low(a, k), j) == Test(a, j)
    decreases k
  {
    if j > 0 { LowTest(a / 2, k - 1, j - 1); }
  }

  // ------------------------------------------------------------------- the command

  /** A field as the number it stands for. */
  function FieldValue(p: seq<byte>, offset: nat, bits: nat, sign: bool): int
    requires offset + bits <= 8 * |p|
  {
    if sign then Signed(Field(p, offset, bits), bits) else Field(p, offset, bits)
  }

  predicate Holdable(v: int, bits: nat, sign: bool)
    requires bits >= 1
  {
    if sign then InRange(v, bits) else 0 <= v < Pow2(bits)
  }

  /** What becomes of a value that does not fit. A negative value to be stored in an unsigned field
      saturates at the top. */
  function Overflowed(v: int, bits: nat, sign: bool, isSet: bool, ow: OverflowType): int
    requires bits >= 1
  {
    if ow.Wrap? then (if sign then Signed(Reduced(v, bits), bits) else Reduced(v, bits))
    else if sign then (if v > MaxOf(bits) then MaxOf(bits) else MinOf(bits))
    else if v >= 0 || isSet then Pow2(bits) - 1 else 0
  }

  /** The value a SET or INCRBY leaves in the field. */
  function Target(v: int, bits: nat, sign: bool, isSet: bool, ow: OverflowType): int
    requires bits >= 1
  {
    if Holdable(v, bits, sign) then v else Overflowed(v, bits, sign, isSet, ow)
  }

  /** What is stored can be held; wrapping keeps the value modulo 2^bits; saturating gives the nearest
      value that can be held, except that SET takes a negative number for a large unsigned one. */
  lemma TargetLaws(v: int, bits: nat, sign: bool, isSet: bool, ow: OverflowType)
    requires bits >= 1
    ensures !ow.Fail? ==> Holdable(Target(v, bits, sign, isSet, ow), bits, sign)
    ensures Holdable(v, bits, sign) ==> Target(v, bits, sign, isSet, ow) == v
    ensures ow.Wrap? ==> (Target(v, bits, sign, isSet, ow) - v) % Pow2(bits) == 0
    ensures ow.Sat? && (sign || !isSet || v >= 0) ==>
              forall u :: Holdable(u, bits, sign) ==> Distance(v, Target(v, bits, sign, isSet, ow)) <= Distance(v, u)
    ensures ow.Sat? && !sign && isSet && v < 0 ==>
              forall u :: Holdable(u, bits, sign) ==> u <= Target(v, bits, sign, isSet, ow)
  {
    assert Pow2(bits) == 2 * Pow2(bits - 1);
    SignedInRange(Reduced(v, bits), bits);
    ReducedKeeps(v, Pow2(bits));
  }

  function Distance(a: int, b: int): nat {
    if a < b then b - a else a - b
  }

  lemma ReducedKeeps(v: int, n: nat)
    requires n > 0
    ensures (v % n - v) % n == 0 && (v % n - n - v) % n == 0 && 0 % n == 0
  {
    var q := v / n;
    assert v == q * n + v % n;
    Quotient(v % n - v, n, -q, 0);
    Quotient(v % n - n - v, n, -q - 1, 0);
    Quotient(0, n, 0, 0);
  }

  /** SET and INCRBY on a signed field; p reaches as far as the field does. */
  method StoreSigned(p: array<byte>, offset: nat, bits: nat, i64: int, isSet: bool, ow: OverflowType)
      returns (reply: Option<int>)
    requires 1 <= bits <= 63 && offset + bits <= 8 * p.Length && IsLong(i64)
    requires isSet ==> IsLong(MaxOf(bits) - i64) && IsLong(MinOf(bits) - i64)
    modifies p
    ensures var before := Signed(Field(old(p[..]), offset, bits), bits); var v := if isSet then i64 else before + i64;
      if ow.Fail? && !InRange(v, bits) then reply == None && p[..] == old(p[..])
      else
        && Signed(Field(p[..], offset, bits), bits) == Target(v, bits, true, isSet, ow)
        && reply == Some(if isSet then before else Target(v, bits, true, isSet, ow))
        && forall i :: 0 <= i < 8 * p.Length && !(offset <= i < offset + bits) ==> BitAt(p[..], i) == BitAt(old(p[..]), i)
  {
    hide Field, BitAt, Pow2;
    Widths(bits);
    var oldval := GetSigned(p[..], offset, bits);
    SignedInRange(Field(p[..], offset, bits), bits);
    var newval, overflow, wrapped;
    if !isSet {
      newval := oldval + i64;
      overflow, wrapped := CheckSigned(oldval, i64, bits, ow);
    } else {
      newval := i64;
      overflow, wrapped := CheckSigned(newval, 0, bits, ow);
    }
    SignedInRange(Reduced(newval, bits), bits);
    if overflow != 0 { newval := wrapped; }
    if overflow != 0 && ow.Fail? { return None; }
    reply := Some(if isSet then oldval else newval);
    SetSigned(p, offset, bits, newval);
    SignedReduced(newval, bits);
  }

  method StoreUnsigned(p: array<byte>, offset: nat, bits: nat, i64: int, isSet: bool, ow: OverflowType)
      returns (reply: Option<int>)
    requires 1 <= bits <= 63 && offset + bits <= 8 * p.Length && IsLong(i64)
    modifies p
    ensures var before := Field(old(p[..]), offset, bits); var v: int := if isSet then i64 else before + i64;
      if ow.Fail? && !(0 <= v < Pow2(bits)) then reply == None && p[..] == old(p[..])
      else
        && Field(p[..], offset, bits) == Target(v, bits, false, isSet, ow)
        && reply == Some(if isSet then before else Target(v, bits, false, isSet, ow))
        && forall i :: 0 <= i < 8 * p.Length && !(offset <= i < offset + bits) ==> BitAt(p[..], i) == BitAt(old(p[..]), i)
  {
    Widths(bits);
    var oldval := GetUnsigned(p[..], offset, bits);
    var newval: int, overflow, wrapped;
    if !isSet {
      newval := oldval + i64;
      overflow, wrapped := CheckUnsigned(oldval, i64, bits, ow);
    } else {
      newval := i64 % UINT64;
      UnsignedSet(i64, bits);
      overflow, wrapped := CheckUnsigned(newval, 0, bits, ow);
    }
    if overflow != 0 { newval := wrapped; }
    if overflow != 0 && ow.Fail? { return None; }
    reply := Some(if isSet then oldval else newval);
    SetUnsigned(p, offset, bits, newval);
    FieldReads(p[..], offset, bits, newval);
    ShiftValue(newval, bits);
    Quotient(newval, Pow2(bits), 0, newval);
  }

  /** A number converted to unsigned: what the checks see of it. */
  lemma UnsignedSet(v: int, bits: nat)
    requires IsLong(v) && 1 <= bits <= 63 && Pow2(bits) <= 0x8000_0000_0000_0000
    ensures 0 <= v % UINT64 < UINT64 && (v >= 0 ==> v % UINT64 == v)
    ensures v % UINT64 < Pow2(bits) <==> 0 <= v < Pow2(bits)
    ensures Reduced(v % UINT64, bits) == Reduced(v, bits)
  {
    WrapKeeps(v, bits);
    if v < 0 {
      Quotient(v, UINT64, -1, v + UINT64);
    } else {
      Quotient(v, UINT64, 0, v);
    }
  }

  lemma Widths(bits: nat)
    requires 1 <= bits <= 63
    ensures Pow2(bits) <= 0x8000_0000_0000_0000
    ensures IsLong(MaxOf(bits)) && IsLong(MinOf(bits)) && MaxOf(bits) - MinOf(bits) <= LLONG_MAX
  {
    Power64();
    PowerBelow(bits, 64);
  }

  lemma SignedInRange(v: nat, bits: nat)
    requires bits >= 1 && v < Pow2(bits)
    ensures InRange(Signed(v, bits), bits)
  {}

  // ----------------------------------------------------------------------------- GET

  /** A string followed by zero bytes. */
  function Padded(s: seq<byte>, n: nat): (r: seq<byte>)
    ensures |r| == |s| + n
  {
    s + seq(n, _ => 0)
  }

  /** GET copies at most nine bytes, padded with zeros, and reads from the copy: the result is that
      of the whole string as if zeros followed it, wherever the field lies. */
  method GetField(src: seq<byte>, offset: nat, bits: nat, sign: bool) returns (value: int)
    requires 1 <= bits <= 63
    ensures value == FieldValue(Padded(src, offset / 8 + 9), offset, bits, sign)
  {
    hide Field, Signed;
    var buf := new byte[9](_ => 0);
    var at := offset / 8;
    var i := 0;
    while i < 9 && i + at < |src|
      invariant i <= 9 && (i + at <= |src| || i == 0)
      invariant forall k :: 0 <= k < 9 ==> buf[k] == if k < i then src[k + at] else 0
    {
      buf[i] := src[i + at];
      i := i + 1;
    }
    ghost var p := Padded(src, at + 9);
    forall k | 0 <= k < 9 ensures buf[..][k] == p[at..at + 9][k] {
      assert p[at..at + 9][k] == p[at + k];
    }
    assert buf[..] == p[at..at + 9];
    Windowed(p, at, offset, bits);
    if sign {
      value := GetSigned(buf[..], offset - at * 8, bits);
    } else {
      value := GetUnsigned(buf[..], offset - at * 8, bits);
    }
  }

  lemma Windowed(p: seq<byte>, at: nat, offset: nat, bits: nat)
    requires at == offset / 8 && bits <= 64 && at + 9 <= |p|
    ensures offset + bits <= 8 * |p| && Field(p[at..at + 9], offset - at * 8, bits) == Field(p, offset, bits)
  {
    FieldSame(p, offset, p[at..at + 9], offset - at * 8, bits);
  }
}
