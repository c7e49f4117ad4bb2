/**
 Decimal numbers as the server writes and reads them (src/vr_util.c). Writing goes two digits at a
 time from the end of a buffer, reading one digit at a time from the front with overflow checks;
 they are inverse to each other on all 64-bit values, and reading accepts nothing else.
 */
module Decimal {

  import opened Basics
  import opened Bitwise

  const LLONG_MAX: int := 0x7FFF_FFFF_FFFF_FFFF
  const LLONG_MIN: int := -0x8000_0000_0000_0000
  const ULLONG_MAX: int := 0xFFFF_FFFF_FFFF_FFFF

  const MINUS: byte := 45
  const ZERO: byte := 48

  predicate IsLong(v: int) {
    LLONG_MIN <= v <= LLONG_MAX
  }

  /** Decimal digits without leading zeros. */
  function Digits(v: nat): (s: seq<byte>)
    ensures |s| > 0 && IsDigit(s[0]) && (v > 0 ==> s[0] != ZERO)
  {
    if v < 10 then [ZERO + v] else Digits(v / 10) + [ZERO + v % 10]
  }

  function Text(v: int): seq<byte> {
    if v < 0 then [MINUS] + Digits(-v) else Digits(v)
  }

  predicate IsDigit(b: byte) {
    ZERO <= b <= ZERO + 9
  }

  predicate AllDigits(s: seq<byte>) {
    forall i :: 0 <= i < |s| ==> IsDigit(s[i])
  }

  /** The number a string of digits stands for. */
  function Number(s: seq<byte>): nat
    requires AllDigits(s)
  {
    if s == [] then 0 else Number(s[..|s| - 1]) * 10 + (s[|s| - 1] - ZERO)
  }

  lemma {:induction false} DigitsNumber(v: nat)
    ensures AllDigits(Digits(v)) && Number(Digits(v)) == v
  {
    if v < 10 {
      assert Digits(v)[..0] == [];
    } else {
      DigitsNumber(v / 10);
      assert Digits(v)[..|Digits(v)| - 1] == Digits(v / 10);
    }
  }

  /** A string of digits without leading zero is the text of its number. */
  lemma {:induction false} NumberDigits(s: seq<byte>)
    requires AllDigits(s) && s != [] && s[0] != ZERO
    ensures Number(s) > 0 && Digits(Number(s)) == s
  {
    var n := |s| - 1;
    if n == 0 {
      assert Number(s[..0]) == 0;
    } else {
      NumberDigits(s[..n]);
    }
  }

  /** Different numbers have different texts. */
  lemma TextInjective(v: int, w: int)
    requires Text(v) == Text(w)
    ensures v == w
  {
    if v < 0 {
      DigitsNumber(-v);
      assert Text(v)[1..] == Digits(-v);
    } else {
      DigitsNumber(v);
    }
    if w < 0 {
      DigitsNumber(-w);
      assert Text(w)[1..] == Digits(-w);
    } else {
      DigitsNumber(w);
    }
  }

  /** What reading a text as a number must give. */
  ghost function Parsed(s: seq<byte>): Option<int> {
    if exists v :: IsLong(v) && Text(v) == s then
      var v :| IsLong(v) && Text(v) == s;
      Some(v)
    else None
  }

  lemma ParsedText(v: int)
    requires IsLong(v)
    ensures Parsed(Text(v)) == Some(v)
  {
    var p := Parsed(Text(v));
    TextInjective(v, p.value);
  }

  // ----------------------------------------------------------------------- reading

  /** The digits of a number that starts with 1..9, as far as they go and fit 64 bits. */
  method ReadDigits(s: seq<byte>, from: nat) returns (ok: bool, v: nat)
    requires from < |s| && IsDigit(s[from]) && s[from] != ZERO
    ensures ok <==> AllDigits(s[from..]) && Number(s[from..]) <= ULLONG_MAX
    ensures ok ==> v == Number(s[from..])
  {
    v := s[from] - ZERO;
    var p := from + 1;
    assert s[from..p][..0] == [];
    while p < |s| && IsDigit(s[p])
      invariant from < p <= |s| && AllDigits(s[from..p]) && v == Number(s[from..p]) <= ULLONG_MAX
    {
      OneMoreDigit(s, from, p);
      if v > ULLONG_MAX / 10 {
        TooLarge(s, from, p + 1);
        return false, v;
      }
      v := v * 10;
      if v > ULLONG_MAX - (s[p] - ZERO) {
        TooLarge(s, from, p + 1);
        return false, v;
      }
      v := v + (s[p] - ZERO);
      p := p + 1;
    }
    if p < |s| {
      assert s[from..][p - from] == s[p];
      return false, v;
    }
    assert s[from..p] == s[from..];
    return true, v;
  }

  lemma OneMoreDigit(s: seq<byte>, from: nat, p: nat)
    requires from <= p < |s| && AllDigits(s[from..p]) && IsDigit(s[p])
    ensures AllDigits(s[from..p + 1]) && Number(s[from..p + 1]) == Number(s[from..p]) * 10 + (s[p] - ZERO)
  {
    assert s[from..p + 1] == s[from..p] + [s[p]];
    assert s[from..p + 1][..p - from] == s[from..p];
  }

  /** A prefix that does not fit stays too large. */
  lemma {:induction false} TooLarge(s: seq<byte>, from: nat, p: nat)
    requires from <= p <= |s| && AllDigits(s[from..p]) && Number(s[from..p]) > ULLONG_MAX
    ensures AllDigits(s[from..]) ==> Number(s[from..]) > ULLONG_MAX
    decreases |s| - p
  {
    if p == |s| {
      assert s[from..p] == s[from..];
    } else if IsDigit(s[p]) {
      OneMoreDigit(s, from, p);
      TooLarge(s, from, p + 1);
    } else {
      assert s[from..][p - from] == s[p];
    }
  }

  method String2ll(s: seq<byte>) returns (r: Option<int>)
    ensures r == Parsed(s)
  {
    var negative := false;
    var p := 0;
    if |s| == 0 {
      NotText(s);
      return None;
    }
    if |s| == 1 && s[0] == ZERO {
      ParsedText(0);
      return Some(0);
    }
    if s[0] == MINUS {
      negative := true;
      p := 1;
      if |s| == 1 {
        NotText(s);
        return None;
      }
    }
    if !(IsDigit(s[p]) && s[p] != ZERO) {
      NotText(s);
      return None;
    }
    var ok, v := ReadDigits(s, p);
    ReadMeans(s, p);
    if !ok {
      return None;
    }
    if negative {
      if v > -(LLONG_MIN + 1) + 1 { return None; }
      return Some(-v);
    } else {
      if v > LLONG_MAX { return None; }
      return Some(v);
    }
  }

  /** What is not the text of any number. */
  lemma NotText(s: seq<byte>)
    requires s == [] || s == [MINUS] || (|s| > 1 && s[0] == MINUS && !(IsDigit(s[1]) && s[1] != ZERO))
          || (s[0] != MINUS && !(IsDigit(s[0]) && s[0] != ZERO) && s != [ZERO])
    ensures Parsed(s) == None
  {
    forall v | IsLong(v)
      ensures Text(v) != s
    {
      if v < 0 {
        assert Text(v)[1] == Digits(-v)[0];
      } else if v == 0 {
        assert Text(v) == [ZERO];
      }
    }
  }

  /** A sign and a digit string without leading zero: the number, when it fits. */
  lemma ReadMeans(s: seq<byte>, p: nat)
    requires p < |s| && p <= 1 && (p == 1 <==> s[0] == MINUS) && IsDigit(s[p]) && s[p] != ZERO
    ensures !AllDigits(s[p..]) ==> Parsed(s) == None
    ensures AllDigits(s[p..]) ==>
      var v: int := if p == 1 then -(Number(s[p..]) as int) else Number(s[p..]);
      Parsed(s) == if IsLong(v) then Some(v) else None
  {
    hide Digits, Number;
    if AllDigits(s[p..]) {
      NumberDigits(s[p..]);
      var v: int := if p == 1 then -(Number(s[p..]) as int) else Number(s[p..]);
      assert Text(v) == s;
      if IsLong(v) {
        ParsedText(v);
      } else {
        forall w | IsLong(w)
          ensures Text(w) != s
        {
          if Text(w) == s { TextInjective(v, w); }
        }
      }
    } else {
      forall w | IsLong(w)
        ensures Text(w) != s
      {
        if w < 0 { DigitsNumber(-w); } else { DigitsNumber(w); }
      }
    }
  }

  // ----------------------------------------------------------------------- writing

  /** The number of decimal digits, by comparisons. */
  function Digits10(v: nat): nat {
    if v < 10 then 1
    else if v < 100 then 2
    else if v < 1000 then 3
    else if v < 1000000000000 then
      if v < 100000000 then
        if v < 1000000 then
          if v < 10000 then 4 else 5 + (if v >= 100000 then 1 else 0)
        else 7 + (if v >= 10000000 then 1 else 0)
      else if v < 10000000000 then 9 + (if v >= 1000000000 then 1 else 0)
      else 11 + (if v >= 100000000000 then 1 else 0)
    else 12 + Digits10(v / 1000000000000)
  }

  lemma OneDigitLess(v: nat)
    ensures |Digits(v)| == if v < 10 then 1 else 1 + |Digits(v / 10)|
  {}

  lemma ThreeDigitsLess(v: nat)
    requires v >= 1000
    ensures |Digits(v)| == 3 + |Digits(v / 1000)|
  {
    OneDigitLess(v);
    OneDigitLess(v / 10);
    OneDigitLess(v / 100);
    assert v / 10 / 10 == v / 100 && v / 100 / 10 == v / 1000;
  }

  lemma SixDigitsLess(v: nat)
    requires v >= 1000000
    ensures |Digits(v)| == 6 + |Digits(v / 1000000)|
  {
    ThreeDigitsLess(v);
    ThreeDigitsLess(v / 1000);
    assert v / 1000 / 1000 == v / 1000000;
  }

  lemma UpToThree(v: nat)
    requires v < 1000
    ensures |Digits(v)| == if v < 10 then 1 else if v < 100 then 2 else 3
  {
    OneDigitLess(v);
    OneDigitLess(v / 10);
    OneDigitLess(v / 10 / 10);
  }

  lemma UpToSix(v: nat)
    requires 1000 <= v < 1000000
    ensures |Digits(v)| == if v < 10000 then 4 else if v < 100000 then 5 else 6
  {
    ThreeDigitsLess(v);
    UpToThree(v / 1000);
  }

  lemma UpToTwelve(v: nat)
    requires 1000000 <= v < 1000000000000
    ensures |Digits(v)| == if v < 10000000 then 7 else if v < 100000000 then 8 else if v < 1000000000 then 9
      else if v < 10000000000 then 10 else if v < 100000000000 then 11 else 12
  {
    SixDigitsLess(v);
    if v / 1000000 < 1000 { UpToThree(v / 1000000); } else { UpToSix(v / 1000000); }
  }

  lemma {:induction false} DigitsLength(v: nat)
    ensures Digits10(v) == |Digits(v)|
  {
    if v < 1000 {
      UpToThree(v);
    } else if v < 1000000 {
      UpToSix(v);
    } else if v < 1000000000000 {
      UpToTwelve(v);
    } else {
      SixDigitsLess(v);
      SixDigitsLess(v / 1000000);
      assert v / 1000000 / 1000000 == v / 1000000000000;
      DigitsLength(v / 1000000000000);
    }
  }

  /** Entry i of the table of the hundred digit pairs. */
  function PairTable(i: nat): byte
    requires i < 200
  {
    if i % 2 == 0 then ZERO + i / 2 / 10 else ZERO + i / 2 % 10
  }

  lemma TwoDigits(value: nat)
    requires value >= 100
    ensures Digits(value) == Digits(value / 100) + [PairTable(value % 100 * 2), PairTable(value % 100 * 2 + 1)]
  {
    var i := value % 100 * 2;
    assert Digits(value) == Digits(value / 10) + [ZERO + value % 10];
    assert Digits(value / 10) == Digits(value / 10 / 10) + [ZERO + value / 10 % 10];
    assert value / 10 / 10 == value / 100;
    assert i / 2 == value % 100 && (i + 1) / 2 == value % 100;
    assert value % 100 / 10 == value / 10 % 10 && value % 100 % 10 == value % 10;
  }

  /** Writes the digits of a number backwards, two at a time, to end before position length. */
  method WriteDigits(dst: array<byte>, number: nat, sign: nat, length: nat)
    requires length == sign + |Digits(number)| <= dst.Length
    modifies dst
    ensures dst[sign..length] == Digits(number)
    ensures dst[..sign] == old(dst[..sign]) && dst[length..] == old(dst[length..])
  {
    hide Digits, PairTable;
    var value, next: int := number, length - 1;
    assert Digits(number) + dst[length..length] == Digits(number);
    while value >= 100
      invariant 0 <= value && next + 1 == sign + |Digits(value)| <= length
      invariant Digits(value) + dst[next + 1..length] == Digits(number)
      invariant dst[..sign] == old(dst[..sign]) && dst[length..] == old(dst[length..])
    {
      TwoDigits(value);
      ghost var tail := dst[next + 1..length];
      PutPair(dst, next, value % 100 * 2, sign, length);
      JoinPair(Digits(value / 100), PairTable(value % 100 * 2), PairTable(value % 100 * 2 + 1), tail);
      value, next := value / 100, next - 2;
    }
    LastDigits(value);
    if value < 10 {
      ghost var tail := dst[next + 1..length];
      dst[next] := ZERO + value;
      assert dst[sign..length] == [ZERO + value] + tail;
    } else {
      PutPair(dst, next, value * 2, sign, length);
    }
  }

  lemma LastDigits(value: nat)
    requires value < 100
    ensures value < 10 ==> Digits(value) == [ZERO + value]
    ensures value >= 10 ==> Digits(value) == [PairTable(value * 2), PairTable(value * 2 + 1)]
  {}

  lemma JoinPair(s: seq<byte>, a: byte, b: byte, tail: seq<byte>)
    ensures s + [a, b] + tail == s + ([a, b] + tail)
  {}

  /** Two digits from the table, ending at next. */
  method PutPair(dst: array<byte>, next: nat, i: nat, ghost sign: nat, ghost length: nat)
    requires sign < next < length <= dst.Length && i + 1 < 200
    modifies dst
    ensures dst[next - 1..length] == [PairTable(i), PairTable(i + 1)] + old(dst[next + 1..length])
    ensures dst[..sign] == old(dst[..sign]) && dst[length..] == old(dst[length..])
  {
    ghost var tail := dst[next + 1..length];
    dst[next] := PairTable(i + 1);
    dst[next - 1] := PairTable(i);
    assert dst[next + 1..length] == tail;
  }

  /** Writes a number and a zero byte into a buffer; nothing at all if it does not fit. */
  method Ll2string(dst: array<byte>, svalue: int) returns (length: nat)
    requires IsLong(svalue)
    modifies dst
    ensures |Text(svalue)| < dst.Length ==> length == |Text(svalue)| && dst[..length] == Text(svalue) && dst[length] == 0
    ensures |Text(svalue)| >= dst.Length ==> length == 0 && dst[..] == old(dst[..])
  {
    var negative := svalue < 0;
    var value: nat := if negative then -svalue else svalue;
    var sign := if negative then 1 else 0;
    length := Digits10(value) + sign;
    DigitsLength(value);
    if length >= dst.Length { return 0; }
    dst[length] := 0;
    WriteDigits(dst, value, sign, length);
    assert dst[length..][0] == 0;
    if negative {
      ghost var digits := dst[1..length];
      dst[0] := MINUS;
      assert dst[1..length] == digits;
      assert dst[..length] == [MINUS] + dst[1..length];
    } else {
      assert dst[..length] == dst[0..length];
    }
  }
}
