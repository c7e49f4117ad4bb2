/**
 The sparse form of a HyperLogLog: a run-length opcode string (src/vr_hyperloglog.c).

   00xxxxxx            ZERO   xxxxxx + 1 registers at 0
   01xxxxxx yyyyyyyy   XZERO  xxxxxxyyyyyyyy + 1 registers at 0
   1vvvvvxx            VAL    xx + 1 registers at vvvvv + 1
 */
module HllSparse {

  import opened Basics
  import opened Bitwise

  const VAL_MAX_VALUE: nat := 32
  const VAL_MAX_LEN: nat := 4
  const ZERO_MAX_LEN: nat := 64
  const XZERO_MAX_LEN: nat := 16384

  predicate IsZero(b: byte) {
    b < 64
  }

  predicate IsXZero(b: byte) {
    64 <= b < 128
  }

  predicate IsVal(b: byte) {
    128 <= b
  }

  function ZeroLen(b: byte): nat {
    b % 64 + 1
  }

  function XZeroLen(b: byte, c: byte): nat {
    b % 64 * 256 + c + 1
  }

  function ValValue(b: byte): nat {
    b / 4 % 32 + 1
  }

  function ValLen(b: byte): nat {
    b % 4 + 1
  }

  function ZeroSet(len: nat): byte
    requires 1 <= len <= ZERO_MAX_LEN
  {
    len - 1
  }

  function XZeroSet(len: nat): seq<byte>
    requires 1 <= len <= XZERO_MAX_LEN
  {
    [64 + (len - 1) / 256, (len - 1) % 256]
  }

  function ValSet(val: nat, len: nat): byte
    requires 1 <= val <= VAL_MAX_VALUE && 1 <= len <= VAL_MAX_LEN
  {
    128 + (val - 1) * 4 + (len - 1)
  }

  /** n registers at v. */
  function Run(v: nat, n: nat): (r: seq<nat>)
    ensures |r| == n && forall i :: 0 <= i < n ==> r[i] == v
  {
    seq(n, _ => v)
  }

  /** Every opcode is complete: the string does not end inside an XZERO. */
  predicate Parses(s: seq<byte>) {
    s == [] || (OpSize(s[0]) <= |s| && Parses(s[OpSize(s[0])..]))
  }

  function OpSize(b: byte): nat {
    if IsXZero(b) then 2 else 1
  }

  /** The value and the number of registers of the opcode a string starts with. */
  function OpValue(b: byte): nat {
    if IsVal(b) then ValValue(b) else 0
  }

  function OpLen(s: seq<byte>): (n: nat)
    requires s != [] && OpSize(s[0]) <= |s|
    ensures n >= 1
  {
    if IsZero(s[0]) then ZeroLen(s[0])
    else if IsXZero(s[0]) then XZeroLen(s[0], s[1])
    else ValLen(s[0])
  }

  /** The registers an opcode string stands for. */
  function Expand(s: seq<byte>): seq<nat>
    requires Parses(s)
  {
    if s == [] then [] else Run(OpValue(s[0]), OpLen(s)) + Expand(s[OpSize(s[0])..])
  }

  lemma {:induction false} ParsesAppend(a: seq<byte>, b: seq<byte>)
    requires Parses(a)
    ensures Parses(a + b) == Parses(b)
  {
    if a == [] {
      assert a + b == b;
    } else {
      var n := OpSize(a[0]);
      assert (a + b)[n..] == a[n..] + b;
      ParsesAppend(a[n..], b);
    }
  }

  lemma Regroup(x: seq<nat>, y: seq<nat>, z: seq<nat>)
    ensures x + (y + z) == x + y + z
  {}

  lemma SameHead(a: seq<byte>, b: seq<byte>)
    requires a != [] && OpSize(a[0]) <= |a|
    ensures (a + b)[0] == a[0] && OpLen(a + b) == OpLen(a)
  {}

  lemma ExpandFirst(s: seq<byte>, n: nat, rest: seq<byte>)
    requires Parses(s) && s != [] && n == OpSize(s[0]) && rest == s[n..]
    ensures n <= |s| && Parses(rest) && Expand(s) == Run(OpValue(s[0]), OpLen(s)) + Expand(rest)
  {}

  lemma ExpandHeads(a: seq<byte>, b: seq<byte>, n: nat, rest: seq<byte>, rest': seq<byte>)
    requires Parses(a) && Parses(a + b) && a != [] && n == OpSize(a[0])
    requires rest == a[n..] && rest' == (a + b)[n..]
    ensures Parses(rest) && Expand(a) == Run(OpValue(a[0]), OpLen(a)) + Expand(rest)
    ensures Parses(rest') && Expand(a + b) == Run(OpValue(a[0]), OpLen(a)) + Expand(rest')
  {
    SameHead(a, b);
    ExpandFirst(a, n, rest);
    ExpandFirst(a + b, n, rest');
  }

  lemma {:induction false} ExpandAppend(a: seq<byte>, b: seq<byte>)
    requires Parses(a) && Parses(b)
    ensures Parses(a + b) && Expand(a + b) == Expand(a) + Expand(b)
  {
    hide Run, OpLen, OpValue;
    ParsesAppend(a, b);
    if a == [] {
      assert a + b == b;
      assert Expand(a) + Expand(b) == Expand(b);
    } else {
      var n := OpSize(a[0]);
      assert (a + b)[n..] == a[n..] + b;
      ExpandAppend(a[n..], b);
      ExpandHeads(a, b, n, a[n..], a[n..] + b);
      Regroup(Run(OpValue(a[0]), OpLen(a)), Expand(a[n..]), Expand(b));
    }
  }

  lemma ExpandOne(s: seq<byte>)
    requires s != [] && OpSize(s[0]) == |s|
    ensures Parses(s) && Expand(s) == Run(OpValue(s[0]), OpLen(s))
  {
    assert s[OpSize(s[0])..] == [];
    assert Expand(s) == Run(OpValue(s[0]), OpLen(s)) + [];
  }

  lemma ZeroMeans(len: nat)
    requires 1 <= len <= ZERO_MAX_LEN
    ensures Parses([ZeroSet(len)]) && Expand([ZeroSet(len)]) == Run(0, len)
  {
    ExpandOne([ZeroSet(len)]);
  }

  lemma XZeroMeans(len: nat)
    requires 1 <= len <= XZERO_MAX_LEN
    ensures Parses(XZeroSet(len)) && Expand(XZeroSet(len)) == Run(0, len)
  {
    ExpandOne(XZeroSet(len));
  }

  lemma ValRead(val: nat, len: nat)
    requires 1 <= val <= VAL_MAX_VALUE && 1 <= len <= VAL_MAX_LEN
    ensures ValValue(ValSet(val, len)) == val && ValLen(ValSet(val, len)) == len
  {}

  lemma ValMeans(val: nat, len: nat)
    requires 1 <= val <= VAL_MAX_VALUE && 1 <= len <= VAL_MAX_LEN
    ensures Parses([ValSet(val, len)]) && Expand([ValSet(val, len)]) == Run(val, len)
  {
    ValRead(val, len);
    ExpandOne([ValSet(val, len)]);
  }

  lemma {:induction false} ExpandBound(s: seq<byte>)
    requires Parses(s)
    ensures forall i :: 0 <= i < |Expand(s)| ==> Expand(s)[i] <= VAL_MAX_VALUE
  {
    if s != [] { ExpandBound(s[OpSize(s[0])..]); }
  }

  /** One run of zeros: a short one takes one byte, a long one two. */
  method PutZeros(len: nat) returns (s: seq<byte>)
    requires 1 <= len <= XZERO_MAX_LEN
    ensures Parses(s) && Expand(s) == Run(0, len) && 1 <= |s| <= 2
  {
    if len > ZERO_MAX_LEN {
      s := XZeroSet(len);
      XZeroMeans(len);
    } else {
      s := [ZeroSet(len)];
      ZeroMeans(len);
    }
  }

  lemma Join(a: seq<byte>, b: seq<byte>, x: seq<nat>, y: seq<nat>)
    requires Parses(a) && Expand(a) == x && Parses(b) && Expand(b) == y
    ensures Parses(a + b) && Expand(a + b) == x + y
  {
    ExpandAppend(a, b);
  }

  /** The opcodes that replace a run of zeros of which one register gets a value. */
  method SplitZeros(before: nat, count: nat, after: nat) returns (n: seq<byte>)
    requires before <= XZERO_MAX_LEN && after <= XZERO_MAX_LEN && 1 <= count <= VAL_MAX_VALUE
    ensures Parses(n) && Expand(n) == Run(0, before) + [count] + Run(0, after)
    ensures 1 <= |n| <= 5
  {
    n := [];
    if before != 0 {
      n := PutZeros(before);
    }
    assert Expand(n) == Run(0, before);
    ValMeans(count, 1);
    assert Run(count, 1) == [count];
    Join(n, [ValSet(count, 1)], Run(0, before), [count]);
    n := n + [ValSet(count, 1)];
    if after != 0 {
      var z := PutZeros(after);
      Join(n, z, Run(0, before) + [count], Run(0, after));
      n := n + z;
    }
    assert after == 0 ==> Run(0, before) + [count] + Run(0, after) == Run(0, before) + [count];
  }

  /** The opcodes that replace a VAL run of which one register gets another value. */
  method SplitVal(curval: nat, before: nat, count: nat, after: nat) returns (n: seq<byte>)
    requires 1 <= curval <= VAL_MAX_VALUE && before + 1 + after <= VAL_MAX_LEN && 1 <= count <= VAL_MAX_VALUE
    ensures Parses(n) && Expand(n) == Run(curval, before) + [count] + Run(curval, after)
    ensures 1 <= |n| <= 3
  {
    n := [];
    if before != 0 {
      n := [ValSet(curval, before)];
      ValMeans(curval, before);
    }
    assert Expand(n) == Run(curval, before);
    ValMeans(count, 1);
    assert Run(count, 1) == [count];
    Join(n, [ValSet(count, 1)], Run(curval, before), [count]);
    n := n + [ValSet(count, 1)];
    if after != 0 {
      ValMeans(curval, after);
      Join(n, [ValSet(curval, after)], Run(curval, before) + [count], Run(curval, after));
      n := n + [ValSet(curval, after)];
    }
    assert after == 0 ==> Run(curval, before) + [count] + Run(curval, after) == Run(curval, before) + [count];
  }

  /** Position p lies between two opcodes of s. */
  predicate Boundary(s: seq<byte>, p: nat) {
    p <= |s| && Parses(s[..p]) && Parses(s[p..])
  }

  lemma BoundaryWhole(s: seq<byte>, p: nat)
    requires Boundary(s, p)
    ensures Parses(s) && Expand(s) == Expand(s[..p]) + Expand(s[p..])
  {
    ExpandAppend(s[..p], s[p..]);
    assert s[..p] + s[p..] == s;
  }

  /** Reading the opcode at p: its run comes after the registers before p. */
  lemma StepOver(s: seq<byte>, p: nat)
    requires Boundary(s, p) && p < |s|
    ensures var q := p + OpSize(s[p]);
      && Boundary(s, q)
      && Expand(s[..q]) == Expand(s[..p]) + Run(OpValue(s[p]), OpLen(s[p..]))
      && Expand(s[p..]) == Run(OpValue(s[p]), OpLen(s[p..])) + Expand(s[q..])
  {
    var n := OpSize(s[p]);
    var op := s[p..p + n];
    ExpandOne(op);
    ExpandAppend(s[..p], op);
    assert s[..p] + op == s[..p + n];
    assert s[p..][n..] == s[p + n..];
    assert OpLen(op) == OpLen(s[p..]);
  }

  lemma BoundaryEnds(s: seq<byte>)
    requires Parses(s)
    ensures Boundary(s, 0) && Expand(s[..0]) == []
    ensures Boundary(s, |s|) && Expand(s[..|s|]) == Expand(s)
  {
    assert s[0..] == s && s[..|s|] == s && s[..0] == [] && s[|s|..] == [];
  }

  /** Replacing what lies between two boundaries. */
  lemma Replaced(s: seq<byte>, p: nat, q: nat, n: seq<byte>)
    requires Boundary(s, p) && Boundary(s, q) && p <= q && Parses(n)
    ensures var s' := s[..p] + n + s[q..];
      && Boundary(s', p) && Parses(s')
      && Expand(s') == Expand(s[..p]) + Expand(n) + Expand(s[q..])
  {
    var s' := s[..p] + n + s[q..];
    ExpandAppend(n, s[q..]);
    assert s'[..p] == s[..p] && s'[p..] == n + s[q..];
    BoundaryWhole(s', p);
    Regroup(Expand(s[..p]), Expand(n), Expand(s[q..]));
  }

  /** The opcode at p covers register index; prev is the opcode before it, or -1. */
  predicate Found(s: seq<byte>, index: nat, p: nat, prev: int, first: nat, span: nat) {
    && p < |s| && Boundary(s, p) && OpSize(s[p]) <= |s| - p
    && first == |Expand(s[..p])| && span == OpLen(s[p..]) && first <= index < first + span
    && (prev < 0 ==> p == 0)
    && (prev >= 0 ==> prev < p && Boundary(s, prev) && p == prev + OpSize(s[prev]))
  }

  /** Step 1 of an addition: the opcode that covers a register. */
  method Locate(s: seq<byte>, index: nat) returns (p: nat, prev: int, first: nat, span: nat)
    requires Parses(s) && (s == [] || index < |Expand(s)|)
    ensures s == [] ==> span == 0
    ensures s != [] ==> span > 0 && Found(s, index, p, prev, first, span)
  {
    hide Expand, Parses;
    p, prev, first, span := 0, -1, 0, 0;
    BoundaryEnds(s);
    while p < |s|
      invariant Boundary(s, p) && first == |Expand(s[..p])|
      invariant first <= index || s == []
      invariant prev < 0 ==> p == 0
      invariant prev >= 0 ==> prev < p && Boundary(s, prev) && p == prev + OpSize(s[prev])
      invariant s == [] ==> span == 0
    {
      StepOver(s, p);
      var oplen := 1;
      if IsZero(s[p]) {
        span := ZeroLen(s[p]);
      } else if IsVal(s[p]) {
        span := ValLen(s[p]);
      } else {
        span := XZeroLen(s[p], s[p + 1]);
        oplen := 2;
      }
      if index <= first + span - 1 { return; }
      prev := p;
      p := p + oplen;
      first := first + span;
    }
    BoundaryEnds(s);
  }

  /** The opcodes for the run found, with its register set to count. */
  method Rewrite(s: seq<byte>, index: nat, p: nat, prev: int, first: nat, span: nat, count: nat) returns (n: seq<byte>)
    requires Found(s, index, p, prev, first, span) && 1 <= count <= VAL_MAX_VALUE
    ensures Parses(n) && 1 <= |n| <= 5
    ensures Expand(n) == Run(OpValue(s[p]), span)[index - first := count]
  {
    var last := first + span - 1;
    if span == 1 && !IsXZero(s[p]) {
      n := [ValSet(count, 1)];
      ValMeans(count, 1);
      assert Run(OpValue(s[p]), span)[index - first := count] == Run(count, 1);
    } else {
      if IsVal(s[p]) {
        n := SplitVal(ValValue(s[p]), index - first, count, last - index);
      } else {
        n := SplitZeros(index - first, count, last - index);
      }
      RunUpdate(OpValue(s[p]), span, index - first, count);
    }
  }

  lemma RunUpdate(v: nat, n: nat, i: nat, x: nat)
    requires i < n
    ensures Run(v, n)[i := x] == Run(v, i) + [x] + Run(v, n - 1 - i)
  {}

  lemma SetInside(a: seq<nat>, b: seq<nat>, c: seq<nat>, i: nat, x: nat)
    requires i < |b|
    ensures a + b[i := x] + c == (a + b + c)[|a| + i := x]
  {}

  /** Step 3 of an addition, on the registers: only the register looked for changes. */
  lemma Substituted(s: seq<byte>, index: nat, p: nat, prev: int, first: nat, span: nat, count: nat, n: seq<byte>)
    requires Found(s, index, p, prev, first, span) && Parses(n)
    requires Expand(n) == Run(OpValue(s[p]), span)[index - first := count]
    ensures Parses(s) && index < |Expand(s)| && Expand(s)[index] == OpValue(s[p])
    ensures var s' := s[..p] + n + s[p + OpSize(s[p])..];
      && Boundary(s', p) && Parses(s') && Expand(s') == Expand(s)[index := count]
      && Boundary(s', if prev < 0 then 0 else prev)
  {
    hide Expand, Parses, OpLen, OpValue;
    var q := p + OpSize(s[p]);
    StepOver(s, p);
    BoundaryWhole(s, p);
    Replaced(s, p, q, n);
    var v := Run(OpValue(s[p]), span);
    Regroup(Expand(s[..p]), v, Expand(s[q..]));
    SetInside(Expand(s[..p]), v, Expand(s[q..]), index - first, count);
    MergeStart(s, p, prev, n, q);
  }

  lemma BoundaryOf(a: seq<byte>, b: seq<byte>)
    requires Parses(a) && Parses(b)
    ensures Boundary(a + b, |a|)
  {
    assert (a + b)[..|a|] == a && (a + b)[|a|..] == b;
  }

  lemma ParsesThree(a: seq<byte>, b: seq<byte>, c: seq<byte>)
    requires Parses(a) && Parses(b) && Parses(c)
    ensures Parses(a + (b + c))
  {
    ParsesAppend(b, c);
    ParsesAppend(a, b + c);
  }

  lemma CutAt(s: seq<byte>, m: nat, p: nat, n: seq<byte>, t: seq<byte>)
    requires m <= p <= |s|
    ensures s[..p] + n + t == s[..m] + (s[m..p] + (n + t))
  {}

  lemma OpBefore(s: seq<byte>, prev: nat, p: nat)
    requires prev < p <= |s| && p == prev + OpSize(s[prev])
    ensures Parses(s[prev..p])
  {
    ExpandOne(s[prev..p]);
  }

  lemma MergeStart(s: seq<byte>, p: nat, prev: int, n: seq<byte>, q: nat)
    requires Boundary(s, p) && Boundary(s, q) && p <= q && Parses(n)
    requires prev < 0 ==> p == 0
    requires prev >= 0 ==> prev < p && Boundary(s, prev) && p == prev + OpSize(s[prev])
    ensures Boundary(s[..p] + n + s[q..], if prev < 0 then 0 else prev)
  {
    var m := if prev < 0 then 0 else prev;
    if prev >= 0 { OpBefore(s, prev, p); }
    ParsesThree(s[m..p], n, s[q..]);
    BoundaryOf(s[..m], s[m..p] + (n + s[q..]));
    CutAt(s, m, p, n, s[q..]);
  }

  lemma RunJoin(v: nat, a: nat, b: nat)
    ensures Run(v, a) + Run(v, b) == Run(v, a + b)
  {}

  lemma TwoVals(s: seq<byte>, p: nat)
    requires Boundary(s, p) && p + 1 < |s| && IsVal(s[p]) && IsVal(s[p + 1])
    requires ValValue(s[p]) == ValValue(s[p + 1])
    ensures Boundary(s, p + 2)
    ensures Expand(s[p..]) == Run(ValValue(s[p]), ValLen(s[p]) + ValLen(s[p + 1])) + Expand(s[p + 2..])
  {
    StepOver(s, p);
    StepOver(s, p + 1);
    RunJoin(ValValue(s[p]), ValLen(s[p]), ValLen(s[p + 1]));
    Regroup(Run(ValValue(s[p]), ValLen(s[p])), Run(ValValue(s[p]), ValLen(s[p + 1])), Expand(s[p + 2..]));
  }

  /** Two VAL opcodes of one value are worth the VAL opcode of their joint length. */
  lemma Merged(s: seq<byte>, p: nat, len: nat)
    requires Boundary(s, p) && p + 1 < |s| && IsVal(s[p]) && IsVal(s[p + 1])
    requires ValValue(s[p]) == ValValue(s[p + 1]) && len == ValLen(s[p]) + ValLen(s[p + 1]) <= VAL_MAX_LEN
    ensures var s' := s[..p] + [ValSet(ValValue(s[p]), len)] + s[p + 2..];
      Boundary(s', p) && Parses(s) && Parses(s') && Expand(s') == Expand(s)
  {
    hide Expand, Parses;
    var v := ValValue(s[p]);
    TwoVals(s, p);
    BoundaryWhole(s, p);
    ValMeans(v, len);
    Replaced(s, p, p + 2, [ValSet(v, len)]);
    Regroup(Expand(s[..p]), Run(v, len), Expand(s[p + 2..]));
  }

  /** Two runs of the same value that fit into one opcode. */
  predicate Mergeable(s: seq<byte>, p: nat) {
    && p + 1 < |s| && IsVal(s[p]) && IsVal(s[p + 1]) && ValValue(s[p]) == ValValue(s[p + 1])
    && ValLen(s[p]) + ValLen(s[p + 1]) <= VAL_MAX_LEN
  }

  /** Step 4 of an addition: up to five opcodes from start on are tried for a merge with the next
      one; none of it changes a register. */
  method MergeVals(s: seq<byte>, start: nat) returns (ops: seq<byte>)
    requires Boundary(s, start)
    ensures Parses(s) && Parses(ops) && Expand(ops) == Expand(s) && |s| - 5 <= |ops| <= |s|
    ensures Mergeable(s, start) ==> |ops| < |s|
  {
    hide Expand, Parses, Boundary;
    ops := s;
    var p: nat, scanlen := start, 5;
    BoundaryWhole(s, start);
    while p < |ops| && scanlen > 0
      invariant Boundary(ops, p) && Parses(ops)
      invariant Expand(ops) == Expand(s) && |s| - 5 <= |ops| - scanlen && |ops| <= |s|
      invariant if scanlen == 5 then ops == s && p == start else 0 <= scanlen < 5 && (Mergeable(s, start) ==> |ops| < |s|)
      decreases scanlen
    {
      scanlen := scanlen - 1;
      StepOver(ops, p);
      if IsXZero(ops[p]) {
        p := p + 2;
        continue;
      } else if IsZero(ops[p]) {
        p := p + 1;
        continue;
      }
      if p + 1 < |ops| && IsVal(ops[p + 1]) {
        var v1, v2 := ValValue(ops[p]), ValValue(ops[p + 1]);
        if v1 == v2 {
          var len := ValLen(ops[p]) + ValLen(ops[p + 1]);
          if len <= VAL_MAX_LEN {
            Merged(ops, p, len);
            ShiftedLeft(ops, p, ValSet(v1, len));
            ops := ops[p + 1 := ValSet(v1, len)];
            ops := ops[..p] + ops[p + 1..];
            continue;
          }
        }
      }
      p := p + 1;
    }
  }

  lemma ShiftedLeft(s: seq<byte>, p: nat, b: byte)
    requires p + 1 < |s|
    ensures var t := s[p + 1 := b]; t[..p] + t[p + 1..] == s[..p] + [b] + s[p + 2..]
  {}

  /** Steps 3 and 4 together: the new opcodes take the place of the one found, then merges. */
  method Splice(s: seq<byte>, index: nat, p: nat, prev: int, first: nat, span: nat, count: nat, n: seq<byte>)
    returns (ops: seq<byte>)
    requires Found(s, index, p, prev, first, span) && Parses(n)
    requires Expand(n) == Run(OpValue(s[p]), span)[index - first := count]
    ensures Parses(s) && index < |Expand(s)|
    ensures Parses(ops) && Expand(ops) == Expand(s)[index := count]
  {
    Substituted(s, index, p, prev, first, span, count, n);
    var oldlen := if IsXZero(s[p]) then 2 else 1;
    ops := s[..p] + n + s[p + oldlen..];
    ops := MergeVals(ops, if prev < 0 then 0 else prev);
  }
}
