/**
 What the cardinality estimate is made of: the sum of 2^-register and the number of registers at
 zero, computed in three ways for the three encodings (src/vr_hyperloglog.c). Sums are exact.
 */
module HllSums {

  import opened Basics
  import opened Words
  import opened Bitwise
  import opened HllDense
  import opened HllSparse

  /** Entry r of the table of powers. */
  function Weight(r: nat): (w: real)
    ensures w * (Pow2(r) as real) == 1.0
  {
    1.0 / (Pow2(r) as real)
  }

  function Sum(r: seq<nat>): real {
    if r == [] then 0.0 else Sum(r[..|r| - 1]) + Weight(r[|r| - 1])
  }

  function Zeros(r: seq<nat>): nat {
    if r == [] then 0 else Zeros(r[..|r| - 1]) + (if r[|r| - 1] == 0 then 1 else 0)
  }

  lemma {:induction false} SumAppend(a: seq<nat>, b: seq<nat>)
    ensures Sum(a + b) == Sum(a) + Sum(b) && Zeros(a + b) == Zeros(a) + Zeros(b)
  {
    if b == [] {
      assert a + b == a;
    } else {
      var n := |b| - 1;
      assert (a + b)[..|a| + n] == a + b[..n];
      SumAppend(a, b[..n]);
    }
  }

  lemma {:induction false} SumRun(v: nat, n: nat)
    ensures Sum(Run(v, n)) == Weight(v) * (n as real)
    ensures Zeros(Run(v, n)) == if v == 0 then n else 0
  {
    if n > 0 {
      assert Run(v, n)[..n - 1] == Run(v, n - 1);
      SumRun(v, n - 1);
      assert Weight(v) * (n as real) == Weight(v) * ((n - 1) as real) + Weight(v);
    }
  }

  lemma SumFour(a: nat, b: nat, c: nat, d: nat)
    ensures Sum([a, b, c, d]) == Weight(a) + Weight(b) + Weight(c) + Weight(d)
    ensures Zeros([a, b, c, d]) == Zeros([a]) + Zeros([b]) + Zeros([c]) + Zeros([d])
  {
    SumAppend([a, b, c], [d]);
    SumAppend([a, b], [c]);
    SumAppend([a], [b]);
    assert [a, b, c] + [d] == [a, b, c, d] && [a, b] + [c] == [a, b, c] && [a] + [b] == [a, b];
    assert [a][..0] == [] && [b][..0] == [] && [c][..0] == [] && [d][..0] == [];
  }

  function IsZeroReg(r: nat): nat {
    if r == 0 then 1 else 0
  }

  /** Four registers from three bytes, as the unrolled loop reads them. */
  method DenseFour(b0: byte, b1: byte, b2: byte) returns (e: real, ez: nat)
    ensures var r := [Part(b0, b1, b2, 0), Part(b0, b1, b2, 1), Part(b0, b1, b2, 2), Part(b0, b1, b2, 3)];
      e == Sum(r) && ez == Zeros(r)
  {
    var r0 := BitAnd(b0, REGISTER_MAX);
    var r1 := Window(b0, b1, 6);
    var r2 := Window(b1, b2, 4);
    var r3 := BitAnd(Shr(b2, 2), REGISTER_MAX);
    FourParts(b0, b1, b2);
    SumFour(r0, r1, r2, r3);
    ez := IsZeroReg(r0) + IsZeroReg(r1) + IsZeroReg(r2) + IsZeroReg(r3);
    e := (Weight(r0) + Weight(r1)) + (Weight(r2) + Weight(r3));
  }

  lemma LastPart(b: byte, k: nat)
    requires k == 2
    ensures BitAnd(Shr(b, k), REGISTER_MAX) == b / 4
  {
    SmallPowers();
    ShiftValue(b, k);
    AndRegisterMax(Shr(b, k));
  }

  lemma MiddleParts(b0: byte, b1: byte, b2: byte, j: nat, k: nat)
    requires j == 6 && k == 4
    ensures Window(b0, b1, j) == Part(b0, b1, b2, 1) && Window(b1, b2, k) == Part(b0, b1, b2, 2)
  {
    WindowPart(b0, b1, j);
    WindowPart(b1, b2, k);
  }

  lemma FourParts(b0: byte, b1: byte, b2: byte)
    ensures BitAnd(b0, REGISTER_MAX) == Part(b0, b1, b2, 0)
    ensures Window(b0, b1, 6) == Part(b0, b1, b2, 1)
    ensures Window(b1, b2, 4) == Part(b0, b1, b2, 2)
    ensures BitAnd(Shr(b2, 2), REGISTER_MAX) == Part(b0, b1, b2, 3)
  {
    AndRegisterMax(b0);
    MiddleParts(b0, b1, b2, 6, 4);
    LastPart(b2, 2);
  }

  /** The unrolled loop: sixteen registers from twelve bytes at a time. */
  method DenseSum(p: Dense) returns (e: real, ez: nat)
    ensures e == Sum(Registers(p)) && ez == Zeros(Registers(p))
  {
    hide Sum, Zeros, Registers;
    e, ez := 0.0, 0;
    NoneSummed(Registers(p));
    var r := 0;
    for j := 0 to 1024
      invariant r == 12 * j
      invariant e == Sum(Registers(p)[..16 * j]) && ez == Zeros(Registers(p)[..16 * j])
    {
      for k := 0 to 4
        invariant r == 12 * j + 3 * k
        invariant e == Sum(Registers(p)[..16 * j + 4 * k]) && ez == Zeros(Registers(p)[..16 * j + 4 * k])
      {
        var e4, ez4 := DenseFour(p[r], p[r + 1], p[r + 2]);
        NextFour(p, 4 * j + k);
        e, ez := e + e4, ez + ez4;
        r := r + 3;
      }
    }
    assert Registers(p)[..REGISTERS] == Registers(p);
  }

  lemma NoneSummed(r: seq<nat>)
    ensures Sum(r[..0]) == 0.0 && Zeros(r[..0]) == 0
  {}

  lemma NextFour(p: Dense, q: nat)
    requires 4 * q + 4 <= REGISTERS
    ensures var b0, b1, b2 := p[3 * q], p[3 * q + 1], p[3 * q + 2];
      var r := [Part(b0, b1, b2, 0), Part(b0, b1, b2, 1), Part(b0, b1, b2, 2), Part(b0, b1, b2, 3)];
      && Sum(Registers(p)[..4 * q + 4]) == Sum(Registers(p)[..4 * q]) + Sum(r)
      && Zeros(Registers(p)[..4 * q + 4]) == Zeros(Registers(p)[..4 * q]) + Zeros(r)
  {
    var b0, b1, b2 := p[3 * q], p[3 * q + 1], p[3 * q + 2];
    var r := [Part(b0, b1, b2, 0), Part(b0, b1, b2, 1), Part(b0, b1, b2, 2), Part(b0, b1, b2, 3)];
    GetPart(p, q, 0);
    GetPart(p, q, 1);
    GetPart(p, q, 2);
    GetPart(p, q, 3);
    FourMore(Registers(p), 4 * q, r);
    SumAppend(Registers(p)[..4 * q], r);
  }

  lemma FourMore(s: seq<nat>, i: nat, r: seq<nat>)
    requires i + 4 <= |s| && |r| == 4
    requires s[i] == r[0] && s[i + 1] == r[1] && s[i + 2] == r[2] && s[i + 3] == r[3]
    ensures s[..i + 4] == s[..i] + r
  {}

  /** One step per opcode; a run of zeros is added at the end. */
  method SparseSum(sparse: seq<byte>) returns (e: real, ez: nat, invalid: bool)
    requires Parses(sparse)
    ensures e == Sum(Expand(sparse)) && ez == Zeros(Expand(sparse))
    ensures invalid == (|Expand(sparse)| != REGISTERS)
  {
    e, ez := 0.0, 0;
    var idx, p := 0, 0;
    BoundaryEnds(sparse);
    while p < |sparse|
      invariant Boundary(sparse, p)
      invariant idx == |Expand(sparse[..p])|
      invariant e + (ez as real) == Sum(Expand(sparse[..p])) && ez == Zeros(Expand(sparse[..p]))
    {
      StepOver(sparse, p);
      NextRun(sparse, p);
      if IsZero(sparse[p]) {
        var runlen := ZeroLen(sparse[p]);
        idx, ez := idx + runlen, ez + runlen;
        p := p + 1;
      } else if IsXZero(sparse[p]) {
        var runlen := XZeroLen(sparse[p], sparse[p + 1]);
        idx, ez := idx + runlen, ez + runlen;
        p := p + 2;
      } else {
        var runlen, regval := ValLen(sparse[p]), ValValue(sparse[p]);
        idx := idx + runlen;
        var more := RunSum(regval, runlen);
        e := e + more;
        p := p + 1;
      }
    }
    BoundaryEnds(sparse);
    invalid := idx != REGISTERS;
    e := e + (ez as real);
  }

  lemma NextRun(s: seq<byte>, p: nat)
    requires Boundary(s, p) && p < |s|
    ensures var q, run := p + OpSize(s[p]), Run(OpValue(s[p]), OpLen(s[p..]));
      && Boundary(s, q)
      && Sum(Expand(s[..q])) == Sum(Expand(s[..p])) + Sum(run)
      && Zeros(Expand(s[..q])) == Zeros(Expand(s[..p])) + Zeros(run)
      && Zeros(run) == (if OpValue(s[p]) == 0 then |run| else 0)
      && (OpValue(s[p]) == 0 ==> Sum(run) == |run| as real)
  {
    StepOver(s, p);
    SumAppend(Expand(s[..p]), Run(OpValue(s[p]), OpLen(s[p..])));
    RunFacts(OpValue(s[p]), OpLen(s[p..]));
  }

  lemma RunFacts(v: nat, n: nat)
    ensures Zeros(Run(v, n)) == (if v == 0 then n else 0)
    ensures v == 0 ==> Sum(Run(v, n)) == n as real
  {
    SumRun(v, n);
  }

  method RunSum(regval: nat, runlen: nat) returns (e: real)
    ensures e == Sum(Run(regval, runlen))
  {
    SumRun(regval, runlen);
    e := Weight(regval) * (runlen as real);
  }

  lemma SumMore(s: seq<nat>, i: nat)
    requires i < |s|
    ensures Sum(s[..i + 1]) == Sum(s[..i]) + Weight(s[i])
    ensures Zeros(s[..i + 1]) == Zeros(s[..i]) + IsZeroReg(s[i])
    ensures s[i] == 0 ==> Weight(s[i]) == 1.0
  {
    assert s[..i + 1][..i] == s[..i];
  }

  lemma ZeroEight(s: seq<nat>, i: nat)
    requires i + 8 <= |s| && s[i..i + 8] == Run(0, 8)
    ensures Sum(s[..i + 8]) == Sum(s[..i]) + 8.0 && Zeros(s[..i + 8]) == Zeros(s[..i]) + 8
  {
    SumAppend(s[..i], s[i..i + 8]);
    assert s[..i] + s[i..i + 8] == s[..i + 8];
    SumRun(0, 8);
  }

  method RawEight(r: seq<nat>, i: nat) returns (e: real, ez: nat)
    requires i + 8 <= |r|
    ensures Sum(r[..i]) + e + (ez as real) == Sum(r[..i + 8]) && Zeros(r[..i]) + ez == Zeros(r[..i + 8])
  {
    e, ez := 0.0, 0;
    for k := 0 to 8
      invariant Sum(r[..i]) + e + (ez as real) == Sum(r[..i + k]) && Zeros(r[..i]) + ez == Zeros(r[..i + k])
    {
      SumMore(r, i + k);
      if r[i + k] != 0 { e := e + Weight(r[i + k]); } else { ez := ez + 1; }
    }
  }

  /** The loop over unpacked registers that skips eight zero registers in one comparison. */
  method RawSum(r: seq<nat>) returns (e: real, ez: nat)
    requires |r| == REGISTERS
    ensures e == Sum(r) && ez == Zeros(r)
  {
    e, ez := 0.0, 0;
    for j := 0 to REGISTERS / 8
      invariant e + (ez as real) == Sum(r[..8 * j]) && ez == Zeros(r[..8 * j])
    {
      if r[8 * j..8 * j + 8] == [0, 0, 0, 0, 0, 0, 0, 0] {
        ZeroEight(r, 8 * j);
        ez := ez + 8;
      } else {
        var e8, ez8 := RawEight(r, 8 * j);
        e, ez := e + e8, ez + ez8;
      }
    }
    assert r[..REGISTERS] == r;
    e := e + (ez as real);
  }
}
