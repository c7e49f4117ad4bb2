/**
 A HyperLogLog object: the string that holds 16384 registers in sparse or dense form together with
 a cached cardinality (src/vr_hyperloglog.c). Whatever the form, every operation is stated on the
 plain list of registers the string stands for.
 */
module Hlls {

  import opened Basics
  import opened Words
  import opened Bitwise
  import opened HllDense
  import opened HllSparse
  import opened HllSums
  import opened LittleEndian

  const HDR_SIZE: nat := 16

  datatype Body = DenseBody(registers: Dense) | SparseBody(ops: seq<byte>)

  /** No opcode is cut short and the opcodes do not run past the last register. */
  predicate Readable(b: Body) {
    b.SparseBody? ==> Parses(b.ops) && |Expand(b.ops)| <= REGISTERS
  }

  /** The registers a body stands for. */
  function Regs(b: Body): seq<nat>
    requires Readable(b)
  {
    if b.DenseBody? then Registers(b.registers) else Expand(b.ops)
  }

  /** A body that covers exactly 16384 registers. */
  predicate Sound(b: Body) {
    Readable(b) && |Regs(b)| == REGISTERS
  }

  function Max(a: nat, b: nat): nat {
    if a < b then b else a
  }

  lemma ZeroRegisters(p: Dense)
    requires forall i :: 0 <= i < DENSE_BYTES ==> p[i] == 0
    ensures Registers(p) == Run(0, REGISTERS)
  {
    forall i | 0 <= i < REGISTERS
      ensures Registers(p)[i] == 0
    {
      GetPart(p, i / 4, i % 4);
    }
  }

  /** n registers from idx on set to v. */
  function Fill(r: seq<nat>, idx: nat, v: nat, n: nat): seq<nat>
    requires idx + n <= |r|
  {
    r[..idx] + Run(v, n) + r[idx + n..]
  }

  lemma FillOne(r: seq<nat>, idx: nat, v: nat, n: nat)
    requires idx + n < |r|
    ensures Fill(r, idx, v, n)[idx + n := v] == Fill(r, idx, v, n + 1)
  {}

  method FillRegisters(p: Dense, idx: nat, v: nat, runlen: nat) returns (d: Dense)
    requires idx + runlen <= REGISTERS && v <= REGISTER_MAX
    ensures Registers(d) == Fill(Registers(p), idx, v, runlen)
  {
    d := p;
    var n := 0;
    assert Fill(Registers(p), idx, v, 0) == Registers(p);
    while n < runlen
      invariant n <= runlen
      invariant Registers(d) == Fill(Registers(p), idx, v, n)
    {
      SetRegisters(d, idx + n, v);
      FillOne(Registers(p), idx, v, n);
      d := SetRegister(d, idx + n, v);
      n := n + 1;
    }
  }

  /** The dense registers while the opcodes before the current one have been copied. */
  predicate Copied(d: Dense, done: seq<nat>) {
    |done| <= REGISTERS && Registers(d) == done + Run(0, REGISTERS - |done|)
  }

  lemma CopiedZeros(d: Dense, done: seq<nat>, n: nat)
    requires Copied(d, done) && |done| + n <= REGISTERS
    ensures Copied(d, done + Run(0, n))
  {
    assert done + Run(0, n) + Run(0, REGISTERS - |done| - n) == done + Run(0, REGISTERS - |done|);
  }

  lemma CopiedRun(d: Dense, d': Dense, done: seq<nat>, v: nat, n: nat)
    requires Copied(d, done) && |done| + n <= REGISTERS
    requires Registers(d') == Fill(Registers(d), |done|, v, n)
    ensures Copied(d', done + Run(v, n))
  {
    assert (done + Run(0, REGISTERS - |done|))[|done| + n..] == Run(0, REGISTERS - |done| - n);
    assert (done + Run(0, REGISTERS - |done|))[..|done|] == done;
  }

  /** Copying the opcodes into an all-zero dense buffer, one opcode at a time. */
  method CopyOps(sparse: seq<byte>) returns (dense: Dense, idx: nat)
    requires Parses(sparse) && |Expand(sparse)| <= REGISTERS
    ensures idx == |Expand(sparse)| && Copied(dense, Expand(sparse))
  {
    hide Registers, Expand, Parses;
    dense := seq(DENSE_BYTES, _ => 0);
    ZeroRegisters(dense);
    idx := 0;
    var p := 0;
    BoundaryEnds(sparse);
    assert Run(0, REGISTERS) == [] + Run(0, REGISTERS);
    while p < |sparse|
      invariant Boundary(sparse, p)
      invariant idx == |Expand(sparse[..p])|
      invariant Copied(dense, Expand(sparse[..p]))
    {
      ghost var done := Expand(sparse[..p]);
      StepOver(sparse, p);
      BoundaryWhole(sparse, p);
      if IsZero(sparse[p]) {
        var runlen := ZeroLen(sparse[p]);
        CopiedZeros(dense, done, runlen);
        idx := idx + runlen;
        p := p + 1;
      } else if IsXZero(sparse[p]) {
        var runlen := XZeroLen(sparse[p], sparse[p + 1]);
        CopiedZeros(dense, done, runlen);
        idx := idx + runlen;
        p := p + 2;
      } else {
        var runlen, regval := ValLen(sparse[p]), ValValue(sparse[p]);
        var filled := FillRegisters(dense, idx, regval, runlen);
        CopiedRun(dense, filled, done, regval, runlen);
        dense := filled;
        idx := idx + runlen;
        p := p + 1;
      }
    }
    BoundaryEnds(sparse);
  }

  // ------------------------------------------------------------------ elements

  /** An element counts only through its 64-bit hash: the low 14 bits pick the register, the run
      of zeros above them, with the one that ends it, is the value offered to that register. */
  function PatIndex(hash: Word): (i: nat)
    ensures i < REGISTERS
  {
    MaskedValue(hash, 14);
    assert Pow2(14) == REGISTERS;
    Value(hash[..14])
  }

  function ZeroRun(hash: Word, k: nat): (n: nat)
    requires k <= 63
    ensures k + n <= 63
    ensures (forall i :: k <= i < k + n ==> !hash[i]) && (k + n == 63 || hash[k + n])
    decreases 63 - k
  {
    if k == 63 || hash[k] then 0 else 1 + ZeroRun(hash, k + 1)
  }

  function PatCount(hash: Word): (c: nat)
    ensures 1 <= c <= 50
  {
    1 + ZeroRun(hash, 14)
  }

  lemma {:induction false} ValueBit(b: seq<bool>, i: nat)
    requires i < |b|
    ensures Test(Value(b), i) <==> b[i]
  {
    var v := Value(b[1..]);
    assert Value(b) % 2 == (if b[0] then 1 else 0) && Value(b) / 2 == v;
    hide Value;
    if i > 0 { ValueBit(b[1..], i - 1); }
  }

  lemma IndexBits(hash: Word)
    ensures Value(And(hash, Mask(14))) == PatIndex(hash) < 16384
    ensures forall i :: 0 <= i < 14 ==> (Test(PatIndex(hash), i) <==> hash[i])
  {
    hide Value, Test;
    MaskedValue(hash, 14);
    forall i | 0 <= i < 14 ensures Test(PatIndex(hash), i) <==> hash[i] { ValueBit(hash[..14], i); }
  }

  lemma TestBit(w: Word, k: nat)
    requires k < WORD
    ensures And(w, Bit(k)) == Zero() <==> !w[k]
  {
    assert And(w, Bit(k))[k] == w[k];
  }

  /** `hllPatLen`: all bits from 14 up to the one that ends the run are clear, that one is set or is
      the last bit of all, and the index has the hash's bits 0 to 13. */
  method PatLen(hash: Word) returns (count: nat, index: nat)
    ensures count == PatCount(hash) && index == PatIndex(hash)
    ensures 1 <= count <= 50 && index < 16384
    ensures forall k :: 14 <= k < 13 + count ==> !hash[k]
    ensures 13 + count == 63 || hash[13 + count]
    ensures forall i :: 0 <= i < 14 ==> (Test(index, i) <==> hash[i])
  {
    hide Value, Test, PatIndex;
    index := Value(And(hash, Mask(14)));
    IndexBits(hash);
    var h := Or(hash, Bit(63));
    var bit := Bit(14);
    count := 1;
    ghost var k := 14;
    TestBit(h, k);
    while And(h, bit) == Zero()
      invariant 14 <= k <= 63 && bit == Bit(k)
      invariant count + ZeroRun(hash, k) == PatCount(hash)
      invariant And(h, bit) == Zero() <==> !h[k]
      decreases 63 - k
    {
      count := count + 1;
      assert ShiftLeft(bit, 1) == Bit(k + 1);
      bit := ShiftLeft(bit, 1);
      k := k + 1;
      TestBit(h, k);
    }
  }

  // -------------------------------------------------------------------- object

  /** The top bit of the last card byte marks the cached cardinality as stale. */
  predicate CacheValid(card: seq<byte>)
    requires |card| == 8
  {
    card[7] < 128
  }

  function Invalidated(card: seq<byte>): (c: seq<byte>)
    requires |card| == 8
    ensures |c| == 8 && !CacheValid(c)
  {
    card[7 := card[7] % 128 + 128]
  }

  /** Raising one register. */
  function Raise(r: seq<nat>, hash: Word): (r': seq<nat>)
    requires PatIndex(hash) < |r|
    ensures |r'| == |r|
  {
    r[PatIndex(hash) := Max(r[PatIndex(hash)], PatCount(hash))]
  }

  class Hll {
    var body: Body
    var card: seq<byte>
    const maxBytes: nat
    /** The floating-point part of the count, as a function of the sum and the zero count. */
    const estimate: (real, nat) -> nat
    /** Every element ever added. */
    ghost var members: set<Word>

    ghost function Cardinality(): nat
      reads this
      requires Readable(body)
    {
      estimate(Sum(Regs(body)), Zeros(Regs(body)))
    }

    /** The registers are those of the elements added, and a cached cardinality that is not
        marked stale is right. */
    ghost predicate Valid()
      reads this
    {
      && Sound(body)
      && Summarises(Regs(body), members)
      && |card| == 8
      && (CacheValid(card) ==> FromBytes(card) == Cardinality())
      && forall e, z :: estimate(e, z) < Pow256(8)
    }

    /** A new object: sparse, all registers zero, cached cardinality zero. */
    constructor (maxBytes: nat, estimate: (real, nat) -> nat)
      requires forall e, z :: estimate(e, z) < Pow256(8)
      requires estimate(REGISTERS as real, REGISTERS) == 0
      ensures Valid() && members == {}
      ensures this.maxBytes == maxBytes && this.estimate == estimate
    {
      XZeroMeans(REGISTERS);
      SumRun(0, REGISTERS);
      ZeroBytes(8);
      this.maxBytes := maxBytes;
      this.estimate := estimate;
      body := SparseBody(XZeroSet(REGISTERS));
      card := seq(8, _ => 0);
      members := {};
    }

    /** Turns the sparse form into the dense one; fails, changing nothing, when the opcodes do
        not cover all registers. */
    method SparseToDense() returns (ok: bool)
      requires Readable(body)
      modifies this`body
      ensures ok == Sound(old(body))
      ensures ok ==> body.DenseBody? && Regs(body) == Regs(old(body))
      ensures !ok ==> body == old(body)
    {
      if body.DenseBody? { return true; }
      var dense, idx := CopyOps(body.ops);
      if idx != REGISTERS { return false; }
      assert Registers(dense) == Expand(body.ops);
      body := DenseBody(dense);
      return true;
    }

    method DenseAdd(hash: Word) returns (r: int)
      requires body.DenseBody?
      modifies this`body
      ensures body.DenseBody? && Regs(body) == Raise(Regs(old(body)), hash)
      ensures r == if Regs(body) != Regs(old(body)) then 1 else 0
      ensures r == 1 <==> Regs(old(body))[PatIndex(hash)] < PatCount(hash)
    {
      var count, index := PatLen(hash);
      var oldcount := GetRegister(body.registers, index);
      if count > oldcount {
        SetRegisters(body.registers, index, count);
        assert Registers(body.registers)[index] == oldcount;
        body := DenseBody(SetRegister(body.registers, index, count));
        r := 1;
      } else {
        assert Registers(body.registers)[index := oldcount] == Registers(body.registers);
        r := 0;
      }
    }

    /** The last resort of a sparse addition. */
    method Promote(hash: Word) returns (r: int)
      requires Readable(body) && body.SparseBody?
      requires Sound(body) ==> Regs(body)[PatIndex(hash)] < PatCount(hash)
      modifies this`body
      ensures !Sound(old(body)) ==> r == -1 && body == old(body)
      ensures Sound(old(body)) ==> r == 1 && body.DenseBody? && Readable(body) && Regs(body) == Raise(Regs(old(body)), hash)
    {
      var ok := SparseToDense();
      if !ok { return -1; }
      r := DenseAdd(hash);
    }

    /** Steps 2 to 4 of a sparse addition, once a run below the new value has been found. */
    method Replace(hash: Word, p: nat, prev: int, first: nat, span: nat) returns (r: int)
      requires body.SparseBody? && Readable(body) && |card| == 8
      requires Found(body.ops, PatIndex(hash), p, prev, first, span)
      requires OpValue(body.ops[p]) < PatCount(hash) <= VAL_MAX_VALUE
      modifies this`body, this`card
      ensures r == 1 || r == -1
      ensures r == -1 ==> body == old(body) && !Sound(old(body))
      ensures r == 1 ==> Readable(body) && PatIndex(hash) < |Regs(old(body))|
      ensures r == 1 ==> Regs(old(body))[PatIndex(hash)] < PatCount(hash) && Regs(body) == Raise(Regs(old(body)), hash)
      ensures Sound(old(body)) ==> r == 1
      ensures card == if r == 1 && body.SparseBody? then Invalidated(old(card)) else old(card)
    {
      hide PatIndex, PatCount, Registers, Expand, Parses;
      var index, ops := PatIndex(hash), body.ops;
      FoundValue(ops, index, p, prev, first, span);
      var n := Rewrite(ops, index, p, prev, first, span, PatCount(hash));
      var oldlen := if IsXZero(ops[p]) then 2 else 1;
      if |n| > oldlen && HDR_SIZE + |ops| + (|n| - oldlen) > maxBytes {
        r := Promote(hash);
        return;
      }
      ops := Splice(ops, index, p, prev, first, span, PatCount(hash), n);
      body := SparseBody(ops);
      card := Invalidated(card);
      return 1;
    }

    /** Adding an element to the sparse form: the registers change as the dense form's would,
        whether the opcode is overwritten, split, merged or the whole string promoted. */
    method SparseAdd(hash: Word) returns (r: int)
      requires body.SparseBody? && Readable(body) && |card| == 8
      requires body.ops == [] || PatIndex(hash) < |Regs(body)|
      modifies this`body, this`card
      ensures r == -1 ==> body == old(body) && card == old(card) && !Sound(old(body))
      ensures r != -1 ==> Readable(body) && PatIndex(hash) < |Regs(old(body))|
      ensures r != -1 ==> Regs(body) == Raise(Regs(old(body)), hash)
      ensures r != -1 ==> r == if Regs(body) != Regs(old(body)) then 1 else 0
      ensures Sound(old(body)) ==> r != -1
      ensures r == 0 ==> body == old(body)
      ensures card == if r == 1 && body.SparseBody? then Invalidated(old(card)) else old(card)
    {
      hide PatIndex, PatCount, Registers, Parses;
      var count, index := PatLen(hash);
      ExpandBound(body.ops);
      if count > VAL_MAX_VALUE {
        r := Promote(hash);
        return;
      }
      var p, prev, first, span := Locate(body.ops, index);
      if span == 0 { return -1; }
      FoundValue(body.ops, index, p, prev, first, span);
      if IsVal(body.ops[p]) && ValValue(body.ops[p]) >= count {
        assert Regs(body)[index := Regs(body)[index]] == Regs(body);
        return 0;
      }
      r := Replace(hash, p, prev, first, span);
    }

    method Add(hash: Word) returns (r: int)
      requires Sound(body) && |card| == 8
      modifies this`body, this`card
      ensures Sound(body) && Regs(body) == Raise(Regs(old(body)), hash)
      ensures r == if Regs(body) != Regs(old(body)) then 1 else 0
      ensures card == old(card) || card == Invalidated(old(card))
    {
      hide PatIndex, PatCount, Raise, Registers, Expand, Parses;
      if body.DenseBody? {
        r := DenseAdd(hash);
      } else {
        r := SparseAdd(hash);
      }
    }

    /** The loop of PFADD over its elements; on a sound object no addition fails. */
    method AddAll(elements: seq<Word>) returns (updated: nat)
      requires Sound(body) && |card| == 8
      modifies this`body, this`card
      ensures Sound(body) && Regs(body) == RaiseAll(Regs(old(body)), elements) && |card| == 8
      ensures updated == 0 <==> Regs(body) == Regs(old(body))
      ensures card == old(card) || !CacheValid(card)
    {
      updated := 0;
      ghost var before := Regs(body);
      for j := 0 to |elements|
        invariant Sound(body) && Regs(body) == RaiseAll(before, elements[..j]) && |card| == 8
        invariant updated == 0 <==> Regs(body) == before
        invariant card == old(card) || !CacheValid(card)
      {
        var retval := Add(elements[j]);
        if retval == 1 {
          updated := updated + 1;
        }
        StillRaised(before, elements[..j], elements[j]);
        RaiseOneMore(before, elements, j);
      }
      assert elements[..|elements|] == elements;
    }

    /** The PFADD command, on an existing object or one just created. */
    method PfAdd(created: bool, elements: seq<Word>) returns (reply: bool)
      requires Valid()
      modifies this`body, this`card, this`members
      ensures Valid() && members == old(members) + set h | h in elements
      ensures reply == (created || Regs(body) != Regs(old(body)))
    {
      RaiseAllSummarises(Regs(body), members, elements);
      var updated := AddAll(elements);
      members := members + set h | h in elements;
      if created || updated > 0 {
        card := Invalidated(card);
      }
      reply := created || updated > 0;
    }

    /** The PFCOUNT command on one key: the cached value, or a new one that is then cached. */
    method PfCount() returns (n: nat)
      requires Valid()
      modifies this`card
      ensures Valid() && n == Cardinality()
    {
      if CacheValid(card) {
        n := FromBytes(card);
      } else {
        var e, ez;
        if body.DenseBody? {
          e, ez := DenseSum(body.registers);
        } else {
          var invalid;
          e, ez, invalid := SparseSum(body.ops);
        }
        n := estimate(e, ez);
        BytesRoundTrip(n, 8);
        card := ToBytes(n, 8);
      }
    }

    /** Raises the unpacked registers to those of this object; fails when this object's opcodes
        do not cover all registers. */
    method Merge(max: array<nat>) returns (ok: bool)
      requires Readable(body) && max.Length == REGISTERS
      modifies max
      ensures ok == Sound(body)
      ensures ok ==> max[..] == MaxRegs(old(max[..]), Regs(body))
    {
      if body.DenseBody? {
        MergeDense(max, body.registers);
        return true;
      }
      var i := MergeSparse(max, body.ops);
      return i == REGISTERS;
    }

    /** The PFMERGE command: the union of this object with others goes into this object. */
    method PfMerge(others: seq<Hll?>)
      requires Valid() && AllValid(others)
      modifies this`body, this`card, this`members
      ensures Valid() && members == old(members) + old(Union(others)) && body.DenseBody?
    {
      var max := MergeKeys([this] + others);
      UnionFirst(this, others);
      Overwrite(max[..], members + Union(others));
    }

    /** Turns this object into the dense one with the given registers. */
    method Overwrite(max: seq<nat>, ghost u: set<Word>)
      requires Valid() && Summarises(max, u)
      modifies this`body, this`card, this`members
      ensures Valid() && members == u && body.DenseBody?
    {
      SmallRegisters(max, u);
      var ok := SparseToDense();
      var d := WriteRegisters(body.registers, max);
      body, members := DenseBody(d), u;
      card := Invalidated(card);
    }
  }

  /** Raising one register per element, in order. */
  function RaiseAll(r: seq<nat>, elements: seq<Word>): (r': seq<nat>)
    requires |r| == REGISTERS
    ensures |r'| == REGISTERS
  {
    if elements == [] then r
    else Raise(RaiseAll(r, elements[..|elements| - 1]), elements[|elements| - 1])
  }

  lemma {:induction false} NeverLower(r: seq<nat>, elements: seq<Word>, i: nat)
    requires |r| == REGISTERS && i < REGISTERS
    ensures r[i] <= RaiseAll(r, elements)[i]
  {
    if elements != [] { NeverLower(r, elements[..|elements| - 1], i); }
  }

  /** A register once raised stays raised. */
  lemma StillRaised(r: seq<nat>, elements: seq<Word>, hash: Word)
    requires |r| == REGISTERS
    ensures var r1 := RaiseAll(r, elements);
      Raise(r1, hash) == r <==> r1 == r && Raise(r1, hash) == r1
  {
    var r1 := RaiseAll(r, elements);
    var r2 := Raise(r1, hash);
    forall i | 0 <= i < REGISTERS
      ensures r[i] <= r1[i] <= r2[i]
    {
      NeverLower(r, elements, i);
    }
    if r2 == r {
      forall i | 0 <= i < REGISTERS
        ensures r1[i] == r[i]
      {
        assert r[i] <= r1[i] <= r2[i];
      }
      assert r1 == r;
    }
  }

  lemma FoundValue(s: seq<byte>, index: nat, p: nat, prev: int, first: nat, span: nat)
    requires Found(s, index, p, prev, first, span)
    ensures Parses(s) && index < |Expand(s)| && Expand(s)[index] == OpValue(s[p])
  {
    StepOver(s, p);
    BoundaryWhole(s, p);
  }

  lemma RaiseOneMore(r: seq<nat>, elements: seq<Word>, j: nat)
    requires |r| == REGISTERS && j < |elements|
    ensures RaiseAll(r, elements[..j + 1]) == Raise(RaiseAll(r, elements[..j]), elements[j])
  {
    assert elements[..j + 1][..j] == elements[..j];
  }

  /** The larger of two registers, everywhere. */
  function MaxRegs(a: seq<nat>, b: seq<nat>): (r: seq<nat>)
    requires |a| == |b|
    ensures |r| == |a| && forall i :: 0 <= i < |a| ==> r[i] == Max(a[i], b[i])
  {
    seq(|a|, i requires 0 <= i < |a| => Max(a[i], b[i]))
  }

  /** Registers below i have been merged, the others are as they were. */
  predicate MergedUpTo(m: seq<nat>, old_m: seq<nat>, r: seq<nat>, i: nat) {
    && |m| == |old_m| == REGISTERS && i <= |r| <= REGISTERS
    && (forall k :: 0 <= k < i ==> m[k] == Max(old_m[k], r[k]))
    && (forall k :: i <= k < REGISTERS ==> m[k] == old_m[k])
  }

  method MergeDense(max: array<nat>, p: Dense)
    requires max.Length == REGISTERS
    modifies max
    ensures max[..] == MaxRegs(old(max[..]), Registers(p))
  {
    for i := 0 to REGISTERS
      invariant MergedUpTo(max[..], old(max[..]), Registers(p), i)
    {
      var val := GetRegister(p, i);
      assert val == Registers(p)[i];
      if val > max[i] { max[i] := val; }
    }
  }

  /** One VAL opcode. */
  method MergeRun(max: array<nat>, i: nat, v: nat, n: nat, ghost m: seq<nat>, ghost r: seq<nat>)
    requires max.Length == REGISTERS && i + n <= |r| && MergedUpTo(max[..], m, r, i)
    requires forall k :: i <= k < i + n ==> r[k] == v
    modifies max
    ensures MergedUpTo(max[..], m, r, i + n)
  {
    for j := i to i + n
      invariant MergedUpTo(max[..], m, r, j)
    {
      if v > max[j] { max[j] := v; }
    }
  }

  lemma RunAt(s: seq<byte>, p: nat)
    requires Boundary(s, p) && p < |s|
    ensures var i, q, n := |Expand(s[..p])|, p + OpSize(s[p]), OpLen(s[p..]);
      && Boundary(s, q) && |Expand(s[..q])| == i + n
      && Parses(s) && i + n <= |Expand(s)|
      && forall k :: i <= k < i + n ==> Expand(s)[k] == OpValue(s[p])
  {
    StepOver(s, p);
    BoundaryWhole(s, p);
  }

  method MergeSparse(max: array<nat>, ops: seq<byte>) returns (i: nat)
    requires max.Length == REGISTERS && Parses(ops) && |Expand(ops)| <= REGISTERS
    modifies max
    ensures i == |Expand(ops)| && MergedUpTo(max[..], old(max[..]), Expand(ops), i)
  {
    hide Registers, Expand, Parses;
    i := 0;
    var p := 0;
    BoundaryEnds(ops);
    while p < |ops|
      invariant Boundary(ops, p) && i == |Expand(ops[..p])|
      invariant MergedUpTo(max[..], old(max[..]), Expand(ops), i)
    {
      RunAt(ops, p);
      if IsZero(ops[p]) {
        i := i + ZeroLen(ops[p]);
        p := p + 1;
      } else if IsXZero(ops[p]) {
        i := i + XZeroLen(ops[p], ops[p + 1]);
        p := p + 2;
      } else {
        MergeRun(max, i, ValValue(ops[p]), ValLen(ops[p]), old(max[..]), Expand(ops));
        i := i + ValLen(ops[p]);
        p := p + 1;
      }
    }
    BoundaryEnds(ops);
  }

  // ---------------------------------------------------- registers of a set of elements

  /** r holds, for every register, the largest value the elements of s offer to it. */
  ghost predicate Summarises(r: seq<nat>, s: set<Word>) {
    && |r| == REGISTERS
    && (forall h :: h in s ==> PatCount(h) <= r[PatIndex(h)])
    && (forall i :: 0 <= i < REGISTERS && r[i] != 0 ==> Offered(s, i, r[i]))
  }

  ghost predicate Offered(s: set<Word>, i: nat, c: nat) {
    exists h :: h in s && PatIndex(h) == i && PatCount(h) == c
  }

  lemma EmptySummary()
    ensures Summarises(Run(0, REGISTERS), {})
  {}

  /** The registers depend on the set of elements alone, not on order or repetition. */
  lemma SummaryUnique(r: seq<nat>, r': seq<nat>, s: set<Word>)
    requires Summarises(r, s) && Summarises(r', s)
    ensures r == r'
  {
    forall i | 0 <= i < REGISTERS
      ensures r[i] == r'[i]
    {
      if r[i] != 0 { var h :| h in s && PatIndex(h) == i && PatCount(h) == r[i]; }
      if r'[i] != 0 { var h :| h in s && PatIndex(h) == i && PatCount(h) == r'[i]; }
    }
  }

  lemma RaiseSummarises(r: seq<nat>, s: set<Word>, hash: Word)
    requires Summarises(r, s)
    ensures Summarises(Raise(r, hash), s + {hash})
  {
    var r', s' := Raise(r, hash), s + {hash};
    forall i | 0 <= i < REGISTERS && r'[i] != 0
      ensures Offered(s', i, r'[i])
    {
      if r'[i] == r[i] {
        var h :| h in s && PatIndex(h) == i && PatCount(h) == r[i];
        assert h in s';
      } else {
        assert hash in s';
      }
    }
  }

  lemma OneMoreElement(s: set<Word>, elements: seq<Word>, n: nat)
    requires |elements| == n + 1
    ensures s + (set h | h in elements[..n]) + {elements[n]} == s + set h | h in elements
  {
    assert elements == elements[..n] + [elements[n]];
  }

  lemma {:induction false} RaiseAllSummarises(r: seq<nat>, s: set<Word>, elements: seq<Word>)
    requires Summarises(r, s)
    ensures Summarises(RaiseAll(r, elements), s + set h | h in elements)
  {
    hide PatIndex, PatCount, Raise;
    if elements == [] {
      assert s + (set h | h in elements) == s;
    } else {
      var n := |elements| - 1;
      RaiseAllSummarises(r, s, elements[..n]);
      RaiseSummarises(RaiseAll(r, elements[..n]), s + (set h | h in elements[..n]), elements[n]);
      OneMoreElement(s, elements, n);
    }
  }

  /** Merging the registers of two sets gives the registers of their union. */
  lemma MergeIsUnion(a: seq<nat>, s: set<Word>, b: seq<nat>, t: set<Word>)
    requires Summarises(a, s) && Summarises(b, t)
    ensures Summarises(MaxRegs(a, b), s + t)
  {
    var m := MaxRegs(a, b);
    forall i | 0 <= i < REGISTERS && m[i] != 0
      ensures Offered(s + t, i, m[i])
    {
      if m[i] == a[i] {
        var h :| h in s && PatIndex(h) == i && PatCount(h) == a[i];
        assert h in s + t;
      } else {
        var h :| h in t && PatIndex(h) == i && PatCount(h) == b[i];
        assert h in s + t;
      }
    }
  }

  /** A register never exceeds 50, so it fits six bits. */
  lemma SmallRegisters(r: seq<nat>, s: set<Word>)
    requires Summarises(r, s)
    ensures forall i :: 0 <= i < REGISTERS ==> r[i] <= 50
  {
    forall i | 0 <= i < REGISTERS
      ensures r[i] <= 50
    {
      if r[i] != 0 { var h :| h in s && PatIndex(h) == i && PatCount(h) == r[i]; }
    }
  }

  // ------------------------------------------------------------ commands on several keys

  /** Missing keys are null and count as empty. */
  ghost predicate AllValid(keys: seq<Hll?>)
    reads keys
  {
    forall k :: 0 <= k < |keys| && keys[k] != null ==> keys[k].Valid()
  }

  ghost function Union(keys: seq<Hll?>): set<Word>
    reads keys
  {
    if keys == [] then {} else Union(keys[..|keys| - 1]) + Elements(keys[|keys| - 1])
  }

  ghost function Elements(key: Hll?): set<Word>
    reads key
  {
    if key == null then {} else key.members
  }

  lemma {:induction false} UnionFirst(key: Hll?, keys: seq<Hll?>)
    ensures Union([key] + keys) == Elements(key) + Union(keys)
  {
    if keys == [] {
      assert [key] + keys == [key];
      assert [key][..0] == [];
    } else {
      var n := |keys| - 1;
      assert ([key] + keys)[..n + 1] == [key] + keys[..n];
      UnionFirst(key, keys[..n]);
    }
  }

  /** The unpacked registers of the union of several objects. */
  method MergeKeys(keys: seq<Hll?>) returns (max: array<nat>)
    requires AllValid(keys)
    ensures fresh(max) && max.Length == REGISTERS && Summarises(max[..], Union(keys))
  {
    hide Summarises, Registers, Expand, Parses;
    max := new nat[REGISTERS](_ => 0);
    assert max[..] == Run(0, REGISTERS);
    EmptySummary();
    for j := 0 to |keys|
      invariant Summarises(max[..], Union(keys[..j]))
    {
      assert keys[..j + 1][..j] == keys[..j];
      if keys[j] != null {
        MergeIsUnion(max[..], Union(keys[..j]), Regs(keys[j].body), keys[j].members);
        var ok := keys[j].Merge(max);
      } else {
        assert Union(keys[..j + 1]) == Union(keys[..j]);
      }
    }
    assert keys[..|keys|] == keys;
  }

  /** The PFCOUNT command on several keys: the estimate for the registers of the union. */
  method PfCountUnion(keys: seq<Hll?>, estimate: (real, nat) -> nat) returns (n: nat)
    requires AllValid(keys)
    ensures exists r :: Summarises(r, Union(keys)) && n == estimate(Sum(r), Zeros(r))
  {
    var max := MergeKeys(keys);
    var e, ez := RawSum(max[..]);
    n := estimate(e, ez);
  }

  method WriteRegisters(p: Dense, max: seq<nat>) returns (d: Dense)
    requires |max| == REGISTERS && forall i :: 0 <= i < REGISTERS ==> max[i] <= 50
    ensures Registers(d) == max
  {
    d := p;
    for j := 0 to REGISTERS
      invariant Registers(d)[..j] == max[..j]
    {
      SetRegisters(d, j, max[j]);
      d := SetRegister(d, j, max[j]);
    }
    assert Registers(d)[..REGISTERS] == Registers(d) && max[..REGISTERS] == max;
  }

  /** Two objects that were given the same elements count alike, whatever their history and form. */
  lemma SameElementsSameCount(a: Hll, b: Hll)
    requires a.Valid() && b.Valid() && a.members == b.members && a.estimate == b.estimate
    ensures a.Cardinality() == b.Cardinality()
  {
    SummaryUnique(Regs(a.body), Regs(b.body), a.members);
  }
}
