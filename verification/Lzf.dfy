/**
 The LZF codec: the compressor with its uninitialised match table, the decompressor, and the
 round trip between them.
 */
module Lzf {

  import opened Basics

  const HSIZE: nat := 65536
  const MAX_LIT: nat := 32
  const MAX_OFF: nat := 8192
  const MAX_REF: nat := 264
  const WORD32: nat := 0x1_0000_0000

  // ------------------------------------------------------------ the format

  /** How reading a compressed stream ends: the data, an output too small for it (E2BIG), or a
      stream that is cut short or refers to before its start (EINVAL). */
  datatype Outcome = Done(data: seq<byte>) | TooBig | Corrupt

  /** The last n bytes of the result are copied one by one from position ref on, so a copy may
      read what it has just written. */
  function CopyBack(out: seq<byte>, ref: nat, n: nat): (r: seq<byte>)
    requires ref < |out|
    ensures |r| == |out| + n
    decreases n
  {
    if n == 0 then out else CopyBack(out + [out[ref]], ref + 1, n - 1)
  }

  /** Reading one instruction: how many bytes of the stream it takes and the data after it. */
  datatype Reading = Took(n: nat, out: seq<byte>) | Failed(outcome: Outcome)

  /**
   The instruction at the head of a stream, `out` being the data so far and `cap` the room for all
   of it:
     000LLLLL, then L+1 bytes to copy;
     LLLooooo oooooooo, a back reference of L+2 bytes (L = 1..6) at offset o+1;
     111ooooo LLLLLLLL oooooooo, a back reference of L+9 bytes at offset o+1.
   */
  function Read(s: seq<byte>, out: seq<byte>, cap: nat): (r: Reading)
    requires s != []
    ensures r.Took? ==> 0 < r.n <= |s|
    ensures r.Failed? ==> !r.outcome.Done?
  {
    var ctrl: int := s[0];
    if ctrl < 32 then
      if |out| + ctrl + 1 > cap then Failed(TooBig)
      else if ctrl + 2 > |s| then Failed(Corrupt)
      else Took(ctrl + 2, out + s[1..ctrl + 2])
    else if ctrl / 32 < 7 then
      if |s| < 2 then Failed(Corrupt) else ReadRef(2, ctrl / 32, (ctrl % 32) * 256 + s[1], out, cap)
    else
      if |s| < 3 then Failed(Corrupt) else ReadRef(3, ctrl / 32 + s[1], (ctrl % 32) * 256 + s[2], out, cap)
  }

  function ReadRef(n: nat, len: nat, off: nat, out: seq<byte>, cap: nat): Reading {
    if |out| + len + 2 > cap then Failed(TooBig)
    else if |out| < off + 1 then Failed(Corrupt)
    else Took(n, CopyBack(out, |out| - 1 - off, len + 2))
  }

  /** The meaning of a stream: its instructions one after the other. */
  function Unpack(s: seq<byte>, out: seq<byte>, cap: nat): Outcome
    decreases |s|
  {
    if s == [] then Done(out)
    else
      match Read(s, out, cap)
      case Failed(e) => e
      case Took(n, out') => Unpack(s[n..], out', cap)
  }

  /** A complete instruction does not look at what follows it. */
  lemma ReadPrefix(a: seq<byte>, b: seq<byte>, out: seq<byte>, cap: nat)
    requires a != [] && Read(a, out, cap).Took?
    ensures Read(a + b, out, cap) == Read(a, out, cap)
  {
    var n := Read(a, out, cap).n;
    assert (a + b)[..n] == a[..n];
    assert a[0] < 32 ==> (a + b)[1..n] == a[1..n];
  }

  /** A stream that reads to its end can be followed by another one. */
  lemma {:induction false} UnpackAppend(a: seq<byte>, b: seq<byte>, out: seq<byte>, cap: nat)
    requires Unpack(a, out, cap).Done?
    ensures Unpack(a + b, out, cap) == Unpack(b, Unpack(a, out, cap).data, cap)
    decreases |a|
  {
    if a == [] {
      assert a + b == b;
    } else {
      var r := Read(a, out, cap);
      ReadPrefix(a, b, out, cap);
      assert (a + b)[r.n..] == a[r.n..] + b;
      UnpackAppend(a[r.n..], b, r.out, cap);
    }
  }

  lemma UnpackLiteral(bytes: seq<byte>, out: seq<byte>, cap: nat)
    requires 1 <= |bytes| <= MAX_LIT && |out| + |bytes| <= cap
    ensures Unpack([|bytes| - 1] + bytes, out, cap) == Done(out + bytes)
  {
    var s: seq<byte> := [|bytes| - 1] + bytes;
    assert s[1..|bytes| + 1] == bytes;
    assert s[|bytes| + 1..] == [];
  }

  /** The bytes the compressor writes for a back reference of n bytes at offset off + 1. */
  function RefToken(off: nat, n: nat): (t: seq<byte>)
    requires off < MAX_OFF && 3 <= n <= MAX_REF
  {
    var len := n - 2;
    if len < 7 then [off / 256 + len * 32, off % 256]
    else [off / 256 + 7 * 32, len - 7, off % 256]
  }

  lemma UnpackRef(off: nat, n: nat, out: seq<byte>, cap: nat)
    requires off < MAX_OFF && 3 <= n <= MAX_REF && off < |out| && |out| + n <= cap
    ensures Unpack(RefToken(off, n), out, cap) == Done(CopyBack(out, |out| - 1 - off, n))
  {
    hide CopyBack;
    var t := RefToken(off, n);
    assert Read(t, out, cap) == ReadRef(|t|, n - 2, off, out, cap);
    assert t[|t|..] == [];
  }

  /** A copy whose source agrees with what follows in the data extends the data read so far. */
  lemma {:induction false} CopyMatches(data: seq<byte>, ip: nat, ref: nat, n: nat)
    requires ref < ip && ip + n <= |data|
    requires data[ref..ref + n] == data[ip..ip + n]
    ensures CopyBack(data[..ip], ref, n) == data[..ip + n]
    decreases n
  {
    if n > 0 {
      assert data[ref] == data[ref..ref + n][0] == data[ip..ip + n][0] == data[ip];
      assert data[..ip] + [data[..ip][ref]] == data[..ip + 1];
      assert data[ref + 1..ref + n] == data[ref..ref + n][1..];
      assert data[ip + 1..ip + n] == data[ip..ip + n][1..];
      CopyMatches(data, ip + 1, ref + 1, n - 1);
    }
  }

  // -------------------------------------------------- the format, without a reader

  /** An instruction: bytes to append, or a copy of `len` bytes from `off + 1` before the end. */
  datatype Token = Literal(bytes: seq<byte>) | Back(off: nat, len: nat)

  /** How an instruction is written. */
  function Written(t: Token): seq<byte>
    requires Writable(t)
  {
    match t
    case Literal(bytes) => [|bytes| - 1] + bytes
    case Back(off, len) => RefToken(off, len)
  }

  predicate Writable(t: Token) {
    match t
    case Literal(bytes) => 1 <= |bytes| <= 32
    case Back(off, len) => off < 8192 && 3 <= len <= 264
  }

  /** What an instruction makes of the data so far: the result fits, starts with that data, and goes
      on with the given bytes or with bytes that repeat those at the given distance. */
  ghost predicate Extends(t: Token, out: seq<byte>, out': seq<byte>, cap: nat) {
    && out <= out' && |out'| <= cap
    && match t
       case Literal(bytes) => out' == out + bytes
       case Back(off, len) =>
         && off < |out| && |out'| == |out| + len
         && forall i :: |out| <= i < |out'| ==> out'[i] == out'[i - off - 1]
  }

  /** A stream of instructions stands for some data, from `out` on. */
  ghost predicate StandsFor(s: seq<byte>, tokens: seq<Token>, out: seq<byte>, data: seq<byte>, cap: nat)
    decreases |tokens|
  {
    if tokens == [] then s == [] && data == out
    else
      && Writable(tokens[0]) && Written(tokens[0]) <= s
      && exists out' :: Extends(tokens[0], out, out', cap)
                        && StandsFor(s[|Written(tokens[0])|..], tokens[1..], out', data, cap)
  }

  /** A copy is determined by its repeating what lies before. */
  lemma {:induction false} CopyRepeats(out: seq<byte>, ref: nat, n: nat, i: nat)
    requires ref < |out| && i < |out| + n
    ensures var r := CopyBack(out, ref, n); r[i] == if i < |out| then out[i] else r[i - (|out| - ref)]
    decreases n
  {
    if n > 0 {
      CopyRepeats(out + [out[ref]], ref + 1, n - 1, i);
      CopyRepeats(out + [out[ref]], ref + 1, n - 1, ref);
    }
  }

  lemma {:induction false} RepeatsOnly(off: nat, out: seq<byte>, r: seq<byte>, r': seq<byte>, k: nat)
    requires off < |out| && out <= r && out <= r' && |r| == |r'| && k <= |r|
    requires forall i :: |out| <= i < |r| ==> r[i] == r[i - off - 1] && r'[i] == r'[i - off - 1]
    ensures r[..k] == r'[..k]
    decreases k
  {
    if k > 0 {
      RepeatsOnly(off, out, r, r', k - 1);
      var j := if k - 1 < |out| then k - 1 else k - 2 - off;
      assert k - 1 >= |out| ==> r[..k - 1][j] == r'[..k - 1][j];
      assert r[..k] == r[..k - 1] + [r[k - 1]] && r'[..k] == r'[..k - 1] + [r'[k - 1]];
    }
  }

  lemma BackIsCopy(off: nat, len: nat, out: seq<byte>, out': seq<byte>, cap: nat)
    requires off < |out| && |out| + len <= cap
    ensures Extends(Back(off, len), out, out', cap) <==> out' == CopyBack(out, |out| - 1 - off, len)
  {
    hide CopyBack;
    var r := CopyBack(out, |out| - 1 - off, len);
    forall i | 0 <= i < |out| ensures r[i] == out[i] { CopyRepeats(out, |out| - 1 - off, len, i); }
    forall i | |out| <= i < |r| ensures r[i] == r[i - off - 1] { CopyRepeats(out, |out| - 1 - off, len, i); }
    assert r[..|out|] == out;
    if Extends(Back(off, len), out, out', cap) {
      RepeatsOnly(off, out, out', r, |r|);
      assert out'[..|r|] == out' && r[..|r|] == r;
    }
  }

  /** Reading what was written for an instruction does what it stands for. */
  lemma WrittenUnpacks(t: Token, out: seq<byte>, out': seq<byte>, cap: nat)
    requires Writable(t) && Extends(t, out, out', cap)
    ensures Unpack(Written(t), out, cap) == Done(out')
  {
    hide Unpack, RefToken, CopyBack;
    match t
    case Literal(bytes) => UnpackLiteral(bytes, out, cap);
    case Back(off, len) =>
      BackIsCopy(off, len, out, out', cap);
      UnpackRef(off, len, out, cap);
  }

  lemma {:induction false} StreamUnpacks(s: seq<byte>, tokens: seq<Token>, out: seq<byte>, data: seq<byte>, cap: nat)
    requires StandsFor(s, tokens, out, data, cap)
    ensures Unpack(s, out, cap) == Done(data)
    decreases |tokens|
  {
    if tokens != [] {
      var w := Written(tokens[0]);
      var out' :| Extends(tokens[0], out, out', cap) && StandsFor(s[|w|..], tokens[1..], out', data, cap);
      StreamUnpacks(s[|w|..], tokens[1..], out', data, cap);
      WrittenUnpacks(tokens[0], out, out', cap);
      UnpackAppend(w, s[|w|..], out, cap);
      assert s == w + s[|w|..];
    }
  }

  /** Whatever is read was written for some instruction. */
  lemma ReadToken(s: seq<byte>, out: seq<byte>, cap: nat) returns (t: Token)
    requires s != [] && Read(s, out, cap).Took?
    ensures var r := Read(s, out, cap); Writable(t) && Written(t) == s[..r.n] && Extends(t, out, r.out, cap)
  {
    hide CopyBack;
    var ctrl: int := s[0];
    if ctrl < 32 {
      t := Literal(s[1..ctrl + 2]);
      assert Written(t) == s[..ctrl + 2];
    } else {
      var long := ctrl / 32 == 7;
      var len, off := ctrl / 32 + (if long then s[1] else 0) + 2, (ctrl % 32) * 256 + (if long then s[2] else s[1]);
      t := Back(off, len);
      BackIsCopy(off, len, out, Read(s, out, cap).out, cap);
      RefTokenParts(s, off, len, long);
    }
  }

  lemma RefTokenParts(s: seq<byte>, off: nat, len: nat, long: bool)
    requires |s| >= (if long then 3 else 2) && s[0] >= 32 && (long <==> s[0] as int / 32 == 7)
    requires len == s[0] as int / 32 + (if long then s[1] else 0) + 2
    requires off == s[0] as int % 32 * 256 + (if long then s[2] else s[1])
    ensures off < 8192 && 3 <= len <= 264 && RefToken(off, len) == s[..if long then 3 else 2]
  {}

  lemma {:induction false} UnpackedStands(s: seq<byte>, out: seq<byte>, cap: nat) returns (tokens: seq<Token>)
    requires Unpack(s, out, cap).Done?
    ensures StandsFor(s, tokens, out, Unpack(s, out, cap).data, cap)
    decreases |s|
  {
    if s == [] {
      tokens := [];
    } else {
      hide Extends, Written, Read;
      var r := Read(s, out, cap);
      var t := ReadToken(s, out, cap);
      var more := UnpackedStands(s[r.n..], r.out, cap);
      tokens := [t] + more;
      assert tokens[1..] == more && |Written(t)| == r.n;
    }
  }

  /** The meaning of a stream, for any bytes: it is read to its end exactly when it is a sequence of
      written instructions whose data fits and whose copies start inside it, and gives that data. */
  lemma UnpackExactly(s: seq<byte>, data: seq<byte>, cap: nat)
    ensures Unpack(s, [], cap) == Done(data) <==> exists tokens :: StandsFor(s, tokens, [], data, cap)
  {
    hide StandsFor, Unpack;
    if Unpack(s, [], cap) == Done(data) {
      var tokens := UnpackedStands(s, [], cap);
    }
    forall tokens | StandsFor(s, tokens, [], data, cap) ensures Unpack(s, [], cap) == Done(data) {
      StreamUnpacks(s, tokens, [], data, cap);
    }
  }

  // ------------------------------------------------------------- the compressor

  type uint32 = x: int | 0 <= x < 0x1_0000_0000

  /** `FRST` and `NEXT`: the last bytes seen, shifted into a 32-bit word. */
  function First(data: seq<byte>, ip: nat): uint32
    requires ip + 1 < |data|
  {
    var a: int := data[ip];
    a * 256 + data[ip + 1]
  }

  function Next(hval: uint32, data: seq<byte>, ip: nat): uint32
    requires ip + 2 < |data|
  {
    (hval * 256 + data[ip + 2]) % WORD32
  }

  /** `IDX`: which slot of the match table a hash value selects. */
  function Slot(hval: uint32): (i: nat)
    ensures i < HSIZE
  {
    (hval / 256 - 5 * hval) % HSIZE
  }

  /**
   The compressor in the middle of its work. Before the pending literal run (whose length byte is
   not written yet) the output is a stream for the input up to the run; the run's bytes follow.
   The stream is no longer than its input plus one byte for every 32.
   */
  ghost predicate Pending(out: seq<byte>, data: seq<byte>, ip: nat, op: nat, lit: nat) {
    && lit < MAX_LIT && lit <= ip <= |data|
    && lit + 1 <= op && op - lit - 1 <= |out| && (lit > 0 ==> op <= |out|)
    && Unpack(out[..op - lit - 1], [], |data|) == Done(data[..ip - lit])
    && (lit > 0 ==> out[op - lit..op] == data[ip - lit..ip])
    && op - lit - 1 <= (ip - lit) + (ip - lit) / 32
  }

  /** A stream for the first ip bytes, of length q. */
  ghost predicate Closed(out: seq<byte>, data: seq<byte>, ip: nat, q: nat) {
    && ip <= |data| && q <= |out|
    && Unpack(out[..q], [], |data|) == Done(data[..ip])
  }

  /** Writing its length byte makes a run of 1 to 32 literals part of the stream. */
  lemma Joined(a: seq<byte>, b: seq<byte>, c: seq<byte>)
    ensures a + b + c == a + (b + c)
  {}

  lemma Prefix(data: seq<byte>, a: nat, b: nat)
    requires a <= b <= |data|
    ensures data[..a] + data[a..b] == data[..b]
  {}

  lemma CloseRun(out: seq<byte>, out': seq<byte>, data: seq<byte>, ip: nat, op: nat, lit: nat)
    requires 1 <= lit <= MAX_LIT && lit <= ip <= |data| && lit + 1 <= op <= |out|
    requires Unpack(out[..op - lit - 1], [], |data|) == Done(data[..ip - lit])
    requires out[op - lit..op] == data[ip - lit..ip]
    requires |out'| == |out| && out'[..op] == out[..op - lit - 1] + [lit - 1] + out[op - lit..op]
    ensures Closed(out', data, ip, op)
  {
    hide Unpack;
    var run := data[ip - lit..ip];
    AppendLiteral(out[..op - lit - 1], run, data[..ip - lit], |data|);
    Joined(out[..op - lit - 1], [lit - 1], run);
    Prefix(data, ip - lit, ip);
  }

  lemma AppendLiteral(a: seq<byte>, run: seq<byte>, x: seq<byte>, cap: nat)
    requires Unpack(a, [], cap) == Done(x) && 1 <= |run| <= MAX_LIT && |x| + |run| <= cap
    ensures Unpack(a + ([|run| - 1] + run), [], cap) == Done(x + run)
  {
    UnpackAppend(a, [|run| - 1] + run, [], cap);
    UnpackLiteral(run, x, cap);
  }

  /** Writing a back reference that matches the input extends the stream over the match. */
  lemma CloseRef(out: seq<byte>, out': seq<byte>, data: seq<byte>, ip: nat, q: nat, ref: nat, n: nat)
    requires Closed(out, data, ip, q)
    requires ref < ip && ip - ref - 1 < MAX_OFF && 3 <= n <= MAX_REF && ip + n <= |data|
    requires data[ref..ref + n] == data[ip..ip + n]
    requires |out'| == |out| && q + |RefToken(ip - ref - 1, n)| <= |out|
    requires out'[..q + |RefToken(ip - ref - 1, n)|] == out[..q] + RefToken(ip - ref - 1, n)
    ensures Closed(out', data, ip + n, q + |RefToken(ip - ref - 1, n)|)
  {
    hide Unpack, RefToken, CopyBack;
    UnpackAppend(out[..q], RefToken(ip - ref - 1, n), [], |data|);
    UnpackRef(ip - ref - 1, n, data[..ip], |data|);
    CopyMatches(data, ip, ref, n);
  }

  /** The 16 comparisons without a bound check: the length at the first difference, or 18. */
  method MatchSixteen(data: seq<byte>, ref: nat, ip: nat) returns (len: nat, differs: bool)
    requires ref < ip && ip + 19 <= |data| && data[ref..ref + 3] == data[ip..ip + 3]
    ensures 3 <= len <= 18 && data[ref..ref + len] == data[ip..ip + len]
    ensures !differs ==> len == 18 && data[ref..ref + 19] == data[ip..ip + 19]
    ensures differs ==> data[ref + len] != data[ip + len]
  {
    len := 2;
    while len < 18
      invariant 2 <= len <= 18 && data[ref..ref + len + 1] == data[ip..ip + len + 1]
    {
      MatchStep(data, ref, ip, len + 1);
      len := len + 1;
      if data[ref + len] != data[ip + len] { return len, true; }
    }
    MatchStep(data, ref, ip, 18);
    differs := false;
  }

  /**
   How far the bytes at ref and ip agree, from the 3 already known on: first 16 comparisons
   without a bound check when there is room, then one at a time up to the limit. The last two bytes
   of the input are left alone, unless the first three comparisons reach into them.
   */
  method MatchLength(data: seq<byte>, ref: nat, ip: nat) returns (len: nat)
    requires ref < ip && ip + 3 <= |data| && data[ref..ref + 3] == data[ip..ip + 3]
    ensures 3 <= len <= MAX_REF && ip + len <= |data|
    ensures data[ref..ref + len] == data[ip..ip + len]
    ensures len < Min(|data| - ip - 2, MAX_REF) ==> data[ref + len] != data[ip + len]
  {
    len := 2;
    var maxlen := |data| - ip - len;
    if maxlen > MAX_REF { maxlen := MAX_REF; }
    if maxlen > 16 {
      var differs;
      len, differs := MatchSixteen(data, ref, ip);
      if differs { return; }
    }
    len := len + 1;
    ghost var limit := if maxlen < len then len else maxlen;
    while len < maxlen && data[ref + len] == data[ip + len]
      invariant 3 <= len <= limit && ip + limit <= |data|
      invariant data[ref..ref + len] == data[ip..ip + len]
    {
      MatchStep(data, ref, ip, len);
      len := len + 1;
    }
  }

  lemma MatchStep(data: seq<byte>, ref: nat, ip: nat, len: nat)
    requires ref < ip && ip + len < |data|
    ensures data[ref..ref + len + 1] == data[ip..ip + len + 1] <==>
            data[ref..ref + len] == data[ip..ip + len] && data[ref + len] == data[ip + len]
  {
    var a, b := data[ref..ref + len + 1], data[ip..ip + len + 1];
    assert a == data[ref..ref + len] + [data[ref + len]];
    assert b == data[ip..ip + len] + [data[ip + len]];
    if a == b {
      assert data[ref..ref + len] == a[..len] && data[ip..ip + len] == b[..len];
      assert a[len] == b[len];
    }
  }

  /** `op[-lit - 1] = lit - 1`: the length byte of the pending run, in a byte. */
  function LengthByte(lit: nat): byte
    requires lit <= MAX_LIT
  {
    (lit - 1) % 256
  }

  lemma OneMoreLiteral(out: seq<byte>, data: seq<byte>, ip: nat, op: nat, lit: nat)
    requires Pending(out, data, ip, op, lit) && ip < |data| && op < |out|
    ensures var out' := out[op := data[ip]];
            && out'[..op - lit - 1] == out[..op - lit - 1]
            && out'[op - lit..op + 1] == data[ip - lit..ip + 1]
  {
    hide Unpack;
    assert out[op := data[ip]][op - lit..op + 1] == out[op - lit..op] + [data[ip]];
    assert data[ip - lit..ip + 1] == data[ip - lit..ip] + [data[ip]];
  }

  /** One more literal: appended to the pending run, which is closed when it is full. */
  method PutLiteral(out: array<byte>, data: seq<byte>, ip: nat, op: nat, lit: nat) returns (op': nat, lit': nat)
    requires Pending(out[..], data, ip, op, lit) && ip < |data| && op < out.Length
    modifies out
    ensures Pending(out[..], data, ip + 1, op', lit')
    ensures if lit' == 0 then op' == op + 2 && lit == MAX_LIT - 1 else op' == op + 1 && lit' == lit + 1
  {
    hide Unpack;
    ghost var before := out[..];
    lit', op' := lit + 1, op + 1;
    out[op] := data[ip];
    OneMoreLiteral(before, data, ip, op, lit);
    assert out[..] == before[op := data[ip]];
    if lit' == MAX_LIT {
      ghost var filled := out[..];
      out[op' - lit' - 1] := LengthByte(lit');
      CloseRun(filled, out[..], data, ip + 1, op', lit');
      lit', op' := 0, op' + 1;
    }
  }

  /** Ending the pending run: its length byte is written, or its place is given back when it is
      empty. */
  method StopRun(out: array<byte>, data: seq<byte>, ip: nat, op: nat, lit: nat) returns (q: nat)
    requires Pending(out[..], data, ip, op, lit) && op <= out.Length
    modifies out
    ensures q == (if lit == 0 then op - 1 else op) && Closed(out[..], data, ip, q)
  {
    ghost var before := out[..];
    out[op - lit - 1] := LengthByte(lit);
    q := op;
    if lit == 0 {
      q := q - 1;
      assert out[..q] == before[..q];
    } else {
      CloseRun(before, out[..], data, ip, op, lit);
    }
  }

  /** A back reference of n bytes written at q, and the start of a new run after it. */
  method PutRef(out: array<byte>, data: seq<byte>, ip: nat, q: nat, ref: nat, n: nat) returns (op: nat)
    requires Closed(out[..], data, ip, q) && q + 4 < out.Length
    requires ref < ip && ip - ref - 1 < MAX_OFF && 3 <= n <= MAX_REF && ip + n <= |data|
    requires data[ref..ref + n] == data[ip..ip + n]
    modifies out
    ensures op == q + |RefToken(ip - ref - 1, n)| + 1 && Closed(out[..], data, ip + n, op - 1)
  {
    ghost var before := out[..];
    var off, len := ip - ref - 1, n - 2;
    op := q;
    if len < 7 {
      out[op] := off / 256 + len * 32;
      op := op + 1;
    } else {
      out[op] := off / 256 + 7 * 32;
      op := op + 1;
      out[op] := len - 7;
      op := op + 1;
    }
    out[op] := off % 256;
    op := op + 1;
    assert out[..op] == before[..q] + RefToken(off, n);
    CloseRef(before, out[..], data, ip, q, ref, n);
    op := op + 1;
  }

  /** The size of the stream grows by no more than the input it covers. */
  lemma RefIsShort(off: nat, n: nat)
    requires off < MAX_OFF && 3 <= n <= MAX_REF
    ensures |RefToken(off, n)| + 1 <= n && |RefToken(off, n)| <= 3
  {}

  /**
   The bytes of a match: the candidate from the table is within reach, not at the very start, and
   agrees in three bytes.
   */
  predicate Candidate(data: seq<byte>, ref: nat, ip: nat)
    requires ip + 2 < |data|
  {
    ref < ip && ip - ref - 1 < MAX_OFF && ref > 0 &&
    data[ref + 2] == data[ip + 2] && data[ref] == data[ip] && data[ref + 1] == data[ip + 1]
  }

  /** A match found at ref: the run before it is stopped and the longest reference written. */
  method PutMatch(out: array<byte>, data: seq<byte>, ip: nat, op: nat, lit: nat, ref: nat) returns (ip': nat, op': nat)
    requires Pending(out[..], data, ip, op, lit) && ip + 2 < |data| && Candidate(data, ref, ip)
    requires (if lit == 0 then op - 1 else op) + 4 < out.Length
    modifies out
    ensures ip + 3 <= ip' <= |data| && Pending(out[..], data, ip', op', 0)
    ensures data[ref..ref + ip' - ip] == data[ip..ip']
    ensures ip' - ip < Min(|data| - ip - 2, MAX_REF) ==> data[ref + ip' - ip] != data[ip']
  {
    hide Unpack, RefToken;
    assert data[ref..ref + 3] == [data[ref], data[ref + 1], data[ref + 2]];
    assert data[ip..ip + 3] == [data[ip], data[ip + 1], data[ip + 2]];
    var q := StopRun(out, data, ip, op, lit);
    var len := MatchLength(data, ref, ip);
    RefIsShort(ip - ref - 1, len);
    op' := PutRef(out, data, ip, q, ref, len);
    ip' := ip + len;
  }

  /** After a match the two positions before its end are entered into the table. */
  method Reindex(htab: seq<uint32>, data: seq<byte>, ip: nat) returns (htab': seq<uint32>, hval: uint32)
    requires |htab| == HSIZE && 2 <= ip && ip + 2 < |data| < WORD32
    ensures |htab'| == HSIZE
  {
    htab' := htab;
    hval := First(data, ip - 2);
    hval := Next(hval, data, ip - 2);
    htab' := htab'[Slot(hval) := ip - 2];
    hval := Next(hval, data, ip - 1);
    htab' := htab'[Slot(hval) := ip - 1];
  }

  lemma PendingRoom(out: seq<byte>, data: seq<byte>, ip: nat, op: nat, lit: nat)
    requires Pending(out, data, ip, op, lit)
    ensures op <= ip + ip / 32 + 1 && ip / 32 <= |data| / 32
  {}

  /**
   `lzf_compress`, for every content of the match table: 0 when the output does not fit, otherwise
   the length of a stream that stands for the input and is at most one byte in 32 (and one more)
   longer than it. With that much room and 3 bytes to spare it does not give up; it only does when
   what it has read so far leaves fewer than 5 bytes of room.
   */
  method Compress(data: seq<byte>, out: array<byte>, uninitialised: seq<uint32>) returns (n: nat)
    requires |data| != 1 && |data| < WORD32 && |uninitialised| == HSIZE
    modifies out
    ensures n <= out.Length
    ensures n > 0 ==> n <= |data| + |data| / 32 + 1
    ensures n > 0 ==> Unpack(out[..n], [], |data|) == Done(data)
    ensures |data| > 0 && out.Length >= |data| + |data| / 32 + 4 ==> n > 0
    ensures |data| > 0 && out.Length > 0 && n == 0 ==>
              exists ip: nat, op: nat, lit: nat :: Pending(out[..], data, ip, op, lit) && op + 5 > out.Length
  {
    hide First, Next, Slot;
    if |data| == 0 || out.Length == 0 { return 0; }
    var ip: nat, op: nat, lit: nat := 0, 1, 0;
    var htab: seq<uint32> := uninitialised;
    var hval := First(data, ip);
    while ip + 2 < |data|
      invariant ip <= |data| && |htab| == HSIZE
      invariant Pending(out[..], data, ip, op, lit)
      decreases |data| - ip
    {
      PendingRoom(out[..], data, ip, op, lit);
      hval := Next(hval, data, ip);
      var ref := htab[Slot(hval)];
      htab := htab[Slot(hval) := ip];
      if Candidate(data, ref, ip) {
        if op + 4 >= out.Length {
          if (if lit == 0 then op - 1 else op) + 4 >= out.Length { return 0; }
        }
        ip, op := PutMatch(out, data, ip, op, lit, ref);
        lit := 0;
        if ip + 2 >= |data| { break; }
        htab, hval := Reindex(htab, data, ip);
      } else {
        if op >= out.Length { return 0; }
        op, lit := PutLiteral(out, data, ip, op, lit);
        ip := ip + 1;
      }
    }
    PendingRoom(out[..], data, ip, op, lit);
    if op + 3 > out.Length { return 0; }
    n := Finish(out, data, ip, op, lit);
  }

  /** The last bytes of the input, always literals. */
  method Finish(out: array<byte>, data: seq<byte>, ip0: nat, op0: nat, lit0: nat) returns (n: nat)
    requires |data| >= 2 && ip0 <= |data| <= ip0 + 2
    requires Pending(out[..], data, ip0, op0, lit0) && op0 + 3 <= out.Length
    modifies out
    ensures 0 < n <= out.Length && n <= |data| + |data| / 32 + 1
    ensures Unpack(out[..n], [], |data|) == Done(data)
  {
    var ip, op, lit := FinishLiterals(out, data, ip0, op0, lit0);
    n := StopRun(out, data, ip, op, lit);
    assert data[..|data|] == data;
    assert out[..0] == [];
  }

  lemma PendingBounds(out: seq<byte>, data: seq<byte>, ip: nat, op: nat, lit: nat)
    requires Pending(out, data, ip, op, lit)
    ensures lit < MAX_LIT
  {}

  method FinishLiterals(out: array<byte>, data: seq<byte>, ip0: nat, op0: nat, lit0: nat)
      returns (ip: nat, op: nat, lit: nat)
    requires ip0 <= |data| <= ip0 + 2
    requires Pending(out[..], data, ip0, op0, lit0) && op0 + 3 <= out.Length
    modifies out
    ensures ip == |data| && Pending(out[..], data, ip, op, lit) && op <= out.Length
  {
    hide Unpack, Pending;
    PendingBounds(out[..], data, ip0, op0, lit0);
    ip, op, lit := ip0, op0, lit0;
    while ip < |data|
      invariant ip0 <= ip <= |data|
      invariant Pending(out[..], data, ip, op, lit) && lit < MAX_LIT
      invariant op + (|data| - ip) + (if lit + (|data| - ip) >= MAX_LIT then 1 else 0) <= out.Length
    {
      op, lit := PutLiteral(out, data, ip, op, lit);
      ip := ip + 1;
      PendingBounds(out[..], data, ip, op, lit);
    }
  }

  // ----------------------------------------------------------- the decompressor

  datatype Errno = NoError | E2BIG | EINVAL

  lemma {:induction false} CopyDisjoint(out: seq<byte>, tail: seq<byte>, ref: nat, n: nat)
    requires ref + n <= |out| && (n > 0 || ref < |out|)
    ensures CopyBack(out + tail, ref, n) == out + tail + out[ref..ref + n]
    decreases n
  {
    if n > 0 {
      assert (out + tail)[ref] == out[ref];
      assert out + tail + [out[ref]] == out + (tail + [out[ref]]);
      assert out[ref..ref + n] == [out[ref]] + out[ref + 1..ref + n];
      if n == 1 {
        assert out[ref + 1..ref + n] == [];
      } else {
        CopyDisjoint(out, tail + [out[ref]], ref + 1, n - 1);
        assert out + tail + out[ref..ref + n] == out + (tail + [out[ref]]) + out[ref + 1..ref + n];
      }
    } else {
      assert out + tail + out[ref..ref] == out + tail;
    }
  }

  /** The copy of a back reference: one block when source and target do not overlap and the
      reference is long, byte by byte otherwise. */
  method CopyRef(out: array<byte>, op: nat, ref: nat, len: nat) returns (op': nat)
    requires ref < op && op + len + 2 <= out.Length
    modifies out
    ensures op' == op + len + 2 && out[..op'] == CopyBack(old(out[..op]), ref, len + 2)
  {
    ghost var before := out[..op];
    var n := len + 2;
    op' := op + n;
    if len > 9 && op >= ref + n {
      CopyDisjoint(before, [], ref, n);
      assert before + [] == before;
      forall i | 0 <= i < n {
        out[op + i] := out[ref + i];
      }
      assert out[..op'] == before + before[ref..ref + n];
    } else {
      var i := 0;
      while i < n
        invariant 0 <= i <= n
        invariant CopyBack(before, ref, n) == CopyBack(out[..op + i], ref + i, n - i)
      {
        ghost var sofar := out[..op + i];
        out[op + i] := out[ref + i];
        assert out[..op + i + 1] == sofar + [sofar[ref + i]];
        i := i + 1;
      }
    }
  }

  /** A literal run copied from the stream. */
  method CopyLiterals(s: seq<byte>, ip: nat, out: array<byte>, op: nat, n: nat)
    requires ip + n <= |s| && op + n <= out.Length
    modifies out
    ensures out[..op + n] == old(out[..op]) + s[ip..ip + n]
  {
    var i := 0;
    while i < n
      invariant 0 <= i <= n && out[..op + i] == old(out[..op]) + s[ip..ip + i]
    {
      ghost var sofar := out[..op + i];
      out[op + i] := s[ip + i];
      assert out[..op + i + 1] == sofar + [s[ip + i]];
      assert s[ip..ip + i + 1] == s[ip..ip + i] + [s[ip + i]];
      i := i + 1;
    }
  }

  /** One instruction, at ip, executed on the output buffer. */
  method Execute(s: seq<byte>, ip: nat, out: array<byte>, op: nat) returns (ip': nat, op': nat, e: Errno)
    requires ip < |s| && op <= out.Length
    modifies out
    ensures e == NoError ==> ip < ip' <= |s| && op' <= out.Length
    ensures match Read(s[ip..], old(out[..op]), out.Length)
            case Took(n, out') => e == NoError && ip' == ip + n && out[..op'] == out'
            case Failed(f) => e == if f == TooBig then E2BIG else EINVAL
  {
    ghost var t, before := s[ip..], out[..op];
    var ctrl: int := s[ip];
    ip', op', e := ip + 1, op, NoError;
    if ctrl < 32 {
      var n := ctrl + 1;
      if op + n > out.Length { return ip', op', E2BIG; }
      if ip' + n > |s| { return ip', op', EINVAL; }
      CopyLiterals(s, ip', out, op, n);
      assert t[1..ctrl + 2] == s[ip'..ip' + n];
      op', ip' := op + n, ip' + n;
    } else {
      var len := ctrl / 32;
      var ref: int := op - (ctrl % 32) * 256 - 1;
      if ip' >= |s| { return ip', op', EINVAL; }
      if len == 7 {
        len := len + s[ip'];
        ip' := ip' + 1;
        if ip' >= |s| { return ip', op', EINVAL; }
      }
      ref := ref - s[ip'];
      ip' := ip' + 1;
      if op + len + 2 > out.Length { return ip', op', E2BIG; }
      if ref < 0 { return ip', op', EINVAL; }
      op' := CopyRef(out, op, ref, len);
    }
  }

  /**
   `lzf_decompress`: for every stream, correct or not, the outcome its meaning prescribes, with
   nothing written past the output and nothing read past the input. It succeeds exactly when the
   stream stands for some data that fits, and then leaves that data.
   */
  method Decompress(s: seq<byte>, out: array<byte>) returns (n: nat, e: Errno)
    requires s != []
    modifies out
    ensures n <= out.Length
    ensures match Unpack(s, [], out.Length)
            case Done(data) => e == NoError && n == |data| && out[..n] == data
            case TooBig => e == E2BIG && n == 0
            case Corrupt => e == EINVAL && n == 0
    ensures e == NoError ==> exists tokens :: StandsFor(s, tokens, [], out[..n], out.Length)
    ensures forall tokens, data :: StandsFor(s, tokens, [], data, out.Length) ==>
              e == NoError && n == |data| && out[..n] == data
  {
    hide StandsFor;
    forall tokens, data | StandsFor(s, tokens, [], data, out.Length)
      ensures Unpack(s, [], out.Length) == Done(data)
    {
      StreamUnpacks(s, tokens, [], data, out.Length);
    }
    var ip: nat, op: nat := 0, 0;
    assert s[0..] == s && out[..0] == [];
    while ip < |s|
      invariant ip <= |s| && op <= out.Length
      invariant Unpack(s, [], out.Length) == Unpack(s[ip..], out[..op], out.Length)
      decreases |s| - ip
    {
      ghost var t, before := s[ip..], out[..op];
      ip, op, e := Execute(s, ip, out, op);
      if e != NoError { return 0, e; }
      assert s[ip..] == t[|t| - (|s| - ip)..];
    }
    UnpackExactly(s, out[..op], out.Length);
    return op, NoError;
  }

  /** Compressing and decompressing gives the input back, whatever the match table held. */
  method RoundTrip(data: seq<byte>, packed: array<byte>, back: array<byte>, uninitialised: seq<uint32>) returns (n: nat)
    requires |data| != 1 && |data| < WORD32 && |uninitialised| == HSIZE
    requires packed != back && back.Length == |data|
    modifies packed, back
    ensures n > 0 ==> back[..] == data
  {
    n := Compress(data, packed, uninitialised);
    if n > 0 {
      var m, e := Decompress(packed[..n], back);
      assert back[..m] == back[..];
    }
  }
}
