/**
 Which bytes are a request, and which are refused, for any bytes at all: what a pass of the parser
 makes of a buffer is described here without the parser, and the parser is proved to agree. The
 byte after a carriage return and the two after an argument are skipped, not looked at.
 */
module Wire {

  import opened Basics
  import opened Bitwise
  import opened Decimal
  import opened Protocol

  // ------------------------------------------------------------ the bytes of a request

  /** A mark, a number as text, a carriage return and one more byte. */
  predicate NumberLine(w: seq<byte>, mark: byte, v: int) {
    |w| == LineSize(v) && w[0] == mark && w[1..|w| - 2] == Text(v) && w[|w| - 2] == 13
  }

  function LineSize(v: int): nat {
    |Text(v)| + 3
  }

  function ArgSize(a: Arg): nat {
    LineSize(|a|) + |a| + 2
  }

  /** The length line, the argument and two more bytes. */
  predicate ArgBytes(w: seq<byte>, a: Arg) {
    var l := LineSize(|a|);
    |a| <= 512 * 1024 * 1024 && |w| == ArgSize(a) && NumberLine(w[..l], 36, |a|) && w[l..l + |a|] == a
  }

  function ArgsSize(args: seq<Arg>): nat {
    if args == [] then 0 else ArgSize(args[0]) + ArgsSize(args[1..])
  }

  /** The arguments one after another. */
  predicate ArgsBytes(w: seq<byte>, args: seq<Arg>) {
    if args == [] then w == []
    else
      var m := ArgSize(args[0]);
      m <= |w| && ArgBytes(w[..m], args[0]) && ArgsBytes(w[m..], args[1..])
  }

  /** The count line and the arguments; a count of 0 or less stands alone, for an empty request. */
  ghost predicate Request(w: seq<byte>, args: seq<Arg>) {
    if args == [] then exists v :: v <= 0 && IsLong(v) && NumberLine(w, 42, v)
    else CountAndArgs(w, |args|, args)
  }

  /** A count line for n arguments and some of the arguments. */
  predicate CountAndArgs(w: seq<byte>, n: int, args: seq<Arg>) {
    var m := LineSize(n);
    0 < n <= 1024 * 1024 && m <= |w| && NumberLine(w[..m], 42, n) && ArgsBytes(w[m..], args)
  }

  // ----------------------------------------------------------------- what is refused

  /** The first byte that is a carriage return or zero, or the end. */
  predicate StopsAt(w: seq<byte>, k: nat) {
    k <= |w| && (forall i :: 0 <= i < k ==> w[i] != 13 && w[i] != 0) && (k == |w| || w[k] == 13 || w[k] == 0)
  }

  /** A line and one more byte are there. */
  predicate WholeLine(w: seq<byte>, k: nat) {
    StopsAt(w, k) && k + 2 <= |w| && w[k] == 13
  }

  /** No carriage return is there, or none in front of a zero byte. */
  ghost predicate Endless(w: seq<byte>) {
    exists k: nat :: StopsAt(w, k) && (k < |w| ==> w[k] == 0)
  }

  /** A whole count line whose text is no number, or one above the limit. */
  ghost predicate BadCount(w: seq<byte>) {
    exists k: nat :: WholeLine(w, k) &&
      (k == 0 || Parsed(w[1..k]).None? || Parsed(w[1..k]).value > 1024 * 1024)
  }

  /** A whole length line without its mark, or whose text is no number from 0 to 512 MB. */
  ghost predicate BadLength(w: seq<byte>) {
    exists k: nat :: WholeLine(w, k) &&
      (w[0] != 36 || Parsed(w[1..k]).None? || !(0 <= Parsed(w[1..k]).value <= 512 * 1024 * 1024))
  }

  /** How many bytes already read are still buffered once one more argument has been read: the
      length line of a large one drops what is in front of it, and a large one that ends the buffer
      takes the buffer with it. */
  function HeldAfter(held: nat, avail: int, a: Arg): nat {
    if |a| < 32 * 1024 then held + ArgSize(a)
    else if avail == ArgSize(a) then 0
    else |a| + 2
  }

  function Held(held: nat, avail: int, args: seq<Arg>): nat
    decreases |args|
  {
    if args == [] then held
    else Held(HeldAfter(held, avail, args[0]), avail - ArgSize(args[0]), args[1..])
  }

  /** Where a length line should be, there is a bad one, or none yet and too much is buffered. */
  ghost predicate BadNext(held: nat, w: seq<byte>) {
    BadLength(w) || (Endless(w) && held + |w| > 64 * 1024)
  }

  /** The same after some of the arguments. */
  ghost predicate BadAfter(held: nat, w: seq<byte>, args: seq<Arg>) {
    var m := ArgsSize(args);
    m <= |w| && ArgsBytes(w[..m], args) && BadNext(Held(held, |w|, args), w[m..])
  }

  /** The same after the count line of n arguments. */
  ghost predicate BadArgument(w: seq<byte>, n: int, args: seq<Arg>) {
    var m := LineSize(n);
    |args| < n <= 1024 * 1024 && m <= |w| && NumberLine(w[..m], 42, n) && BadAfter(m, w[m..], args)
  }

  /** The bytes are refused, as soon as they are buffered. */
  ghost predicate Refused(w: seq<byte>) {
    BadCount(w) || (Endless(w) && |w| > 64 * 1024) || exists n, args :: BadArgument(w, n, args)
  }

  // ----------------------------------------------------------------------- lines

  /** The search for a carriage return, told by where it stops. */
  lemma {:induction false} FindCrStops(buf: seq<byte>, pos: nat, k: nat)
    requires pos <= k <= |buf| && Plain(buf[pos..k]) && (k == |buf| || buf[k] == CR || buf[k] == 0)
    ensures FindCr(buf, pos) == if k < |buf| && buf[k] == CR then k else -1
    decreases k - pos
  {
    if pos < k {
      assert buf[pos..k][0] == buf[pos] && buf[pos..k][1..] == buf[pos + 1..k];
      FindCrStops(buf, pos + 1, k);
    }
  }

  lemma {:induction false} Stop(w: seq<byte>, from: nat) returns (k: nat)
    requires from <= |w| && forall i :: 0 <= i < from ==> w[i] != 13 && w[i] != 0
    ensures StopsAt(w, k)
    decreases |w| - from
  {
    if from == |w| || w[from] == 13 || w[from] == 0 {
      k := from;
    } else {
      k := Stop(w, from + 1);
    }
  }

  lemma StopsOnce(w: seq<byte>, k: nat)
    requires StopsAt(w, k)
    ensures forall j: nat :: StopsAt(w, j) ==> j == k
  {}

  /** The line at pos, by the place where what is buffered from there stops. */
  lemma LineFound(buf: seq<byte>, pos: nat, k: nat)
    requires pos <= |buf| && StopsAt(buf[pos..], k)
    ensures var w := buf[pos..];
      FindLine(buf, pos) ==
      if k < |w| && w[k] == 13 then (if k + 2 <= |w| then At(pos + k) else Missing)
      else if |buf| > INLINE_MAX_SIZE then TooBig else Missing
  {
    assert buf[pos..pos + k] == buf[pos..][..k];
    FindCrStops(buf, pos, pos + k);
  }

  lemma {:induction false} DigitsPlain(n: nat)
    ensures Plain(Digits(n))
  {
    DigitsNumber(n);
  }

  lemma TextPlain(v: int)
    ensures Plain(Text(v)) && |Text(v)| > 0
  {
    if v < 0 { DigitsPlain(-v); } else { DigitsPlain(v); }
  }

  /** A number line is a whole line, and its text is the number. */
  lemma NumberLineWhole(w: seq<byte>, mark: byte, v: int)
    requires LineSize(v) <= |w| && NumberLine(w[..LineSize(v)], mark, v) && mark != 0 && mark != 13
    ensures WholeLine(w, LineSize(v) - 2) && w[0] == mark && w[1..LineSize(v) - 2] == Text(v)
  {
    hide Text;
    var m := LineSize(v);
    TextPlain(v);
    assert w[..m][1..m - 2] == w[1..m - 2];
    assert w[..m - 2] == [mark] + Text(v);
    assert w[..m][m - 2] == w[m - 2];
  }

  /** A whole line with that mark and text is a number line. */
  lemma WholeNumberLine(w: seq<byte>, mark: byte, k: nat, v: int)
    requires 1 <= k && WholeLine(w, k) && w[0] == mark && w[1..k] == Text(v)
    ensures LineSize(v) == k + 2 && NumberLine(w[..k + 2], mark, v)
  {
    hide Text;
    assert w[..k + 2][1..k] == w[1..k] && w[..k + 2][k] == w[k];
  }

  lemma ParsedIs(s: seq<byte>)
    ensures Parsed(s).Some? ==> IsLong(Parsed(s).value) && Text(Parsed(s).value) == s
  {}

  // --------------------------------------------------------------- one argument

  /** Reading a length that is there. */
  lemma LengthGoes(c: Conn, pos: nat, n: nat)
    requires pos <= |c.buf| && c.bulklen == -1 && n <= MAX_BULK
    requires LineSize(n) <= |c.buf| - pos && NumberLine(c.buf[pos..][..LineSize(n)], DOLLAR, n)
    ensures var s := ReadLength(c, pos);
      && s.Go? && s.conn == c.(buf := s.conn.buf, bulklen := n) && s.conn.buf[s.pos..] == c.buf[pos..][LineSize(n)..]
      && s.pos == if n >= MBULK_BIG_ARG then 0 else pos + LineSize(n)
  {
    hide Text, Parsed, FindLine, ReadLength;
    var w, m := c.buf[pos..], LineSize(n);
    NumberLineWhole(w, DOLLAR, n);
    LineFound(c.buf, pos, m - 2);
    assert w[1..m - 2] == c.buf[pos + 1..pos + m - 2];
    ParsedText(n);
    TextPlain(n);
    LengthAt(c, pos, pos + m - 2, n);
  }

  /** Where a round of the loop leads that reads argument a. */
  ghost predicate ReadsArg(c: Conn, pos: nat, a: Arg, d: Conn, p: nat) {
    && pos <= |c.buf| && p <= |d.buf| && ArgSize(a) <= |c.buf| - pos && c.multibulklen > 0
    && d.buf[p..] == c.buf[pos..][ArgSize(a)..] && p == HeldAfter(pos, |c.buf| - pos, a)
    && d.multibulklen == c.multibulklen - 1 && d.bulklen == -1 && d.argv == c.argv + [a] && d.closing == c.closing
  }

  lemma ArgGoes(c: Conn, pos: nat)
    requires pos <= |c.buf| && c.bulklen >= 0 && c.multibulklen > 0 && |c.buf| - pos >= c.bulklen + 2
    ensures var n, w, t := c.bulklen, c.buf[pos..], ReadArg(c, pos);
      && t.Go? && t.conn.buf[t.pos..] == w[n + 2..] && t.conn.argv == c.argv + [w[..n]]
      && t.pos == (if pos == 0 && n >= MBULK_BIG_ARG && |c.buf| == n + 2 then 0 else pos + n + 2)
      && t.conn.multibulklen == c.multibulklen - 1 && t.conn.bulklen == -1 && t.conn.closing == c.closing
  {
    var n, w := c.bulklen, c.buf[pos..];
    assert c.buf[pos..pos + n] == w[..n] && c.buf[pos + n + 2..] == w[n + 2..];
  }

  lemma Round(c: Conn, pos: nat)
    requires pos <= |c.buf| && c.bulklen == -1 && c.multibulklen > 0
    requires ReadLength(c, pos).Go? && ReadArg(ReadLength(c, pos).conn, ReadLength(c, pos).pos).Go?
    ensures var t := ReadArg(ReadLength(c, pos).conn, ReadLength(c, pos).pos);
      t.conn.bulklen >= -1 && ReadArgs(c, pos) == ReadArgs(t.conn, t.pos)
  {
    hide Parsed, FindLine;
  }

  lemma ArgParts(w: seq<byte>, a: Arg)
    requires ArgSize(a) <= |w| && ArgBytes(w[..ArgSize(a)], a)
    ensures var l := LineSize(|a|);
      |a| <= MAX_BULK && NumberLine(w[..l], DOLLAR, |a|) && w[l..][..|a|] == a && w[l..][|a| + 2..] == w[ArgSize(a)..]
  {
    hide Text, NumberLine;
    var l, m := LineSize(|a|), ArgSize(a);
    assert w[..m][..l] == w[..l] && w[..m][l..l + |a|] == w[l..][..|a|];
  }

  lemma OneArg(c: Conn, pos: nat, a: Arg) returns (d: Conn, p: nat)
    requires pos <= |c.buf| && c.bulklen == -1 && c.multibulklen > 0
    requires ArgSize(a) <= |c.buf| - pos && ArgBytes(c.buf[pos..][..ArgSize(a)], a)
    ensures ReadsArg(c, pos, a, d, p) && ReadArgs(c, pos) == ReadArgs(d, p)
  {
    hide Text, ReadLength, ReadArg, NumberLine, ReadArgs, LineSize, ArgBytes;
    var w, l := c.buf[pos..], LineSize(|a|);
    ArgParts(w, a);
    LengthGoes(c, pos, |a|);
    var s := ReadLength(c, pos);
    assert |s.conn.buf[s.pos..]| == |w| - l;
    ArgGoes(s.conn, s.pos);
    var t := ReadArg(s.conn, s.pos);
    Round(c, pos);
    d, p := t.conn, t.pos;
  }

  /** Whatever the loop reads has the bytes of an argument. */
  lemma ArgRead(c: Conn, pos: nat) returns (a: Arg)
    requires pos <= |c.buf| && c.bulklen == -1 && c.multibulklen > 0
    requires ReadLength(c, pos).Go? && ReadArg(ReadLength(c, pos).conn, ReadLength(c, pos).pos).Go?
    ensures ArgSize(a) <= |c.buf| - pos && ArgBytes(c.buf[pos..][..ArgSize(a)], a)
  {
    hide Text, Parsed, FindLine, ReadLength, NumberLine;
    var w := c.buf[pos..];
    var n := LengthRead(c, pos);
    var l := LineSize(n);
    a := w[l..l + n];
    assert w[..l + n + 2][..l] == w[..l] && w[..l + n + 2][l..l + n] == w[l..l + n];
  }

  lemma LengthRead(c: Conn, pos: nat) returns (n: nat)
    requires pos <= |c.buf| && c.bulklen == -1 && ReadLength(c, pos).Go?
    ensures n <= MAX_BULK && LineSize(n) <= |c.buf| - pos && NumberLine(c.buf[pos..][..LineSize(n)], DOLLAR, n)
    ensures var s := ReadLength(c, pos);
      s.conn.bulklen == n && s.conn.buf[s.pos..] == c.buf[pos..][LineSize(n)..]
  {
    hide Text, Parsed, FindLine;
    var w := c.buf[pos..];
    var k := Stop(w, 0);
    LineFound(c.buf, pos, k);
    assert w[1..k] == c.buf[pos + 1..pos + k];
    ParsedIs(w[1..k]);
    n := Parsed(w[1..k]).value;
    WholeNumberLine(w, DOLLAR, k, n);
  }

  /** A length line is refused exactly when it is bad, or is not there and too much is buffered. */
  lemma LengthRefused(c: Conn, pos: nat)
    requires pos <= |c.buf| && c.bulklen == -1
    ensures ReadLength(c, pos).Reject? <==> BadNext(pos, c.buf[pos..])
  {
    hide Text, Parsed, FindLine;
    var w := c.buf[pos..];
    var k := Stop(w, 0);
    LineFound(c.buf, pos, k);
    StopsOnce(w, k);
    if WholeLine(w, k) {
      assert w[0] == c.buf[pos];
      if k > 0 { assert w[1..k] == c.buf[pos + 1..pos + k]; }
      assert BadNext(pos, w) <==> BadLength(w);
    } else {
      assert !BadLength(w);
      assert Endless(w) <==> (k < |w| ==> w[k] == 0);
    }
  }

  // ------------------------------------------------------------------ the arguments

  /** Where the loop stands once it has read some arguments. */
  ghost predicate ReadsArgs(c: Conn, pos: nat, args: seq<Arg>, d: Conn, p: nat) {
    && c.bulklen == -1 && pos <= |c.buf| && p <= |d.buf| && ArgsSize(args) <= |c.buf| - pos && |args| <= c.multibulklen
    && d.buf[p..] == c.buf[pos..][ArgsSize(args)..] && p == Held(pos, |c.buf| - pos, args)
    && d.multibulklen == c.multibulklen - |args| && d.bulklen == -1 && d.argv == c.argv + args && d.closing == c.closing
    && ReadArgs(c, pos) == ReadArgs(d, p)
  }

  lemma ReadsMore(c: Conn, pos: nat, a: Arg, e: Conn, q: nat, args: seq<Arg>, d: Conn, p: nat)
    requires c.bulklen == -1 && ReadsArg(c, pos, a, e, q) && ReadArgs(c, pos) == ReadArgs(e, q) && ReadsArgs(e, q, args, d, p)
    ensures ReadsArgs(c, pos, [a] + args, d, p)
  {
    hide ReadArgs, ArgSize, HeldAfter;
    assert ([a] + args)[1..] == args;
    assert c.buf[pos..][ArgSize(a)..][ArgsSize(args)..] == c.buf[pos..][ArgSize(a) + ArgsSize(args)..];
    assert |c.buf[pos..][ArgSize(a)..]| == |c.buf| - pos - ArgSize(a);
  }

  /** Arguments that are there are read. */
  lemma {:induction false} ArgsGo(c: Conn, pos: nat, args: seq<Arg>) returns (d: Conn, p: nat)
    requires pos <= |c.buf| && c.bulklen == -1 && |args| <= c.multibulklen
    requires ArgsSize(args) <= |c.buf| - pos && ArgsBytes(c.buf[pos..][..ArgsSize(args)], args)
    ensures ReadsArgs(c, pos, args, d, p)
    decreases |args|
  {
    hide ReadArgs, ArgSize, HeldAfter, ArgBytes;
    if args == [] {
      d, p := c, pos;
    } else {
      var w, m, r := c.buf[pos..], ArgSize(args[0]), ArgsSize(args);
      assert w[..r][..m] == w[..m] && w[..r][m..] == w[m..][..r - m];
      var e, q := OneArg(c, pos, args[0]);
      d, p := ArgsGo(e, q, args[1..]);
      ReadsMore(c, pos, args[0], e, q, args[1..], d, p);
      assert [args[0]] + args[1..] == args;
    }
  }

  /** The loop reads no further: no argument is missing, or the next one cannot be read. */
  ghost predicate Halts(c: Conn, pos: nat)
    requires pos <= |c.buf| && c.bulklen == -1
  {
    c.multibulklen > 0 && ReadLength(c, pos).Go? ==> ReadArg(ReadLength(c, pos).conn, ReadLength(c, pos).pos).Wait?
  }

  /** The arguments the loop reads. */
  lemma {:induction false} Follow(c: Conn, pos: nat) returns (args: seq<Arg>, d: Conn, p: nat)
    requires pos <= |c.buf| && c.bulklen == -1
    ensures ReadsArgs(c, pos, args, d, p) && ArgsBytes(c.buf[pos..][..ArgsSize(args)], args) && Halts(d, p)
    decreases c.multibulklen
  {
    hide ReadArgs, ArgSize, HeldAfter, ArgBytes, ReadLength;
    if Halts(c, pos) {
      args, d, p := [], c, pos;
    } else {
      var a := ArgRead(c, pos);
      var e, q := OneArg(c, pos, a);
      var more;
      more, d, p := Follow(e, q);
      args := [a] + more;
      ReadsMore(c, pos, a, e, q, more, d, p);
      var w, m, r := c.buf[pos..], ArgSize(a), ArgsSize(more);
      assert w[..m + r][..m] == w[..m] && w[..m + r][m..] == w[m..][..r];
      assert args[1..] == more;
    }
  }

  /** How the loop ends where it halts. */
  lemma Halted(c: Conn, pos: nat)
    requires pos <= |c.buf| && c.bulklen == -1 && Halts(c, pos)
    ensures var t := ReadArgs(c, pos);
      && (c.multibulklen == 0 ==> t == Wait(c, pos))
      && (c.multibulklen > 0 && t.Wait? ==> t.conn.multibulklen > 0 && t.conn.closing == c.closing)
      && (t.Reject? <==> c.multibulklen > 0 && BadNext(pos, c.buf[pos..]))
      && (t.Reject? ==> t.conn.closing)
  {
    hide BadNext, FindLine, Parsed;
    LengthRefused(c, pos);
  }

  /** The loop gets to the end when all arguments are there. */
  lemma ArgsAccepted(c: Conn, pos: nat, args: seq<Arg>)
    requires pos <= |c.buf| && c.bulklen == -1 && |args| == c.multibulklen
    requires ArgsSize(args) <= |c.buf| - pos && ArgsBytes(c.buf[pos..][..ArgsSize(args)], args)
    ensures var t := ReadArgs(c, pos);
      t.Wait? && t.conn == Conn(t.conn.buf, 0, -1, c.argv + args, c.closing)
      && t.conn.buf[t.pos..] == c.buf[pos..][ArgsSize(args)..]
  {
    hide ReadArgs, ArgsBytes, ArgsSize, ReadLength, BadNext, Held;
    var d, p := ArgsGo(c, pos, args);
    Halted(d, p);
  }

  /** It gets to the end only then. */
  lemma ArgsFound(c: Conn, pos: nat) returns (args: seq<Arg>)
    requires pos <= |c.buf| && c.bulklen == -1
    ensures var t := ReadArgs(c, pos);
      && (t.Wait? && t.conn.multibulklen == 0 ==>
            |args| == c.multibulklen && ArgsSize(args) <= |c.buf| - pos && ArgsBytes(c.buf[pos..][..ArgsSize(args)], args))
      && (t.Wait? ==> t.conn.closing == c.closing)
  {
    hide ReadArgs, ArgsBytes, ArgsSize, ReadLength, BadNext, Held;
    var d, p;
    args, d, p := Follow(c, pos);
    Halted(d, p);
  }

  /** The loop refuses exactly when a length line is bad after some arguments that are there. */
  lemma ArgsRefused(c: Conn, pos: nat)
    requires pos <= |c.buf| && c.bulklen == -1
    ensures ReadArgs(c, pos).Reject? <==> exists args :: |args| < c.multibulklen && BadAfter(pos, c.buf[pos..], args)
    ensures ReadArgs(c, pos).Reject? ==> ReadArgs(c, pos).conn.closing
  {
    hide ReadArgs, ArgsBytes, ArgsSize, ReadLength, BadNext, Held;
    var w := c.buf[pos..];
    forall args | |args| < c.multibulklen && BadAfter(pos, w, args) ensures ReadArgs(c, pos).Reject? {
      var d, p := ArgsGo(c, pos, args);
      LengthRefused(d, p);
      RefusedNow(d, p);
    }
    var args, d, p := Follow(c, pos);
    Halted(d, p);
    if ReadArgs(c, pos).Reject? { assert BadAfter(pos, w, args); }
  }

  lemma RefusedNow(c: Conn, pos: nat)
    requires pos <= |c.buf| && c.bulklen == -1 && c.multibulklen > 0 && ReadLength(c, pos).Reject?
    ensures ReadArgs(c, pos).Reject?
  {}

  // ----------------------------------------------------------------- whole requests

  /** Between two requests, with the mark of an array at the front. */
  predicate AtRequest(c: Conn) {
    c.multibulklen == 0 && c.bulklen == -1 && c.argv == [] && c.buf != [] && c.buf[0] == 42
  }

  /** A count line is refused exactly when it is bad, or is not there and too much is buffered. */
  lemma CountRefused(c: Conn)
    requires AtRequest(c)
    ensures ReadCount(c).Reject? <==> BadCount(c.buf) || (Endless(c.buf) && |c.buf| > 64 * 1024)
    ensures ReadCount(c).Reject? ==> ReadCount(c).conn.closing
    ensures ReadCount(c).Wait? ==> ReadCount(c).conn == c
  {
    hide Text, Parsed, FindLine;
    var w := c.buf;
    assert w[0..] == w;
    var k := Stop(w, 0);
    LineFound(w, 0, k);
    StopsOnce(w, k);
    if WholeLine(w, k) {
      assert !Endless(w);
    } else {
      assert !BadCount(w);
      assert Endless(w) <==> (k < |w| ==> w[k] == 0);
    }
  }

  /** A count line that is there is read. */
  lemma CountGoes(c: Conn, v: int)
    requires AtRequest(c) && IsLong(v) && v <= MAX_ARGS
    requires LineSize(v) <= |c.buf| && NumberLine(c.buf[..LineSize(v)], STAR, v)
    ensures ReadCount(c) == Go(c.(multibulklen := if v <= 0 then 0 else v), LineSize(v))
  {
    hide Text, Parsed, FindLine;
    var w, m := c.buf, LineSize(v);
    assert w[0..] == w;
    NumberLineWhole(w, STAR, v);
    LineFound(w, 0, m - 2);
    ParsedText(v);
  }

  lemma CountRead(c: Conn) returns (v: int)
    requires AtRequest(c) && ReadCount(c).Go?
    ensures IsLong(v) && v <= MAX_ARGS && LineSize(v) <= |c.buf| && NumberLine(c.buf[..LineSize(v)], STAR, v)
  {
    hide Text, Parsed, FindLine;
    var w := c.buf;
    assert w[0..] == w;
    var k := Stop(w, 0);
    LineFound(w, 0, k);
    ParsedIs(w[1..k]);
    v := Parsed(w[1..k]).value;
    WholeNumberLine(w, STAR, k, v);
  }

  /** A pass, once the count line has been read. */
  lemma AfterCount(c: Conn, n: nat, m: nat)
    requires AtRequest(c) && m <= |c.buf| && ReadCount(c) == Go(c.(multibulklen := n), m)
    ensures var t := ReadArgs(c.(multibulklen := n), m);
      && Parse(c).0 == (if t.Wait? then t.conn.(buf := t.conn.buf[t.pos..]) else t.conn)
      && (Parse(c).1 <==> t.Wait? && t.conn.multibulklen == 0)
  {
    hide ReadCount, ReadArgs;
  }

  lemma EmptyRequestGoes(c: Conn, used: seq<byte>, v: int)
    requires AtRequest(c) && used <= c.buf && v <= 0 && IsLong(v) && NumberLine(used, STAR, v)
    ensures Parse(c) == (Conn(c.buf[|used|..], 0, -1, [], c.closing), true)
  {
    hide Text, LineSize, ReadCount;
    assert c.buf[..|used|] == used;
    CountGoes(c, v);
    AfterCount(c, 0, |used|);
  }

  lemma {:induction false} ArgsLength(w: seq<byte>, args: seq<Arg>)
    requires ArgsBytes(w, args)
    ensures |w| == ArgsSize(args)
  {
    hide ArgBytes, ArgSize;
    if args != [] { ArgsLength(w[ArgSize(args[0])..], args[1..]); }
  }

  lemma ArgumentsGo(c: Conn, used: seq<byte>, args: seq<Arg>)
    requires AtRequest(c) && used <= c.buf && args != [] && CountAndArgs(used, |args|, args)
    ensures Parse(c) == (Conn(c.buf[|used|..], 0, -1, args, c.closing), true)
  {
    hide Text, NumberLine, LineSize, ReadCount, ReadArgs, Parse, ArgsBytes, ArgsSize;
    var n, m := |args|, LineSize(|args|);
    assert c.buf[..m] == used[..m];
    CountGoes(c, n);
    AfterCount(c, n, m);
    ArgsLength(used[m..], args);
    assert c.buf[m..][..|used| - m] == used[m..] && c.buf[m..][|used| - m..] == c.buf[|used|..];
    ArgsAccepted(c.(multibulklen := n), m, args);
    assert [] + args == args;
  }

  /** The request that some bytes are is what a pass over them, and whatever follows, yields. */
  lemma RequestGoes(c: Conn, used: seq<byte>, args: seq<Arg>)
    requires AtRequest(c) && used <= c.buf && Request(used, args)
    ensures Parse(c) == (Conn(c.buf[|used|..], 0, -1, args, c.closing), true)
  {
    hide NumberLine, Parse, CountAndArgs;
    if args == [] {
      var v :| v <= 0 && IsLong(v) && NumberLine(used, STAR, v);
      EmptyRequestGoes(c, used, v);
    } else {
      ArgumentsGo(c, used, args);
    }
  }

  /** Whatever a pass yields is the request that the bytes it used up are. */
  lemma RequestRead(c: Conn) returns (used: seq<byte>, args: seq<Arg>)
    requires AtRequest(c) && Parse(c).1
    ensures used <= c.buf && Request(used, args)
  {
    hide Text, NumberLine, LineSize, ReadCount, ReadArgs, ArgsSize, ArgsBytes;
    var v := CountRead(c);
    var m := LineSize(v);
    if v <= 0 {
      used, args := c.buf[..m], [];
    } else {
      CountGoes(c, v);
      AfterCount(c, v, m);
      args := ArgsFound(c.(multibulklen := v), m);
      used := c.buf[..m + ArgsSize(args)];
      assert used[..m] == c.buf[..m] && used[m..] == c.buf[m..][..ArgsSize(args)];
    }
  }

  lemma BadArgumentRefused(c: Conn, n: int, args: seq<Arg>)
    requires AtRequest(c) && BadArgument(c.buf, n, args)
    ensures Parse(c).0.closing
  {
    hide Text, NumberLine, LineSize, ReadCount, BadAfter, ReadArgs;
    CountGoes(c, n);
    AfterCount(c, n, LineSize(n));
    ArgsRefused(c.(multibulklen := n), LineSize(n));
  }

  lemma RefusedArgument(c: Conn, v: int) returns (args: seq<Arg>)
    requires AtRequest(c) && !c.closing && IsLong(v) && v <= MAX_ARGS
    requires LineSize(v) <= |c.buf| && NumberLine(c.buf[..LineSize(v)], STAR, v) && Parse(c).0.closing
    ensures BadArgument(c.buf, v, args)
  {
    hide Text, NumberLine, LineSize, ReadCount, BadAfter, ReadArgs, ArgsBytes, ArgsSize;
    var d := c.(multibulklen := if v <= 0 then 0 else v);
    CountGoes(c, v);
    AfterCount(c, d.multibulklen, LineSize(v));
    args := ArgsFound(d, LineSize(v));
    ArgsRefused(d, LineSize(v));
    args :| |args| < d.multibulklen && BadAfter(LineSize(v), c.buf[LineSize(v)..], args);
  }

  /** A pass closes the connection exactly when the bytes are refused. */
  lemma RefusedExactly(c: Conn)
    requires AtRequest(c) && !c.closing
    ensures Parse(c).0.closing <==> Refused(c.buf)
  {
    hide Text, NumberLine, LineSize, ReadCount, ReadArgs, BadCount, Endless, BadArgument;
    CountRefused(c);
    forall n, args | BadArgument(c.buf, n, args) ensures Parse(c).0.closing { BadArgumentRefused(c, n, args); }
    if ReadCount(c).Go? && Parse(c).0.closing {
      var v := CountRead(c);
      var args := RefusedArgument(c, v);
    }
  }

  /** All of this about one pass. */
  lemma PassExactly(c: Conn)
    requires AtRequest(c)
    ensures forall used, args :: used <= c.buf && Request(used, args) ==>
              Parse(c) == (Conn(c.buf[|used|..], 0, -1, args, c.closing), true)
    ensures Parse(c).1 ==> exists used :: Request(used, Parse(c).0.argv) && c.buf == used + Parse(c).0.buf
    ensures !c.closing ==> (Parse(c).0.closing <==> Refused(c.buf))
  {
    hide Parse, Request, Refused;
    forall used, args | used <= c.buf && Request(used, args)
      ensures Parse(c) == (Conn(c.buf[|used|..], 0, -1, args, c.closing), true)
    {
      RequestGoes(c, used, args);
    }
    if Parse(c).1 {
      var used, args := RequestRead(c);
      assert c.buf == used + c.buf[|used|..];
    }
    if !c.closing { RefusedExactly(c); }
  }

  // ------------------------------------------------------------- what the encoder writes

  lemma EncodedLine(mark: byte, n: nat)
    ensures NumberLine(Line(mark, n), mark, n) && |Line(mark, n)| == LineSize(n)
  {
    assert Line(mark, n)[1..|Line(mark, n)| - 2] == Digits(n);
  }

  lemma EncodedArg(a: Arg)
    requires |a| <= MAX_BULK
    ensures ArgBytes(EncodeArg(a), a)
  {
    hide NumberLine, Line;
    EncodedLine(DOLLAR, |a|);
    var l := Line(DOLLAR, |a|);
    assert EncodeArg(a)[..|l|] == l && EncodeArg(a)[|l|..|l| + |a|] == a;
  }

  lemma {:induction false} EncodedArgs(args: seq<Arg>)
    requires forall i :: 0 <= i < |args| ==> |args[i]| <= MAX_BULK
    ensures ArgsBytes(EncodeArgs(args), args)
  {
    hide ArgBytes, EncodeArg;
    if args != [] {
      EncodedArg(args[0]);
      EncodedArgs(args[1..]);
      var m, w := |EncodeArg(args[0])|, EncodeArgs(args);
      assert m == ArgSize(args[0]) by { ArgLength(EncodeArg(args[0]), args[0]); }
      assert w[..m] == EncodeArg(args[0]) && w[m..] == EncodeArgs(args[1..]);
    }
  }

  lemma ArgLength(w: seq<byte>, a: Arg)
    requires ArgBytes(w, a)
    ensures |w| == ArgSize(a)
  {}

  /** What the encoder writes for a command is a request for it. */
  lemma EncodedIsRequest(cmd: Command)
    requires Sendable(cmd)
    ensures Request(Encode(cmd), cmd)
  {
    hide NumberLine, Line, ArgsBytes, EncodeArgs;
    EncodedLine(STAR, |cmd|);
    EncodedArgs(cmd);
    var l := Line(STAR, |cmd|);
    assert Encode(cmd)[..|l|] == l && Encode(cmd)[|l|..] == EncodeArgs(cmd);
  }
}
