/**
 Requests on the wire: the array-of-bulk-strings form of the Redis serialization protocol (RESP),
 as the command encoder writes it (src/vr_replication.c), and what one pass of the request parser
 over the bytes buffered so far does (src/vr_client.c).
 */
module Protocol {

  import opened Basics
  import opened Bitwise
  import opened Decimal

  type Arg = seq<byte>
  type Command = seq<Arg>

  const CR: byte := 13
  const LF: byte := 10
  const STAR: byte := 42
  const DOLLAR: byte := 36

  const MAX_ARGS: int := 1024 * 1024
  const MAX_BULK: int := 512 * 1024 * 1024
  const INLINE_MAX_SIZE: nat := 1024 * 64
  const MBULK_BIG_ARG: nat := 1024 * 32

  // ---------------------------------------------------------------------- encoding

  /** A mark, a number and an end of line. */
  function Line(mark: byte, n: nat): (s: seq<byte>)
    ensures |s| == |Digits(n)| + 3
  {
    [mark] + Digits(n) + [CR, LF]
  }

  function EncodeArg(a: Arg): seq<byte> {
    Line(DOLLAR, |a|) + a + [CR, LF]
  }

  function EncodeArgs(args: seq<Arg>): seq<byte> {
    if args == [] then [] else EncodeArg(args[0]) + EncodeArgs(args[1..])
  }

  function Encode(cmd: Command): seq<byte> {
    Line(STAR, |cmd|) + EncodeArgs(cmd)
  }

  function EncodeAll(cmds: seq<Command>): seq<byte> {
    if cmds == [] then [] else Encode(cmds[0]) + EncodeAll(cmds[1..])
  }

  /** A command within the limits of the protocol. */
  predicate Sendable(cmd: Command) {
    1 <= |cmd| <= MAX_ARGS && forall i :: 0 <= i < |cmd| ==> |cmd[i]| <= MAX_BULK
  }

  predicate AllSendable(cmds: seq<Command>) {
    forall i :: 0 <= i < |cmds| ==> Sendable(cmds[i])
  }

  // ----------------------------------------------------------------------- parsing

  /** What a connection has buffered and how far it is in the current request. */
  datatype Conn = Conn(buf: seq<byte>, multibulklen: nat, bulklen: int, argv: seq<Arg>, closing: bool)

  /** The first carriage return from pos on, searched as in a C string: up to a zero byte. */
  function FindCr(buf: seq<byte>, pos: nat): (r: int)
    requires pos <= |buf|
    ensures r == -1 || (pos <= r < |buf| && buf[r] == CR)
    decreases |buf| - pos
  {
    if pos == |buf| || buf[pos] == 0 then -1
    else if buf[pos] == CR then pos
    else FindCr(buf, pos + 1)
  }

  datatype Found = Missing | TooBig | At(newline: nat)

  /** Looks for a whole line at pos; giving up on it once too much is buffered. */
  function FindLine(buf: seq<byte>, pos: nat): (r: Found)
    requires pos <= |buf|
    ensures r.At? ==> pos <= r.newline <= |buf| - 2 && buf[r.newline] == CR
    ensures r.TooBig? ==> |buf| > INLINE_MAX_SIZE
  {
    var newline := FindCr(buf, pos);
    if newline < 0 then (if |buf| > INLINE_MAX_SIZE then TooBig else Missing)
    else if newline > |buf| - 2 then Missing
    else At(newline)
  }

  /** How a step of the parser ends: it goes on, waits for more bytes, or rejects the request. */
  datatype Step = Go(conn: Conn, pos: nat) | Wait(conn: Conn, pos: nat) | Reject(conn: Conn)

  function Rejected(c: Conn, pos: nat): Step
    requires pos <= |c.buf|
  {
    Reject(c.(buf := c.buf[pos..], closing := true))
  }

  /** Reads the length line of the next argument, unless it is known already. */
  ghost function ReadLength(c: Conn, pos: nat): (r: Step)
    requires pos <= |c.buf|
    ensures !r.Reject? ==> r.pos <= |r.conn.buf| && r.conn.multibulklen == c.multibulklen
    ensures r.Go? ==> r.conn.bulklen >= 0 || c.bulklen < -1
  {
    if c.bulklen != -1 then Go(c, pos)
    else
      match FindLine(c.buf, pos)
      case TooBig => Rejected(c, 0)
      case Missing => Wait(c, pos)
      case At(newline) =>
        if c.buf[pos] != DOLLAR then Rejected(c, pos)
        else
          var ll := Parsed(c.buf[pos + 1..newline]);
          if ll.None? || ll.value < 0 || ll.value > MAX_BULK then Rejected(c, pos)
          else if ll.value >= MBULK_BIG_ARG then Go(c.(buf := c.buf[newline + 2..], bulklen := ll.value), 0)
          else Go(c.(bulklen := ll.value), newline + 2)
  }

  /** Takes the argument whose length is known, when all of it is there. */
  function ReadArg(c: Conn, pos: nat): (r: Step)
    requires pos <= |c.buf| && c.bulklen >= 0 && c.multibulklen > 0
    ensures !r.Reject? && r.pos <= |r.conn.buf|
    ensures r.Go? ==> r.conn.multibulklen == c.multibulklen - 1
  {
    if |c.buf| - pos < c.bulklen + 2 then Wait(c, pos)
    else if pos == 0 && c.bulklen >= MBULK_BIG_ARG && |c.buf| == c.bulklen + 2 then
      Go(Conn([], c.multibulklen - 1, -1, c.argv + [c.buf[..c.bulklen]], c.closing), 0)
    else
      Go(Conn(c.buf, c.multibulklen - 1, -1, c.argv + [c.buf[pos..pos + c.bulklen]], c.closing), pos + c.bulklen + 2)
  }

  /** The loop over the arguments of a request. */
  ghost function ReadArgs(c: Conn, pos: nat): (r: Step)
    requires pos <= |c.buf| && c.bulklen >= -1
    ensures !r.Go? && (r.Wait? ==> r.pos <= |r.conn.buf|)
    decreases c.multibulklen
  {
    if c.multibulklen == 0 then Wait(c, pos)
    else
      var s := ReadLength(c, pos);
      if !s.Go? then s
      else
        var t := ReadArg(s.conn, s.pos);
        if !t.Go? then t else ReadArgs(t.conn, t.pos)
  }

  /** The line with the number of arguments, when no request is under way. */
  ghost function ReadCount(c: Conn): (r: Step)
    ensures !r.Reject? ==> r.pos <= |r.conn.buf|
    ensures r.Go? ==> r.conn.bulklen == c.bulklen
  {
    if c.multibulklen != 0 then Go(c, 0)
    else
      match FindLine(c.buf, 0)
      case TooBig => Rejected(c, 0)
      case Missing => Wait(c, 0)
      case At(newline) =>
        var ll := if newline >= 1 then Parsed(c.buf[1..newline]) else None;
        if ll.None? || ll.value > MAX_ARGS then Rejected(c, 0)
        else if ll.value <= 0 then Go(c.(multibulklen := 0), newline + 2)
        else Go(c.(multibulklen := ll.value), newline + 2)
  }

  /** One pass of the parser: the connection afterwards and whether a whole request is there. */
  ghost function Parse(c: Conn): (r: (Conn, bool))
    requires c.bulklen >= -1
  {
    var s := ReadCount(c);
    if s.Wait? then (s.conn, false)
    else if s.Reject? then (s.conn, false)
    else
      var t := ReadArgs(s.conn, s.pos);
      if t.Reject? then (t.conn, false)
      else (t.conn.(buf := t.conn.buf[t.pos..]), t.conn.multibulklen == 0)
  }

  // -------------------------------------------------- parsing what the encoder has written

  predicate Plain(s: seq<byte>) {
    forall i :: 0 <= i < |s| ==> s[i] != 0 && s[i] != CR
  }

  lemma {:induction false} Scan(buf: seq<byte>, pos: nat, k: nat)
    requires pos <= k <= |buf| && Plain(buf[pos..k]) && (k == |buf| || buf[k] == CR)
    ensures FindCr(buf, pos) == if k == |buf| then -1 else k
    decreases k - pos
  {
    if pos < k {
      assert buf[pos..k][0] == buf[pos] && buf[pos..k][1..] == buf[pos + 1..k];
      Scan(buf, pos + 1, k);
    }
  }

  lemma PlainLine(mark: byte, n: nat)
    requires mark == STAR || mark == DOLLAR
    ensures Plain([mark] + Digits(n))
  {
    DigitsNumber(n);
  }

  /** A line that is all there is found; of one that is not, nothing is said to be found. */
  lemma LineThere(buf: seq<byte>, pos: nat, mark: byte, n: nat, more: seq<byte>, future: seq<byte>)
    requires pos <= |buf| && buf[pos..] + future == Line(mark, n) + more && (mark == STAR || mark == DOLLAR)
    requires |buf| - pos >= |Line(mark, n)|
    ensures var k := pos + 1 + |Digits(n)|;
      && FindLine(buf, pos) == At(k) && buf[pos] == mark && buf[pos + 1..k] == Digits(n)
      && buf[k + 2..] + future == more
  {
    var k, l := pos + 1 + |Digits(n)|, Line(mark, n);
    var w := buf[pos..] + future;
    assert w[..|l|] == l && w[..|l|] == buf[pos..pos + |l|];
    LineParts(buf[pos..pos + |l|], mark, n);
    assert buf[pos..pos + |l|][..|l| - 2] == buf[pos..k];
    assert buf[pos..pos + |l|][1..|l| - 2] == buf[pos + 1..k];
    assert buf[pos..pos + |l|][0] == buf[pos] && buf[pos..pos + |l|][|l| - 2] == buf[k];
    Scan(buf, pos, k);
    assert w[|l|..] == more && w[|l|..] == buf[k + 2..] + future;
  }

  lemma LineParts(l: seq<byte>, mark: byte, n: nat)
    requires l == Line(mark, n) && (mark == STAR || mark == DOLLAR)
    ensures Plain(l[..|l| - 2]) && l[0] == mark && l[1..|l| - 2] == Digits(n) && l[|l| - 2] == CR
  {
    PlainLine(mark, n);
    assert l[..|l| - 2] == [mark] + Digits(n);
  }

  lemma LineMissing(buf: seq<byte>, pos: nat, mark: byte, n: nat, more: seq<byte>, future: seq<byte>)
    requires pos <= |buf| && buf[pos..] + future == Line(mark, n) + more && (mark == STAR || mark == DOLLAR)
    requires |buf| - pos < |Line(mark, n)|
    ensures future != []
    ensures FindLine(buf, pos) == if |buf| - pos < |Line(mark, n)| - 1 && |buf| > INLINE_MAX_SIZE then TooBig else Missing
  {
    var k, l := pos + 1 + |Digits(n)|, Line(mark, n);
    var w, m := buf[pos..] + future, |buf| - pos;
    assert |w| >= |l|;
    assert w[..m] == buf[pos..] && w[..m] == l[..m];
    LineParts(l, mark, n);
    if |buf| <= k {
      assert l[..m] == l[..|l| - 2][..m];
      assert buf[pos..|buf|] == buf[pos..];
      Scan(buf, pos, |buf|);
    } else {
      assert buf[pos..][..m - 1] == buf[pos..k] && l[..m][..m - 1] == l[..|l| - 2];
      assert buf[pos..][m - 1] == buf[k] && l[..m][m - 1] == l[|l| - 2];
      Scan(buf, pos, k);
    }
  }

  /** In the middle of a command: `argv` holds its first arguments, and what is buffered from pos
      on and still to come is the rest of the command, then `tail`. */
  predicate Within(c: Conn, pos: nat, cmd: Command, tail: seq<byte>, future: seq<byte>) {
    && !c.closing && pos <= |c.buf| && Sendable(cmd) && c.bulklen >= -1
    && |c.argv| + c.multibulklen == |cmd| && c.argv == cmd[..|c.argv|]
    && (c.bulklen >= 0 ==> |c.argv| < |cmd| && c.bulklen == |cmd[|c.argv|]|)
    && c.buf[pos..] + future == Rest(cmd, |c.argv|, c.bulklen >= 0) + tail
  }

  /** What is left of a command from argument k on, with or without that argument's length line. */
  function Rest(cmd: Command, k: nat, lengthKnown: bool): seq<byte>
    requires k <= |cmd| && (lengthKnown ==> k < |cmd|)
  {
    if lengthKnown then cmd[k] + [CR, LF] + EncodeArgs(cmd[k + 1..]) else EncodeArgs(cmd[k..])
  }

  lemma RestLine(cmd: Command, k: nat, tail: seq<byte>)
    requires k < |cmd|
    ensures Rest(cmd, k, false) + tail == Line(DOLLAR, |cmd[k]|) + (Rest(cmd, k, true) + tail)
  {
    assert cmd[k..][1..] == cmd[k + 1..];
  }

  /** Whether a pass gives up, from lengths alone: `held` bytes already read are still buffered in
      front of `avail` unread ones. It does when the unread bytes end inside a length line and more
      than 64 KiB are buffered by then; a large argument's length line drops what was held. */
  predicate GivesUp(held: nat, avail: int, cmd: Command, k: nat, lengthKnown: bool)
    requires k <= |cmd|
    decreases |cmd| - k, !lengthKnown
  {
    k < |cmd| && avail >= 0 &&
    var n := |cmd[k]|;
    if lengthKnown then
      avail >= n + 2 &&
      (if held == 0 && n >= MBULK_BIG_ARG && avail == n + 2 then GivesUp(0, 0, cmd, k + 1, false)
       else GivesUp(held + n + 2, avail - n - 2, cmd, k + 1, false))
    else
      var l := |Line(DOLLAR, n)|;
      if avail < l then avail < l - 1 && held + avail > INLINE_MAX_SIZE
      else GivesUp(if n >= MBULK_BIG_ARG then 0 else held + l, avail - l, cmd, k, true)
  }

  /** No further progress is possible: the next length line, or the argument, is not all there. */
  predicate Stuck(c: Conn, pos: nat, cmd: Command)
    requires |c.argv| < |cmd|
  {
    if c.bulklen >= 0 then |c.buf| - pos < c.bulklen + 2 else |c.buf| - pos < |Line(DOLLAR, |cmd[|c.argv|]|)|
  }

  /** What reading a length line gives on a well-formed command. */
  predicate LengthRead(c: Conn, pos: nat, r: Step, cmd: Command, tail: seq<byte>, future: seq<byte>)
    requires Within(c, pos, cmd, tail, future) && c.multibulklen > 0
  {
    var givesUp := GivesUp(pos, |c.buf| - pos, cmd, |c.argv|, false);
    match r
    case Go(d, p) =>
      && d.bulklen >= 0 && d.multibulklen == c.multibulklen && |d.buf| <= |c.buf| && d.argv == c.argv
      && Within(d, p, cmd, tail, future) && givesUp == GivesUp(p, |d.buf| - p, cmd, |c.argv|, true)
    case Wait(d, p) => d == c && p == pos && future != [] && !givesUp && Stuck(c, pos, cmd)
    case Reject(d) => d.closing && future != [] && givesUp
  }

  lemma LengthThere(c: Conn, pos: nat, cmd: Command, tail: seq<byte>, future: seq<byte>)
    requires Within(c, pos, cmd, tail, future) && c.multibulklen > 0 && c.bulklen == -1
    requires |c.buf| - pos >= |Line(DOLLAR, |cmd[|c.argv|]|)|
    ensures var n := |cmd[|c.argv|]|; var next := pos + |Line(DOLLAR, n)|;
      && next <= |c.buf| && c.buf[next..] + future == Rest(cmd, |c.argv|, true) + tail
      && ReadLength(c, pos) == if n >= MBULK_BIG_ARG then Go(c.(buf := c.buf[next..], bulklen := n), 0)
                               else Go(c.(bulklen := n), next)
  {
    RestLine(cmd, |c.argv|, tail);
    LengthValue(c, pos, |cmd[|c.argv|]|, Rest(cmd, |c.argv|, true) + tail, future);
  }

  lemma LengthValue(c: Conn, pos: nat, n: nat, more: seq<byte>, future: seq<byte>)
    requires pos <= |c.buf| && c.bulklen == -1 && n <= MAX_BULK
    requires c.buf[pos..] + future == Line(DOLLAR, n) + more && |c.buf| - pos >= |Line(DOLLAR, n)|
    ensures var next := pos + |Line(DOLLAR, n)|;
      && c.buf[next..] + future == more
      && ReadLength(c, pos) == if n >= MBULK_BIG_ARG then Go(c.(buf := c.buf[next..], bulklen := n), 0)
                               else Go(c.(bulklen := n), next)
  {
    var k := LineNumber(c.buf, pos, DOLLAR, n, more, future);
    LengthAt(c, pos, k, n);
  }

  lemma LineNumber(buf: seq<byte>, pos: nat, mark: byte, n: nat, more: seq<byte>, future: seq<byte>) returns (k: nat)
    requires pos <= |buf| && buf[pos..] + future == Line(mark, n) + more && (mark == STAR || mark == DOLLAR)
    requires |buf| - pos >= |Line(mark, n)| && n <= MAX_BULK
    ensures pos < k && k + 2 == pos + |Line(mark, n)| <= |buf| && FindLine(buf, pos) == At(k)
    ensures buf[pos] == mark && Parsed(buf[pos + 1..k]) == Some(n) && buf[k + 2..] + future == more
  {
    hide FindLine, Parsed, Digits;
    k := pos + 1 + |Digits(n)|;
    LineThere(buf, pos, mark, n, more, future);
    ParsedText(n);
    assert Text(n) == Digits(n);
  }

  lemma LengthAt(c: Conn, pos: nat, k: nat, n: nat)
    requires pos < k <= |c.buf| - 2 && c.bulklen == -1 && n <= MAX_BULK
    requires FindLine(c.buf, pos) == At(k) && c.buf[pos] == DOLLAR && Parsed(c.buf[pos + 1..k]) == Some(n)
    ensures ReadLength(c, pos) == if n >= MBULK_BIG_ARG then Go(c.(buf := c.buf[k + 2..], bulklen := n), 0)
                                  else Go(c.(bulklen := n), k + 2)
  {}

  lemma LengthMissing(c: Conn, pos: nat, cmd: Command, tail: seq<byte>, future: seq<byte>)
    requires Within(c, pos, cmd, tail, future) && c.multibulklen > 0 && c.bulklen == -1
    requires |c.buf| - pos < |Line(DOLLAR, |cmd[|c.argv|]|)|
    ensures future != []
    ensures var l := |Line(DOLLAR, |cmd[|c.argv|]|)|;
      ReadLength(c, pos) == if |c.buf| - pos < l - 1 && |c.buf| > INLINE_MAX_SIZE then Rejected(c, 0) else Wait(c, pos)
  {
    var n, more := |cmd[|c.argv|]|, Rest(cmd, |c.argv|, true) + tail;
    RestLine(cmd, |c.argv|, tail);
    LineMissing(c.buf, pos, DOLLAR, n, more, future);
  }

  lemma LengthStep(c: Conn, pos: nat, cmd: Command, tail: seq<byte>, future: seq<byte>)
    requires Within(c, pos, cmd, tail, future) && c.multibulklen > 0 && c.bulklen == -1
    ensures LengthRead(c, pos, ReadLength(c, pos), cmd, tail, future)
  {
    hide ReadLength, Line, Rest, EncodeArgs, FindLine, Sendable;
    if |c.buf| - pos >= |Line(DOLLAR, |cmd[|c.argv|]|)| {
      LengthThere(c, pos, cmd, tail, future);
    } else {
      LengthMissing(c, pos, cmd, tail, future);
    }
  }

  lemma TakeArg(buf: seq<byte>, pos: nat, a: Arg, more: seq<byte>, future: seq<byte>)
    requires pos <= |buf| && buf[pos..] + future == a + [CR, LF] + more
    ensures |buf| - pos < |a| + 2 ==> future != []
    ensures |buf| - pos >= |a| + 2 ==> buf[pos..pos + |a|] == a && buf[pos + |a| + 2..] + future == more
  {
    var w, n := buf[pos..] + future, |a| + 2;
    if |buf| - pos >= n {
      assert w[..|a|] == a && w[..|a|] == buf[pos..pos + |a|];
      assert w[n..] == more && w[n..] == buf[pos + n..] + future;
    } else {
      assert |w| >= n;
    }
  }

  lemma ArgStep(c: Conn, pos: nat, cmd: Command, tail: seq<byte>, future: seq<byte>)
    requires Within(c, pos, cmd, tail, future) && c.multibulklen > 0 && c.bulklen >= 0
    ensures var r := ReadArg(c, pos);
      && (r.Go? ==> |r.conn.buf| <= |c.buf| && Within(r.conn, r.pos, cmd, tail, future) && r.conn.bulklen == -1)
      && (r.Go? ==> |r.conn.argv| == |c.argv| + 1)
      && (r.Go? ==> GivesUp(pos, |c.buf| - pos, cmd, |c.argv|, true) ==
                    GivesUp(r.pos, |r.conn.buf| - r.pos, cmd, |c.argv| + 1, false))
      && (r.Wait? ==> r == Wait(c, pos) && future != [] && Stuck(c, pos, cmd))
      && (r.Wait? ==> !GivesUp(pos, |c.buf| - pos, cmd, |c.argv|, true))
  {
    var k := |c.argv|;
    var more := Rest(cmd, k + 1, false) + tail;
    assert Rest(cmd, k, true) + tail == cmd[k] + [CR, LF] + more;
    TakeArg(c.buf, pos, cmd[k], more, future);
    assert cmd[..k + 1] == cmd[..k] + [cmd[k]];
    if pos == 0 && |c.buf| == c.bulklen + 2 {
      assert c.buf[pos + c.bulklen + 2..] == [];
      assert c.buf[..c.bulklen] == c.buf[pos..pos + c.bulklen];
    }
  }

  /** How the loop may end on a well-formed command: with the whole command, or waiting for bytes
      still to come, or giving up, the last exactly when expected. */
  predicate Outcome(r: Step, size: nat, cmd: Command, tail: seq<byte>, future: seq<byte>, givesUp: bool) {
    match r
    case Go(_, _) => false
    case Wait(c, pos) =>
      && !givesUp && |c.buf| <= size && Within(c, pos, cmd, tail, future)
      && (c.multibulklen > 0 ==> future != [] && Stuck(c, pos, cmd))
    case Reject(c) => givesUp && c.closing && future != []
  }

  lemma LengthFirst(c: Conn, pos: nat)
    requires pos <= |c.buf| && c.multibulklen > 0 && c.bulklen == -1
    ensures var s := ReadLength(c, pos); ReadArgs(c, pos) == if s.Go? then ReadArgs(s.conn, s.pos) else s
  {}

  lemma {:induction false} ArgsStep(c: Conn, pos: nat, cmd: Command, tail: seq<byte>, future: seq<byte>)
    requires Within(c, pos, cmd, tail, future)
    ensures Outcome(ReadArgs(c, pos), |c.buf|, cmd, tail, future, GivesUp(pos, |c.buf| - pos, cmd, |c.argv|, c.bulklen >= 0))
    decreases c.multibulklen, 2
  {
    if c.multibulklen == 0 {
      assert ReadArgs(c, pos) == Wait(c, pos);
    } else if c.bulklen >= 0 {
      KnownStep(c, pos, cmd, tail, future);
    } else {
      UnknownStep(c, pos, cmd, tail, future);
    }
  }

  lemma {:induction false} UnknownStep(c: Conn, pos: nat, cmd: Command, tail: seq<byte>, future: seq<byte>)
    requires Within(c, pos, cmd, tail, future) && c.multibulklen > 0 && c.bulklen == -1
    ensures Outcome(ReadArgs(c, pos), |c.buf|, cmd, tail, future, GivesUp(pos, |c.buf| - pos, cmd, |c.argv|, false))
    decreases c.multibulklen, 1
  {
    LengthFirst(c, pos);
    LengthStep(c, pos, cmd, tail, future);
    AfterLength(c, pos, ReadLength(c, pos), cmd, tail, future);
  }

  lemma {:induction false} AfterLength(c: Conn, pos: nat, s: Step, cmd: Command, tail: seq<byte>, future: seq<byte>)
    requires Within(c, pos, cmd, tail, future) && c.multibulklen > 0
    requires LengthRead(c, pos, s, cmd, tail, future)
    ensures s.Go? ==> s.pos <= |s.conn.buf| && s.conn.bulklen >= -1
    ensures Outcome(if s.Go? then ReadArgs(s.conn, s.pos) else s, |c.buf|, cmd, tail, future,
                    GivesUp(pos, |c.buf| - pos, cmd, |c.argv|, false))
    decreases c.multibulklen, 0, 1
  {
    hide ReadArgs, GivesUp, Rest, Sendable;
    if s.Go? { KnownStep(s.conn, s.pos, cmd, tail, future); }
  }

  lemma {:induction false} KnownStep(c: Conn, pos: nat, cmd: Command, tail: seq<byte>, future: seq<byte>)
    requires Within(c, pos, cmd, tail, future) && c.multibulklen > 0 && c.bulklen >= 0
    ensures Outcome(ReadArgs(c, pos), |c.buf|, cmd, tail, future, GivesUp(pos, |c.buf| - pos, cmd, |c.argv|, true))
    decreases c.multibulklen, 0, 0
  {
    hide ReadArg, GivesUp, Rest, Sendable;
    ArgStep(c, pos, cmd, tail, future);
    var t := ReadArg(c, pos);
    if t.Go? {
      ArgsStep(t.conn, t.pos, cmd, tail, future);
    }
  }
}
