/**
 The request parser of a connection (src/vr_client.c), read after read: however the bytes of a
 list of commands are cut into reads, the commands handed on are exactly those, in order.
 */
module Requests {

  import opened Basics
  import opened Bitwise
  import opened Chunks
  import opened Decimal
  import opened Protocol
  import opened Wire

  /** Between commands, or in the middle of the first of those still to come. */
  predicate Expects(c: Conn, cmds: seq<Command>, future: seq<byte>) {
    && AllSendable(cmds) && !c.closing
    && if c.multibulklen == 0 then c.bulklen == -1 && c.argv == [] && c.buf + future == EncodeAll(cmds)
       else cmds != [] && Within(c, 0, cmds[0], EncodeAll(cmds[1..]), future)
  }

  /** Whether a pass over the buffer gives up on a well-formed request. */
  predicate PassGivesUp(c: Conn, cmds: seq<Command>)
    requires cmds != [] && |c.argv| <= |cmds[0]|
  {
    if c.multibulklen == 0 then
      var l := |Line(STAR, |cmds[0]|)|;
      |c.buf| >= l && GivesUp(l, |c.buf| - l, cmds[0], 0, false)
    else GivesUp(0, |c.buf|, cmds[0], |c.argv|, c.bulklen >= 0)
  }

  lemma FewDigits(n: nat)
    requires n <= MAX_ARGS
    ensures |Line(STAR, n)| < 16
  {
    DigitsLength(n);
  }

  lemma CountThere(c: Conn, n: nat, more: seq<byte>, future: seq<byte>)
    requires c.multibulklen == 0 && 1 <= n <= MAX_ARGS
    requires c.buf + future == Line(STAR, n) + more && |c.buf| >= |Line(STAR, n)|
    ensures var l := |Line(STAR, n)|;
      c.buf[l..] + future == more && ReadCount(c) == Go(c.(multibulklen := n), l)
  {
    assert c.buf[0..] == c.buf;
    var k := LineNumber(c.buf, 0, STAR, n, more, future);
    CountAt(c, k, n);
  }

  lemma CountAt(c: Conn, k: nat, n: nat)
    requires 0 < k <= |c.buf| - 2 && c.multibulklen == 0 && 1 <= n <= MAX_ARGS
    requires FindLine(c.buf, 0) == At(k) && Parsed(c.buf[1..k]) == Some(n)
    ensures ReadCount(c) == Go(c.(multibulklen := n), k + 2)
  {}

  lemma CountMissing(c: Conn, n: nat, more: seq<byte>, future: seq<byte>)
    requires c.multibulklen == 0 && 1 <= n <= MAX_ARGS
    requires c.buf + future == Line(STAR, n) + more && |c.buf| < |Line(STAR, n)|
    ensures future != [] && ReadCount(c) == Wait(c, 0)
  {
    assert c.buf[0..] == c.buf;
    FewDigits(n);
    LineMissing(c.buf, 0, STAR, n, more, future);
  }

  lemma FirstCommand(cmds: seq<Command>)
    requires cmds != []
    ensures EncodeAll(cmds) == Line(STAR, |cmds[0]|) + (EncodeArgs(cmds[0]) + EncodeAll(cmds[1..]))
  {}

  /** Nothing more could be read from the buffer: it holds less than one line or one argument. */
  predicate Short(c: Conn) {
    |c.buf| < if c.bulklen >= 0 then c.bulklen + 2 else 16
  }

  lemma StuckIsShort(c: Conn, pos: nat, cmd: Command)
    requires pos <= |c.buf| && |c.argv| < |cmd| && Sendable(cmd) && Stuck(c, pos, cmd)
    ensures Short(c.(buf := c.buf[pos..]))
  {
    DigitsLength(|cmd[|c.argv|]|);
  }

  /** What one pass over a non-empty buffer does on a well-formed stream. */
  predicate Passed(c: Conn, c': Conn, ok: bool, cmds: seq<Command>, future: seq<byte>)
    requires cmds != [] && |c.argv| <= |cmds[0]|
  {
    if ok then
      && !PassGivesUp(c, cmds) && !c'.closing && c'.multibulklen == 0 && c'.bulklen == -1
      && c'.argv == cmds[0] && c'.buf + future == EncodeAll(cmds[1..])
    else if c'.closing then PassGivesUp(c, cmds) && future != []
    else !PassGivesUp(c, cmds) && Expects(c', cmds, future) && future != [] && Short(c')
  }

  /** The end of a pass: what has been read is dropped from the buffer. */
  lemma Trimmed(c: Conn, pos: nat, cmd: Command, tail: seq<byte>, future: seq<byte>)
    requires Within(c, pos, cmd, tail, future)
    ensures Within(c.(buf := c.buf[pos..]), 0, cmd, tail, future)
  {
    assert c.buf[pos..][0..] == c.buf[pos..];
  }

  lemma WholeCommand(c: Conn, cmd: Command, tail: seq<byte>, future: seq<byte>)
    requires Within(c, 0, cmd, tail, future) && c.multibulklen == 0
    ensures c.bulklen == -1 && c.argv == cmd && c.buf + future == tail
  {
    assert cmd[..|cmd|] == cmd && cmd[|cmd|..] == [];
    assert c.buf[0..] == c.buf;
  }

  lemma RestOfPass(c: Conn, d: Conn, pos: nat, cmds: seq<Command>, future: seq<byte>)
    requires AllSendable(cmds) && cmds != [] && |c.argv| <= |cmds[0]|
    requires Within(d, pos, cmds[0], EncodeAll(cmds[1..]), future)
    requires PassGivesUp(c, cmds) == GivesUp(pos, |d.buf| - pos, cmds[0], |d.argv|, d.bulklen >= 0)
    ensures var t := ReadArgs(d, pos);
      if t.Reject? then Passed(c, t.conn, false, cmds, future)
      else t.pos <= |t.conn.buf| && Passed(c, t.conn.(buf := t.conn.buf[t.pos..]), t.conn.multibulklen == 0, cmds, future)
  {
    ArgsStep(d, pos, cmds[0], EncodeAll(cmds[1..]), future);
    var t := ReadArgs(d, pos);
    if t.Wait? {
      Trimmed(t.conn, t.pos, cmds[0], EncodeAll(cmds[1..]), future);
      if t.conn.multibulklen == 0 {
        WholeCommand(t.conn.(buf := t.conn.buf[t.pos..]), cmds[0], EncodeAll(cmds[1..]), future);
      } else {
        StuckIsShort(t.conn, t.pos, cmds[0]);
      }
    }
  }

  lemma Begun(c: Conn, cmds: seq<Command>, future: seq<byte>)
    requires Expects(c, cmds, future) && c.multibulklen == 0 && cmds != []
    requires |c.buf| >= |Line(STAR, |cmds[0]|)|
    ensures var l := |Line(STAR, |cmds[0]|)|; var d := c.(multibulklen := |cmds[0]|);
      ReadCount(c) == Go(d, l) && Within(d, l, cmds[0], EncodeAll(cmds[1..]), future)
  {
    FirstCommand(cmds);
    CountThere(c, |cmds[0]|, EncodeArgs(cmds[0]) + EncodeAll(cmds[1..]), future);
    assert cmds[0][0..] == cmds[0] && cmds[0][..0] == [];
  }

  /** One pass of the parser on a well-formed stream. */
  lemma Pass(c: Conn, cmds: seq<Command>, future: seq<byte>)
    requires Expects(c, cmds, future) && c.buf != []
    ensures cmds != [] && |c.argv| <= |cmds[0]| && c.bulklen >= -1
    ensures Passed(c, Parse(c).0, Parse(c).1, cmds, future)
  {
    if c.multibulklen == 0 {
      assert |c.buf + future| == |c.buf| + |future|;
      FirstCommand(cmds);
      var l := |Line(STAR, |cmds[0]|)|;
      if |c.buf| >= l {
        Begun(c, cmds, future);
        RestOfPass(c, c.(multibulklen := |cmds[0]|), l, cmds, future);
      } else {
        CountMissing(c, |cmds[0]|, EncodeArgs(cmds[0]) + EncodeAll(cmds[1..]), future);
        FewDigits(|cmds[0]|);
      }
    } else {
      RestOfPass(c, c, 0, cmds, future);
    }
  }

  // ------------------------------------------------------------- passes over a buffer

  /** The connection after a request has been handed on. */
  function Idle(c: Conn): Conn {
    c.(multibulklen := 0, bulklen := -1, argv := [])
  }

  /** What becomes of a buffer: the connection it leaves, how many commands were whole, and whether
      some pass gave up. */
  datatype Settled = Settled(conn: Conn, k: nat, givesUp: bool)

  /** Pass after pass over the buffer of a well-formed stream. */
  ghost function Settle(c: Conn, cmds: seq<Command>): (r: Settled)
    requires c.bulklen >= -1
    ensures r.k <= |cmds| && r.conn.bulklen >= -1
    decreases |cmds|
  {
    if c.buf == [] || cmds == [] || |c.argv| > |cmds[0]| then Settled(c, 0, false)
    else if PassGivesUp(c, cmds) then Settled(c, 0, true)
    else if Parse(c).1 then
      var r := Settle(Idle(Parse(c).0), cmds[1..]);
      Settled(r.conn, r.k + 1, r.givesUp)
    else
      ParseShrinks(c);
      Settled(Parse(c).0, 0, false)
  }

  /** After k commands, t is still where the whole buffer leads to. */
  ghost predicate Settles(t: Settled, c: Conn, ok: bool, k: nat, cmds: seq<Command>) {
    && k <= |cmds| && c.bulklen >= -1
    && if ok then var r := Settle(c, cmds[k..]); !c.closing && t == Settled(r.conn, k + r.k, r.givesUp)
       else t.givesUp == c.closing && (!c.closing ==> t == Settled(c, k, false))
  }

  lemma SettlesOn(t: Settled, c: Conn, c': Conn, ok: bool, k: nat, cmds: seq<Command>, future: seq<byte>)
    requires Settles(t, c, true, k, cmds) && c.buf != [] && Expects(c, cmds[k..], future)
    requires ok == Parse(c).1 && c' == if ok then Idle(Parse(c).0) else Parse(c).0
    ensures Settles(t, c', ok, if ok then k + 1 else k, cmds)
  {
    Pass(c, cmds[k..], future);
    ParseShrinks(c);
    hide Parse, Expects, PassGivesUp;
    assert cmds[k..][1..] == cmds[k + 1..];
  }

  /** Whether some pass gives up while the parts arrive one after another. */
  ghost predicate RunGivesUp(c: Conn, parts: seq<seq<byte>>, cmds: seq<Command>)
    requires c.bulklen >= -1
    decreases |parts|
  {
    parts != [] &&
    var r := Settle(c.(buf := c.buf + parts[0]), cmds);
    r.givesUp || RunGivesUp(r.conn, parts[1..], cmds[r.k..])
  }

  // ------------------------------------------------------------------ sizes of reads

  const IOBUF_LEN: nat := 1024 * 16

  /** How many bytes the next read asks for: not past the end of a large argument. */
  function ReadLen(c: Conn): int {
    if c.multibulklen > 0 && c.bulklen >= MBULK_BIG_ARG && c.bulklen + 2 - |c.buf| < IOBUF_LEN then c.bulklen + 2 - |c.buf|
    else IOBUF_LEN
  }

  lemma {:induction false} FitsNeverGivesUp(held: nat, avail: int, cmd: Command, k: nat, lengthKnown: bool)
    requires k <= |cmd| && held + avail <= INLINE_MAX_SIZE
    ensures !GivesUp(held, avail, cmd, k, lengthKnown)
    decreases |cmd| - k, !lengthKnown
  {
    if k < |cmd| && avail >= 0 {
      var n := |cmd[k]|;
      if lengthKnown {
        if avail >= n + 2 {
          FitsNeverGivesUp(0, 0, cmd, k + 1, false);
          FitsNeverGivesUp(held + n + 2, avail - n - 2, cmd, k + 1, false);
        }
      } else {
        var l := |Line(DOLLAR, n)|;
        if avail >= l { FitsNeverGivesUp(if n >= MBULK_BIG_ARG then 0 else held + l, avail - l, cmd, k, true); }
      }
    }
  }

  /** A buffer that a read of at most the size asked for has left. */
  predicate Filled(c: Conn) {
    |c.buf| <= INLINE_MAX_SIZE || (c.multibulklen > 0 && c.bulklen >= MBULK_BIG_ARG && |c.buf| <= c.bulklen + 2)
  }

  /** Reads of the size asked for never make the parser give up. */
  lemma ReadsNeverGiveUp(c: Conn, cmds: seq<Command>, future: seq<byte>)
    requires Expects(c, cmds, future) && cmds != [] && |c.argv| <= |cmds[0]| && Filled(c)
    ensures !PassGivesUp(c, cmds)
  {
    if |c.buf| <= INLINE_MAX_SIZE {
      var l := |Line(STAR, |cmds[0]|)|;
      if c.multibulklen == 0 {
        if |c.buf| >= l { FitsNeverGivesUp(l, |c.buf| - l, cmds[0], 0, false); }
      } else {
        FitsNeverGivesUp(0, |c.buf|, cmds[0], |c.argv|, c.bulklen >= 0);
      }
    } else {
      FitsNeverGivesUp(0, 0, cmds[0], |c.argv| + 1, false);
    }
  }

  lemma ReadFills(c: Conn, chunk: seq<byte>, cmds: seq<Command>, future: seq<byte>)
    requires Expects(c, cmds, future) && Short(c) && |chunk| <= ReadLen(c)
    ensures Filled(c.(buf := c.buf + chunk))
  {}

  /** The buffer starts with a request, and an exhausted stream means no command is left. */
  lemma LoopEnds(c: Conn, cmds: seq<Command>, future: seq<byte>)
    requires Expects(c, cmds, future)
    ensures c.multibulklen == 0 && c.buf != [] ==> c.buf[0] == STAR
    ensures c.buf == [] && future == [] ==> cmds == []
  {
    if c.multibulklen == 0 {
      if cmds != [] {
        FirstCommand(cmds);
        assert c.buf != [] ==> (c.buf + future)[0] == c.buf[0];
      }
    } else if c.buf == [] && future == [] {
      var k, cmd := |c.argv|, cmds[0];
      RestLine(cmd, k, EncodeAll(cmds[1..]));
    }
  }

  /** What handling one request does on a well-formed stream. */
  predicate Handed(c: Conn, c': Conn, ok: bool, done: seq<Command>, done': seq<Command>,
                   cmds: seq<Command>, future: seq<byte>)
  {
    && cmds != [] && |c.argv| <= |cmds[0]|
    && (if ok then !PassGivesUp(c, cmds) && done' == done + [cmds[0]] && Expects(c', cmds[1..], future)
        else
          && done' == done && future != [] && c'.closing == PassGivesUp(c, cmds)
          && (!c'.closing ==> Expects(c', cmds, future) && Short(c')))
  }

  /** The state of the loop: k commands have been handed on. */
  predicate Running(c: Conn, ok: bool, k: nat, before: seq<Command>, done: seq<Command>,
                    cmds: seq<Command>, future: seq<byte>, filled: bool)
  {
    && k <= |cmds| && done == before + cmds[..k]
    && (!c.closing ==> Expects(c, cmds[k..], future))
    && (c.closing ==> !ok && !filled)
    && (ok && filled ==> Filled(c))
    && (!ok ==> future != [] && (!c.closing ==> Short(c)))
  }

  lemma RunsOn(c: Conn, c': Conn, ok: bool, k: nat, before: seq<Command>, done: seq<Command>, done': seq<Command>,
               cmds: seq<Command>, future: seq<byte>, filled: bool)
    requires Running(c, true, k, before, done, cmds, future, filled) && !c.closing
    requires ok ==> |c'.buf| < |c.buf| && c'.multibulklen == 0
    requires Handed(c, c', ok, done, done', cmds[k..], future)
    ensures ok ==> k < |cmds|
    ensures Running(c', ok, if ok then k + 1 else k, before, done', cmds, future, filled)
  {
    if filled { ReadsNeverGiveUp(c, cmds[k..], future); }
    assert cmds[k..][1..] == cmds[k + 1..];
    assert cmds[..k + 1] == cmds[..k] + [cmds[k]];
  }

  /** A pass that yields a request takes bytes out of the buffer. */
  lemma ParseShrinks(c: Conn)
    requires c.bulklen >= -1 && c.buf != []
    ensures Parse(c).0.bulklen >= -1 && (Parse(c).1 ==> |Parse(c).0.buf| < |c.buf|)
  {
    var s := ReadCount(c);
    if s.Go? { ArgsShrink(s.conn, s.pos); }
  }

  lemma {:induction false} ArgsShrink(c: Conn, pos: nat)
    requires pos <= |c.buf| && c.bulklen >= -1
    ensures ReadArgs(c, pos).conn.bulklen >= -1
    ensures var t := ReadArgs(c, pos);
      t.Wait? ==>
        && |t.conn.buf| - t.pos <= |c.buf| - pos
        && (c.multibulklen > 0 && t.conn.multibulklen == 0 ==> |t.conn.buf| - t.pos < |c.buf| - pos)
    decreases c.multibulklen
  {
    if c.multibulklen > 0 {
      var s := ReadLength(c, pos);
      if s.Go? {
        var t := ReadArg(s.conn, s.pos);
        if t.Go? { ArgsShrink(t.conn, t.pos); }
      }
    }
  }

  // ------------------------------------------------------------------------ the code

  datatype Verdict = Goes | Waits | Rejects

  function Reached(v: Verdict, c: Conn, pos: nat): Step {
    match v
    case Goes => Go(c, pos)
    case Waits => Wait(c, pos)
    case Rejects => Reject(c)
  }

  class Client {
    var querybuf: seq<byte>
    var multibulklen: nat
    var bulklen: int
    var argv: seq<Arg>
    var closing: bool
    /** The commands handed on so far. */
    var executed: seq<Command>

    constructor ()
      ensures Now() == Conn([], 0, -1, [], false) && executed == []
    {
      querybuf, multibulklen, bulklen, argv, closing, executed := [], 0, -1, [], false, [];
    }

    function Now(): Conn
      reads this
    {
      Conn(querybuf, multibulklen, bulklen, argv, closing)
    }

    method ProtocolError(pos: nat)
      requires pos <= |querybuf|
      modifies this`closing, this`querybuf
      ensures Now() == Rejected(old(Now()), pos).conn
    {
      closing := true;
      querybuf := querybuf[pos..];
    }

    /** The line with the number of arguments. */
    method CountLine() returns (v: Verdict, pos: nat)
      requires multibulklen == 0 && querybuf != [] && querybuf[0] == STAR
      modifies this`querybuf, this`multibulklen, this`closing
      ensures ReadCount(old(Now())) == Reached(v, Now(), pos)
      ensures old(AtRequest(Now())) ==>
                (v.Rejects? <==>
                   BadCount(old(querybuf)) || (Endless(old(querybuf)) && |old(querybuf)| > 64 * 1024))
    {
      hide BadCount, Endless;
      if AtRequest(Now()) { CountRefused(Now()); }
      pos := 0;
      var line := FindLine(querybuf, 0);
      if line.TooBig? {
        ProtocolError(0);
        return Rejects, 0;
      }
      if line.Missing? { return Waits, 0; }
      var ll := String2ll(querybuf[1..line.newline]);
      if ll.None? || ll.value > MAX_ARGS {
        ProtocolError(0);
        return Rejects, 0;
      }
      pos := line.newline + 2;
      multibulklen := if ll.value <= 0 then 0 else ll.value;
      v := Goes;
    }

    /** The length line of the next argument. */
    method LengthLine(at: nat) returns (v: Verdict, pos: nat)
      requires at <= |querybuf| && bulklen == -1
      modifies this`querybuf, this`bulklen, this`closing
      ensures ReadLength(old(Now()), at) == Reached(v, Now(), pos)
      ensures v.Rejects? <==> BadNext(at, old(querybuf)[at..])
    {
      hide BadNext;
      LengthRefused(Now(), at);
      pos := at;
      var line := FindLine(querybuf, pos);
      if line.TooBig? {
        ProtocolError(0);
        return Rejects, 0;
      }
      if line.Missing? { return Waits, pos; }
      if querybuf[pos] != DOLLAR {
        ProtocolError(pos);
        return Rejects, 0;
      }
      var ll := String2ll(querybuf[pos + 1..line.newline]);
      if ll.None? || ll.value < 0 || ll.value > MAX_BULK {
        ProtocolError(pos);
        return Rejects, 0;
      }
      pos := line.newline + 2;
      if ll.value >= MBULK_BIG_ARG {
        querybuf := querybuf[pos..];
        pos := 0;
      }
      bulklen := ll.value;
      v := Goes;
    }

    /** An argument whose length is known. */
    method TakeArgument(at: nat) returns (v: Verdict, pos: nat)
      requires at <= |querybuf| && bulklen >= 0 && multibulklen > 0
      modifies this`querybuf, this`bulklen, this`multibulklen, this`argv
      ensures ReadArg(old(Now()), at) == Reached(v, Now(), pos)
    {
      pos := at;
      if |querybuf| - pos < bulklen + 2 { return Waits, pos; }
      if pos == 0 && bulklen >= MBULK_BIG_ARG && |querybuf| == bulklen + 2 {
        argv := argv + [querybuf[..bulklen]];
        querybuf := [];
        pos := 0;
      } else {
        argv := argv + [querybuf[pos..pos + bulklen]];
        pos := pos + bulklen + 2;
      }
      bulklen := -1;
      multibulklen := multibulklen - 1;
      v := Goes;
    }

    /** One round of the loop over the arguments. */
    method NextArgument(at: nat) returns (v: Verdict, pos: nat)
      requires at <= |querybuf| && bulklen >= -1 && multibulklen > 0
      modifies this`querybuf, this`bulklen, this`multibulklen, this`argv, this`closing
      ensures v.Goes? ==> pos <= |querybuf| && bulklen == -1 && multibulklen < old(multibulklen)
      ensures v.Goes? ==> ReadArgs(old(Now()), at) == ReadArgs(Now(), pos)
      ensures v.Waits? ==> multibulklen > 0 && ReadArgs(old(Now()), at) == Wait(Now(), pos)
      ensures v.Rejects? ==> ReadArgs(old(Now()), at) == Reject(Now())
    {
      pos, v := at, Goes;
      if bulklen == -1 {
        v, pos := LengthLine(pos);
      }
      if v.Goes? {
        v, pos := TakeArgument(pos);
      }
    }

    /** The loop over the arguments. */
    method ReadArguments(at: nat) returns (v: Verdict, pos: nat)
      requires at <= |querybuf| && bulklen >= -1
      modifies this`querybuf, this`bulklen, this`multibulklen, this`argv, this`closing
      ensures ReadArgs(old(Now()), at) == if v.Rejects? then Reject(Now()) else Wait(Now(), pos)
    {
      v, pos := Goes, at;
      while multibulklen > 0 && v.Goes?
        invariant v.Goes? ==> pos <= |querybuf| && bulklen >= -1 && ReadArgs(old(Now()), at) == ReadArgs(Now(), pos)
        invariant v.Waits? ==> ReadArgs(old(Now()), at) == Wait(Now(), pos)
        invariant v.Rejects? ==> ReadArgs(old(Now()), at) == Reject(Now())
        decreases if v.Goes? then multibulklen + 1 else 0
      {
        v, pos := NextArgument(pos);
      }
    }

    /** One pass over what is buffered; true when a whole request is there. At the start of a request
        that is so exactly when the first bytes are a request, whichever bytes are buffered; those
        bytes are used up, and no others. The connection is closed exactly when the bytes are refused. */
    method ProcessMultibulkBuffer() returns (ok: bool)
      requires bulklen >= -1
      requires multibulklen == 0 ==> querybuf != [] && querybuf[0] == STAR
      modifies this`querybuf, this`bulklen, this`multibulklen, this`argv, this`closing
      ensures (Now(), ok) == Parse(old(Now()))
      ensures old(AtRequest(Now())) ==> forall used, args :: used <= old(querybuf) && Request(used, args) ==>
                ok && argv == args && querybuf == old(querybuf)[|used|..]
      ensures old(AtRequest(Now())) && ok ==> exists used :: Request(used, argv) && old(querybuf) == used + querybuf
      ensures old(AtRequest(Now())) && !old(closing) ==> (closing <==> Refused(old(querybuf)))
    {
      hide ReadArgs, FindLine, Parsed, Refused, Request;
      ghost var c := Now();
      if AtRequest(c) { PassExactly(c); }
      var v, pos: nat := Goes, 0;
      if multibulklen == 0 {
        v, pos := CountLine();
        if !v.Goes? { return false; }
      }
      v, pos := ReadArguments(pos);
      if v.Rejects? { return false; }
      querybuf := querybuf[pos..];
      return multibulklen == 0;
    }

    /** One request: a pass over the buffer and, if it is whole, handing it on. */
    method NextRequest(ghost cmds: seq<Command>, ghost future: seq<byte>) returns (ok: bool)
      requires bulklen >= -1 && querybuf != []
      requires multibulklen == 0 ==> querybuf[0] == STAR
      modifies this
      ensures bulklen >= -1 && (ok ==> multibulklen == 0 && argv == [] && bulklen == -1 && |querybuf| < |old(querybuf)|)
      ensures old(Expects(Now(), cmds, future)) ==> Handed(old(Now()), Now(), ok, old(executed), executed, cmds, future)
      ensures ok == Parse(old(Now())).1 && Now() == if ok then Idle(Parse(old(Now())).0) else Parse(old(Now())).0
    {
      if Expects(Now(), cmds, future) { Pass(Now(), cmds, future); }
      ParseShrinks(Now());
      ok := ProcessMultibulkBuffer();
      if ok {
        if argv != [] { executed := executed + [argv]; }
        argv, multibulklen, bulklen := [], 0, -1;
      }
    }

    /** Hands whole requests on, one after another, while there are any. Inline requests, which do
        not start with the mark of an array, end the loop here. */
    method ProcessInputBuffer(ghost cmds: seq<Command>, ghost future: seq<byte>) returns (ghost k: nat)
      requires bulklen >= -1 && (multibulklen == 0 ==> argv == [] && bulklen == -1)
      modifies this
      ensures k <= |cmds|
      ensures old(Expects(Now(), cmds, future)) ==> executed == old(executed) + cmds[..k]
      ensures old(Expects(Now(), cmds, future)) && !closing ==>
                Expects(Now(), cmds[k..], future) && (querybuf == [] || Short(Now()))
      ensures old(Expects(Now(), cmds, future)) && (future == [] || old(Filled(Now()))) ==> !closing
      ensures old(Expects(Now(), cmds, future)) && future == [] ==> k == |cmds| && querybuf == []
      ensures old(Expects(Now(), cmds, future)) ==>
                && closing == Settle(old(Now()), cmds).givesUp
                && (!closing ==> Settle(old(Now()), cmds) == Settled(Now(), k, false))
    {
      k := 0;
      ghost var expected, filled := Expects(Now(), cmds, future), Filled(Now());
      ghost var t := Settle(Now(), cmds);
      var ok := true;
      assert cmds[0..] == cmds;
      while querybuf != [] && !closing && ok && (multibulklen != 0 || querybuf[0] == STAR)
        invariant k <= |cmds| && bulklen >= -1
        invariant expected ==> Running(Now(), ok, k, old(executed), executed, cmds, future, filled)
        invariant ok ==> multibulklen == 0 ==> argv == [] && bulklen == -1
        invariant expected ==> Settles(t, Now(), ok, k, cmds)
        decreases if ok then |querybuf| + 1 else 0
      {
        ghost var c, done := Now(), executed;
        ok := NextRequest(cmds[k..], future);
        if expected {
          RunsOn(c, Now(), ok, k, old(executed), done, executed, cmds, future, filled);
          SettlesOn(t, c, Now(), ok, k, cmds, future);
        }
        if ok && expected { k := k + 1; }
      }
      if expected && !closing { LoopEnds(Now(), cmds[k..], future); }
    }
  }

  // ------------------------------------------------------------------------ whole runs

  /** Buffering the first bytes of what is to come changes nothing that is expected. */
  lemma Buffered(c: Conn, chunk: seq<byte>, cmds: seq<Command>, future: seq<byte>)
    requires Expects(c, cmds, chunk + future)
    ensures Expects(c.(buf := c.buf + chunk), cmds, future)
  {
    assert c.buf + (chunk + future) == c.buf + chunk + future;
    assert c.buf[0..] == c.buf && (c.buf + chunk)[0..] == c.buf + chunk;
  }

  lemma NothingSent(cmds: seq<Command>)
    requires EncodeAll(cmds) == []
    ensures cmds == []
  {
    if cmds != [] { FirstCommand(cmds); }
  }

  lemma FreshConnection(cmds: seq<Command>, stream: seq<byte>)
    requires AllSendable(cmds) && stream == EncodeAll(cmds)
    ensures Expects(Conn([], 0, -1, [], false), cmds, stream)
  {
    assert [] + stream == stream;
  }

  lemma MoreCommands(cmds: seq<Command>, k: nat, j: nat)
    requires k <= |cmds| && j <= |cmds[k..]|
    ensures cmds[..k] + cmds[k..][..j] == cmds[..k + j] && cmds[k..][j..] == cmds[k + j..]
  {}

  /** A connection reads bytes and handles what has become whole. */
  method Receive(client: Client, chunk: seq<byte>, ghost cmds: seq<Command>, ghost future: seq<byte>) returns (ghost k: nat)
    requires Expects(client.Now(), cmds, chunk + future)
    modifies client
    ensures k <= |cmds| && client.executed == old(client.executed) + cmds[..k]
    ensures !client.closing ==> Expects(client.Now(), cmds[k..], future) && (client.querybuf == [] || Short(client.Now()))
    ensures future == [] ==> !client.closing && k == |cmds| && client.querybuf == []
    ensures Filled(old(client.Now()).(buf := old(client.querybuf) + chunk)) ==> !client.closing
    ensures old(client.bulklen) >= -1
    ensures var r := Settle(old(client.Now()).(buf := old(client.querybuf) + chunk), cmds);
      client.closing == r.givesUp && (!client.closing ==> r == Settled(client.Now(), k, false))
  {
    Buffered(client.Now(), chunk, cmds, future);
    client.querybuf := client.querybuf + chunk;
    k := client.ProcessInputBuffer(cmds, future);
  }

  /** The bytes of some commands, cut into reads of any sizes. The connection is closed on the way
      if and only if some pass gives up; otherwise exactly these commands have been handed on, in
      order. One read is enough. */
  method ReceiveAll(client: Client, parts: seq<seq<byte>>, ghost cmds: seq<Command>)
    requires client.Now() == Conn([], 0, -1, [], false) && AllSendable(cmds) && Flat(parts) == EncodeAll(cmds)
    modifies client
    ensures client.closing <==> RunGivesUp(old(client.Now()), parts, cmds)
    ensures !client.closing ==> client.executed == old(client.executed) + cmds && client.querybuf == []
    ensures client.executed <= old(client.executed) + cmds
    ensures |parts| <= 1 ==> !client.closing
  {
    hide Expects, EncodeAll, AllSendable, Settle;
    FreshConnection(cmds, Flat(parts));
    ghost var k: nat := 0;
    var i := 0;
    assert parts[0..] == parts && cmds[0..] == cmds;
    assert parts == [] ==> Flat(parts) == [];
    if parts == [] { NothingSent(cmds); }
    while i < |parts| && !client.closing
      invariant i <= |parts| && k <= |cmds| && client.executed == old(client.executed) + cmds[..k]
      invariant !client.closing ==> Expects(client.Now(), cmds[k..], Flat(parts[i..]))
      invariant client.bulklen >= -1 || client.closing
      invariant !client.closing ==>
        RunGivesUp(old(client.Now()), parts, cmds) == RunGivesUp(client.Now(), parts[i..], cmds[k..])
      invariant client.closing ==> RunGivesUp(old(client.Now()), parts, cmds)
      invariant !client.closing && i == |parts| ==> k == |cmds| && client.querybuf == []
      invariant |parts| <= 1 ==> !client.closing
    {
      assert parts[i..][1..] == parts[i + 1..];
      ghost var j := Receive(client, parts[i], cmds[k..], Flat(parts[i + 1..]));
      MoreCommands(cmds, k, j);
      i, k := i + 1, k + j;
    }
    assert cmds[..|cmds|] == cmds;
  }

  /** Two arguments of which the first is longer than 64 KiB, cut inside the second length line. */
  lemma CutGivesUp(cmd: Command, cut: nat)
    requires |cmd| == 2 && |cmd[0]| > INLINE_MAX_SIZE
    requires cut == |Line(STAR, |cmd|)| + |Line(DOLLAR, |cmd[0]|)| + |cmd[0]| + 3
    ensures cut < |Encode(cmd)|
    ensures RunGivesUp(Conn([], 0, -1, [], false), [Encode(cmd)[..cut], Encode(cmd)[cut..]], [cmd])
  {
    assert |EncodeArgs(cmd[1..])| >= |Line(DOLLAR, |cmd[1]|)|;
    var c := Conn(Encode(cmd)[..cut], 0, -1, [], false);
    assert [] + Encode(cmd)[..cut] == c.buf;
    LineGivesUp(cmd, |Line(STAR, |cmd|)|, cut - |Line(STAR, |cmd|)|);
    assert PassGivesUp(c, [cmd]);
  }

  lemma LineGivesUp(cmd: Command, held: nat, avail: nat)
    requires |cmd| == 2 && |cmd[0]| > INLINE_MAX_SIZE && avail == |Line(DOLLAR, |cmd[0]|)| + |cmd[0]| + 3
    ensures GivesUp(held, avail, cmd, 0, false)
  {
    var n := |cmd[0]|;
    assert |Line(DOLLAR, |cmd[1]|)| >= 4;
    assert GivesUp(n + 2, 1, cmd, 1, false);
    assert GivesUp(0, n + 3, cmd, 0, true);
  }

  /** One read of some of the bytes that have arrived, as many as were asked for at most. */
  method ReceiveSome(client: Client, rest: seq<byte>, ghost cmds: seq<Command>) returns (n: nat, ghost j: nat)
    requires rest != [] && Expects(client.Now(), cmds, rest) && Short(client.Now())
    modifies client
    ensures 0 < n <= |rest| && j <= |cmds| && client.executed == old(client.executed) + cmds[..j]
    ensures !client.closing && Expects(client.Now(), cmds[j..], rest[n..]) && Short(client.Now())
    ensures n == |rest| ==> j == |cmds| && client.querybuf == []
  {
    hide Expects;
    n :| 1 <= n <= ReadLen(client.Now()) && n <= |rest|;
    assert rest == rest[..n] + rest[n..];
    ReadFills(client.Now(), rest[..n], cmds, rest);
    j := Receive(client, rest[..n], cmds, rest[n..]);
    assert n == |rest| ==> rest[n..] == [];
  }

  /** The same with reads as the server makes them. The connection is never closed. */
  method ReceiveFromSocket(client: Client, stream: seq<byte>, ghost cmds: seq<Command>)
    requires client.Now() == Conn([], 0, -1, [], false) && AllSendable(cmds) && stream == EncodeAll(cmds)
    modifies client
    ensures !client.closing && client.executed == old(client.executed) + cmds && client.querybuf == []
  {
    hide Expects, EncodeAll, AllSendable;
    FreshConnection(cmds, stream);
    ghost var k: nat := 0;
    var at := 0;
    assert stream[0..] == stream && cmds[0..] == cmds;
    if stream == [] { NothingSent(cmds); }
    while at < |stream|
      invariant at <= |stream| && k <= |cmds| && client.executed == old(client.executed) + cmds[..k] && !client.closing
      invariant Expects(client.Now(), cmds[k..], stream[at..]) && Short(client.Now())
      invariant at == |stream| ==> k == |cmds| && client.querybuf == []
    {
      var n, j := ReceiveSome(client, stream[at..], cmds[k..]);
      MoreCommands(cmds, k, j);
      assert stream[at..][n..] == stream[at + n..];
      at, k := at + n, k + j;
    }
    assert cmds[..|cmds|] == cmds;
  }
}
