/**
 The replication backlog (src/vr_replication.c): a circular buffer that always holds the tail of
 the stream of commands sent to replicas, and the encoder that feeds it.
 */
module Backlogs {

  import opened Basics
  import opened Words
  import opened Bitwise
  import opened Decimal
  import opened Protocol
  import Requests

  /** The last h bytes of the stream sit at their circular positions in the buffer. */
  predicate Holds(buf: seq<byte>, stream: seq<byte>, h: nat)
    requires |buf| > 0 && h <= |stream|
  {
    forall i :: |stream| - h <= i < |stream| ==> buf[i % |buf|] == stream[i]
  }

  lemma NewPosition(n: nat, len: nat, d: nat)
    requires n > 0 && len % n + d < n
    ensures (len + d) % n == len % n + d
  {
    Quotient(len + d, n, len / n, len % n + d);
  }

  lemma OldPosition(n: nat, len: nat, d: nat)
    requires n > 0 && 1 <= d <= n && d <= len
    ensures (len - d) % n == if d <= len % n then len % n - d else len % n - d + n
  {
    if d <= len % n {
      Quotient(len - d, n, len / n, len % n - d);
    } else {
      assert len - d == (len / n - 1) * n + (len % n - d + n);
      Quotient(len - d, n, len / n - 1, len % n - d + n);
    }
  }

  /** The buffer with a chunk copied in at idx. */
  function Copied(buf: seq<byte>, idx: nat, chunk: seq<byte>): (r: seq<byte>)
    requires idx + |chunk| <= |buf|
    ensures |r| == |buf|
  {
    buf[..idx] + chunk + buf[idx + |chunk|..]
  }

  lemma CopyHolds(buf: seq<byte>, stream: seq<byte>, h: nat, chunk: seq<byte>)
    requires |buf| > 0 && h == Min(|stream|, |buf|) && Holds(buf, stream, h)
    requires |stream| % |buf| + |chunk| <= |buf|
    ensures Holds(Copied(buf, |stream| % |buf|, chunk), stream + chunk, Min(|stream| + |chunk|, |buf|))
  {
    var n, t, idx := |buf|, |chunk|, |stream| % |buf|;
    var buf', stream' := Copied(buf, idx, chunk), stream + chunk;
    forall i | |stream'| - Min(|stream| + t, n) <= i < |stream'|
      ensures buf'[i % n] == stream'[i]
    {
      if i >= |stream| {
        NewPosition(n, |stream|, i - |stream|);
      } else {
        OldPosition(n, |stream|, |stream| - i);
        assert buf[i % n] == stream[i];
      }
    }
  }

  lemma NextIndex(n: nat, len: nat, t: nat)
    requires n > 0 && len % n + t <= n
    ensures (len + t) % n == if len % n + t == n then 0 else len % n + t
  {
    if len % n + t == n {
      assert len + t == (len / n + 1) * n + 0;
      Quotient(len + t, n, len / n + 1, 0);
    } else {
      NewPosition(n, len, t);
    }
  }

  class Backlog {
    const buffer: array<byte>
    var idx: nat
    var histlen: nat
    var off: int
    var masterOffset: nat
    var seldb: int
    /** All bytes fed since the backlog was created, and the commands they encode. */
    ghost var stream: seq<byte>
    ghost var sent: seq<Command>
    ghost const base: nat

    ghost predicate Valid()
      reads this, buffer
    {
      && buffer.Length > 0
      && idx == |stream| % buffer.Length
      && histlen == Min(|stream|, buffer.Length)
      && masterOffset == base + |stream|
      && Holds(buffer[..], stream, histlen)
      && (stream != [] ==> off == masterOffset - histlen + 1)
    }

    constructor (size: nat, masterOffset: nat)
      requires size > 0
      ensures Valid() && stream == [] && sent == [] && fresh(buffer)
    {
      buffer := new byte[size](_ => 0);
      idx, histlen, off, seldb := 0, 0, 0, -1;
      this.masterOffset, base := masterOffset, masterOffset;
      stream, sent := [], [];
    }

    /** One copy, up to the end of the buffer at most. */
    method CopyPart(chunk: seq<byte>, ghost s: seq<byte>)
      requires buffer.Length > 0 && idx == |s| % buffer.Length && idx + |chunk| <= buffer.Length
      requires Holds(buffer[..], s, Min(|s|, buffer.Length))
      modifies this`idx, buffer
      ensures idx == |s + chunk| % buffer.Length
      ensures Holds(buffer[..], s + chunk, Min(|s + chunk|, buffer.Length))
    {
      CopyHolds(buffer[..], s, Min(|s|, buffer.Length), chunk);
      NextIndex(buffer.Length, |s|, |chunk|);
      ghost var before := buffer[..];
      forall k | 0 <= k < |chunk| {
        buffer[idx + k] := chunk[k];
      }
      assert buffer[..] == Copied(before, idx, chunk);
      idx := idx + |chunk|;
      if idx == buffer.Length { idx := 0; }
    }

    /** Copies bytes in, going round the buffer as often as it takes. */
    method CopyAll(p: seq<byte>, ghost s: seq<byte>)
      requires buffer.Length > 0 && idx == |s| % buffer.Length && Holds(buffer[..], s, Min(|s|, buffer.Length))
      modifies this`idx, this`histlen, buffer
      ensures idx == |s + p| % buffer.Length && Holds(buffer[..], s + p, Min(|s + p|, buffer.Length))
      ensures histlen == old(histlen) + |p|
    {
      var left := p;
      ghost var t := s;
      while left != []
        invariant t + left == s + p
        invariant idx == |t| % buffer.Length && Holds(buffer[..], t, Min(|t|, buffer.Length))
        invariant histlen + |left| == old(histlen) + |p|
        decreases |left|
      {
        var thislen := buffer.Length - idx;
        if thislen > |left| { thislen := |left|; }
        assert t + left[..thislen] + left[thislen..] == t + left;
        CopyPart(left[..thislen], t);
        t := t + left[..thislen];
        left := left[thislen..];
        histlen := histlen + thislen;
      }
      assert t + left == t;
    }

    /** Adds bytes to the stream. */
    method Feed(p: seq<byte>)
      requires Valid()
      modifies this`idx, this`histlen, this`off, this`masterOffset, this`stream, buffer
      ensures Valid() && stream == old(stream) + p
    {
      masterOffset := masterOffset + |p|;
      CopyAll(p, stream);
      if histlen > buffer.Length { histlen := buffer.Length; }
      stream := stream + p;
      off := masterOffset - histlen + 1;
    }

    /** Every offset the backlog claims to hold can be read back: it is found as far before the
        write position as it lies before the end of the stream, going round. */
    lemma ByteAt(offset: int)
      requires Valid() && stream != [] && off <= offset <= masterOffset
      ensures var back := masterOffset - offset + 1;
        && 0 < back <= buffer.Length && back <= |stream|
        && buffer[if back <= idx then idx - back else idx - back + buffer.Length] == stream[offset - base - 1]
    {
      var back := masterOffset - offset + 1;
      OldPosition(buffer.Length, |stream|, back);
      assert buffer[..][(|stream| - back) % buffer.Length] == stream[|stream| - back];
    }

    // -------------------------------------------------------------------- the encoder

    /** A line with a mark and a number. */
    method FeedLine(mark: byte, n: nat)
      requires Valid() && n <= LLONG_MAX
      modifies this`idx, this`histlen, this`off, this`masterOffset, this`stream, buffer
      ensures Valid() && stream == old(stream) + Line(mark, n)
    {
      var aux := new byte[23];
      NumberFits(n);
      var len := Ll2string(aux, n);
      Feed([mark] + aux[..len] + [CR, LF]);
    }

    /** A command as an array of bulk strings. */
    method FeedCommand(argv: Command)
      requires Valid() && |argv| <= LLONG_MAX && forall j :: 0 <= j < |argv| ==> |argv[j]| <= LLONG_MAX
      modifies this`idx, this`histlen, this`off, this`masterOffset, this`stream, buffer
      ensures Valid() && stream == old(stream) + Encode(argv)
    {
      FeedLine(STAR, |argv|);
      ghost var s := stream;
      assert s + EncodeArgs(argv[..0]) == s;
      for j := 0 to |argv|
        invariant Valid() && stream == s + EncodeArgs(argv[..j])
      {
        FeedLine(DOLLAR, |argv[j]|);
        Feed(argv[j]);
        Feed([CR, LF]);
        OneMoreArg(s, argv, j);
      }
      assert argv[..|argv|] == argv;
    }

    /** The backlog part of replicating a command: it is preceded by a SELECT when it runs on
        another database than the one before. */
    method Replicate(dictid: nat, argv: Command)
      requires Valid() && stream == EncodeAll(sent) && AllSendable(sent) && Sendable(argv) && dictid <= LLONG_MAX
      modifies this`idx, this`histlen, this`off, this`masterOffset, this`stream, this`sent, this`seldb, buffer
      ensures Valid() && stream == EncodeAll(sent) && AllSendable(sent) && seldb == dictid
      ensures sent == old(sent) + (if old(seldb) != dictid then [[SELECT, Digits(dictid)], argv] else [argv])
    {
      hide EncodeAll, Encode;
      if seldb != dictid {
        FeedSelect(dictid);
      }
      seldb := dictid;
      FeedCommand(argv);
      EncodeMore(sent, argv);
      sent := sent + [argv];
    }

    method FeedSelect(dictid: nat)
      requires Valid() && stream == EncodeAll(sent) && AllSendable(sent) && dictid <= LLONG_MAX
      modifies this`idx, this`histlen, this`off, this`masterOffset, this`stream, this`sent, buffer
      ensures Valid() && stream == EncodeAll(sent) && AllSendable(sent)
      ensures sent == old(sent) + [[SELECT, Digits(dictid)]]
    {
      NumberFits(dictid);
      Feed(Encode([SELECT, Digits(dictid)]));
      EncodeMore(sent, [SELECT, Digits(dictid)]);
      sent := sent + [[SELECT, Digits(dictid)]];
    }
  }

  /** A replica that reads the whole stream runs exactly the commands sent, in order. */
  method Follow(master: Backlog, replica: Requests.Client, stream: seq<byte>)
    requires stream == master.stream == EncodeAll(master.sent) && AllSendable(master.sent)
    requires replica.Now() == Conn([], 0, -1, [], false)
    modifies replica
    ensures !replica.closing && replica.executed == old(replica.executed) + master.sent
  {
    Requests.ReceiveFromSocket(replica, stream, master.sent);
  }

  /** The command name, in bytes. */
  const SELECT: seq<byte> := [83, 69, 76, 69, 67, 84]

  lemma NumberFits(n: nat)
    requires n <= LLONG_MAX
    ensures |Text(n)| == |Digits(n)| < 20
  {
    DigitsLength(n);
  }

  lemma {:induction false} ArgsAppend(a: seq<Arg>, b: seq<Arg>)
    ensures EncodeArgs(a + b) == EncodeArgs(a) + EncodeArgs(b)
  {
    if a == [] {
      assert a + b == b;
    } else {
      assert (a + b)[1..] == a[1..] + b;
      ArgsAppend(a[1..], b);
    }
  }

  lemma OneMoreArg(s: seq<byte>, argv: Command, j: nat)
    requires j < |argv|
    ensures s + EncodeArgs(argv[..j]) + Line(DOLLAR, |argv[j]|) + argv[j] + [CR, LF] == s + EncodeArgs(argv[..j + 1])
  {
    assert argv[..j + 1] == argv[..j] + [argv[j]];
    ArgsAppend(argv[..j], [argv[j]]);
    var last: seq<Arg> := [argv[j]];
    assert last[1..] == [];
    assert EncodeArgs(last) == EncodeArg(argv[j]);
  }

  lemma {:induction false} EncodeMore(cmds: seq<Command>, cmd: Command)
    ensures EncodeAll(cmds + [cmd]) == EncodeAll(cmds) + Encode(cmd)
  {
    if cmds == [] {
      var last: seq<Command> := [cmd];
      assert last[1..] == [];
    } else {
      assert (cmds + [cmd])[1..] == cmds[1..] + [cmd];
      EncodeMore(cmds[1..], cmd);
    }
  }
}
