/**
 What a client is still to be sent (src/vr_client.c): a static buffer first, then a list of
 chunks, some of which may be array lengths that are not known yet. Nothing is lost, duplicated
 or reordered between the replies added and the bytes written to the socket.
 */
module ReplyQueue {

  import opened Basics
  import opened Bitwise
  import opened Decimal
  import opened Protocol

  const CHUNK_BYTES: nat := 16 * 1024
  const MAX_WRITES: nat := 1024 * 64

  /** One position of the reply stream: a byte, or a length still to be filled in. */
  datatype Atom = Byte(value: byte) | Hole(id: nat)

  function Bytes(s: seq<byte>): (r: seq<Atom>)
    ensures |r| == |s|
  {
    seq(|s|, i requires 0 <= i < |s| => Byte(s[i]))
  }

  /** A node of the reply list; without data it stands for a length to come. */
  datatype Entry = Entry(id: nat, data: Option<seq<byte>>)

  function EntryAtoms(e: Entry): seq<Atom> {
    if e.data.None? then [Hole(e.id)] else Bytes(e.data.value)
  }

  function ListAtoms(list: seq<Entry>): seq<Atom> {
    if list == [] then [] else EntryAtoms(list[0]) + ListAtoms(list[1..])
  }

  lemma BytesAppend(a: seq<byte>, b: seq<byte>)
    ensures Bytes(a + b) == Bytes(a) + Bytes(b)
  {}

  lemma {:induction false} ListAppend(a: seq<Entry>, b: seq<Entry>)
    ensures ListAtoms(a + b) == ListAtoms(a) + ListAtoms(b)
  {
    if a == [] {
      assert a + b == b;
    } else {
      assert (a + b)[1..] == a[1..] + b;
      ListAppend(a[1..], b);
    }
  }

  lemma ListOne(e: Entry)
    ensures ListAtoms([e]) == EntryAtoms(e)
  {
    assert [e][1..] == [];
  }

  /** A stream with one length filled in. */
  function Fill(s: seq<Atom>, id: nat, data: seq<byte>): seq<Atom> {
    if s == [] then []
    else (if s[0] == Hole(id) then Bytes(data) else [s[0]]) + Fill(s[1..], id, data)
  }

  lemma {:induction false} FillAppend(a: seq<Atom>, b: seq<Atom>, id: nat, data: seq<byte>)
    ensures Fill(a + b, id, data) == Fill(a, id, data) + Fill(b, id, data)
  {
    if a == [] {
      assert a + b == b;
    } else {
      assert (a + b)[1..] == a[1..] + b;
      FillAppend(a[1..], b, id, data);
    }
  }

  lemma {:induction false} FillNothing(s: seq<Atom>, id: nat, data: seq<byte>)
    requires Hole(id) !in s
    ensures Fill(s, id, data) == s
  {
    if s != [] { FillNothing(s[1..], id, data); }
  }

  /** Filling in a length puts its bytes in the place of the hole. */
  lemma FillAt(x: seq<Atom>, id: nat, y: seq<Atom>, data: seq<byte>)
    requires Hole(id) !in x && Hole(id) !in y
    ensures Fill(x + [Hole(id)] + y, id, data) == x + Bytes(data) + y
  {
    FillAppend(x + [Hole(id)], y, id, data);
    FillAppend(x, [Hole(id)], id, data);
    FillNothing(x, id, data);
    FillNothing(y, id, data);
    FillOne(id, data);
  }

  lemma FillOne(id: nat, data: seq<byte>)
    ensures Fill([Hole(id)], id, data) == Bytes(data)
  {
    assert [Hole(id)][1..] == [];
  }

  lemma ListAround(a: seq<Entry>, e: Entry, b: seq<Entry>)
    ensures ListAtoms(a + [e] + b) == ListAtoms(a) + EntryAtoms(e) + ListAtoms(b)
  {
    ListAppend(a + [e], b);
    ListAppend(a, [e]);
    ListOne(e);
  }

  /** Different nodes have different names, all below next. */
  predicate Named(list: seq<Entry>, next: nat) {
    && (forall i :: 0 <= i < |list| ==> list[i].id < next)
    && (forall i, j :: 0 <= i < j < |list| ==> list[i].id != list[j].id)
  }

  lemma {:induction false} HolesNamed(list: seq<Entry>, id: nat)
    requires forall i :: 0 <= i < |list| ==> list[i].id != id
    ensures Hole(id) !in ListAtoms(list)
  {
    if list != [] { HolesNamed(list[1..], id); }
  }

  class Queue {
    const buf: array<byte>
    var bufpos: nat
    var sentlen: nat
    var reply: seq<Entry>
    /** Names for new nodes. */
    var nextId: nat
    /** Set once the connection is to be closed: replies are dropped from then on. */
    var closing: bool
    /** What has been written to the socket. */
    ghost var sent: seq<byte>
    /** All that was ever added, in order. */
    ghost var total: seq<Atom>

    constructor ()
      ensures Valid() && total == [] && sent == [] && !closing && fresh(buf)
    {
      buf := new byte[CHUNK_BYTES](_ => 0);
      bufpos, sentlen, reply, nextId, closing := 0, 0, [], 0, false;
      sent, total := [], [];
    }

    /** What of the buffer, or else of the first node, has been sent already lies within it. */
    ghost predicate Placed()
      reads this
    {
      && buf.Length == CHUNK_BYTES && bufpos <= buf.Length
      && (bufpos > 0 ==> sentlen < bufpos)
      && (bufpos == 0 && sentlen > 0 ==> reply != [] && reply[0].data.Some? && sentlen < |reply[0].data.value|)
    }

    /** What is still to be sent. */
    ghost function Pending(): seq<Atom>
      reads this, buf
      requires Placed()
    {
      if bufpos > 0 then Bytes(buf[sentlen..bufpos]) + ListAtoms(reply) else ListAtoms(reply)[sentlen..]
    }

    ghost predicate Valid()
      reads this, buf
    {
      Placed() && Named(reply, nextId) && Bytes(sent) + Pending() == total
    }

    /** Adds bytes to the static buffer; not possible once the list is in use. */
    method AddToBuffer(s: seq<byte>) returns (ok: bool)
      requires Valid()
      modifies this`bufpos, this`total, buf
      ensures Valid()
      ensures ok ==> total == old(total) + (if closing then [] else Bytes(s))
      ensures !ok ==> !closing && total == old(total) && (reply == [] ==> bufpos > 0 || |s| > CHUNK_BYTES)
    {
      var available := buf.Length - bufpos;
      if closing { return true; }
      if |reply| > 0 { return false; }
      if |s| > available { return false; }
      Copy(s);
      return true;
    }

    method Copy(s: seq<byte>)
      requires Valid() && reply == [] && bufpos + |s| <= buf.Length
      modifies this`bufpos, this`total, buf
      ensures Valid() && total == old(total) + Bytes(s)
    {
      hide Bytes, ListAtoms;
      ghost var before := buf[sentlen..bufpos];
      BufferGrows(sent, before, s);
      forall i | 0 <= i < |s| {
        buf[bufpos + i] := s[i];
      }
      Copied(buf[..], sentlen, bufpos, before, s);
      bufpos := bufpos + |s|;
      total := total + Bytes(s);
    }

    /** Adds bytes at the end of the list, to the last node if that has room. */
    method AddToList(s: seq<byte>)
      requires Valid()
      modifies this`reply, this`nextId, this`total
      ensures Valid() && total == old(total) + (if closing then [] else Bytes(s))
    {
      hide Bytes, ListAtoms;
      if closing { return; }
      var n := |reply| - 1;
      if n >= 0 && reply[n].data.Some? && |reply[n].data.value| + |s| <= CHUNK_BYTES {
        GrowLast(reply, s);
        Extend(reply[n := Entry(reply[n].id, Some(reply[n].data.value + s))], nextId, Bytes(s));
      } else {
        PushNode(reply, Entry(nextId, Some(s)));
        Extend(reply + [Entry(nextId, Some(s))], nextId + 1, Bytes(s));
      }
    }

    /** Replaces the list by a longer one. */
    method Extend(list: seq<Entry>, next: nat, ghost more: seq<Atom>)
      requires Valid() && ListAtoms(list) == ListAtoms(reply) + more && Named(list, next)
      requires reply != [] && reply[0].data.Some? ==>
                 list != [] && list[0].data.Some? && |list[0].data.value| >= |reply[0].data.value|
      modifies this`reply, this`nextId, this`total
      ensures Valid() && reply == list && nextId == next && total == old(total) + more
    {
      hide Bytes, ListAtoms, Named;
      PendingGrows(reply, list, more);
      Regroup(Bytes(sent), Pending(), more);
      ghost var pending := Pending() + more;
      reply, nextId := list, next;
      assert Pending() == pending;
      total := total + more;
    }

    /** A longer list means as much more to be sent. */
    lemma PendingGrows(list: seq<Entry>, list': seq<Entry>, more: seq<Atom>)
      requires Placed() && list == reply && ListAtoms(list') == ListAtoms(list) + more
      ensures sentlen <= |ListAtoms(list)| || bufpos > 0
      ensures Pending() + more ==
                if bufpos > 0 then Bytes(buf[sentlen..bufpos]) + ListAtoms(list') else ListAtoms(list')[sentlen..]
    {
      hide Bytes;
      if bufpos == 0 && sentlen > 0 {
        assert ListAtoms(list) == EntryAtoms(list[0]) + ListAtoms(list[1..]);
      }
    }

    /** A reply: to the buffer if possible, else to the list. */
    method AddReply(s: seq<byte>)
      requires Valid()
      modifies this`bufpos, this`reply, this`nextId, this`total, buf
      ensures Valid() && total == old(total) + (if closing then [] else Bytes(s))
    {
      var ok := AddToBuffer(s);
      if !ok { AddToList(s); }
    }

    /** Room for the length of an array whose elements follow. */
    method AddDeferredLength() returns (id: nat)
      requires Valid()
      modifies this`reply, this`nextId, this`total
      ensures Valid() && total == old(total) + [Hole(id)] && id == old(nextId)
    {
      id := nextId;
      PushNode(reply, Entry(id, None));
      Extend(reply + [Entry(id, None)], nextId + 1, [Hole(id)]);
    }

    /** Fills in a length and glues its node to the next one, unless that has no data yet. What is
        sent there is a line, and what it says is the length. */
    method SetDeferredLength(id: nat, length: int)
      requires Valid() && exists k :: 0 <= k < |reply| && reply[k] == Entry(id, None)
      modifies this`reply, this`total
      ensures Valid() && total == Fill(old(total), id, LengthLine(length))
      ensures IsLong(length) ==> exists line ::
                && total == Fill(old(total), id, line) && |line| >= 3 && line[0] == 42
                && line[|line| - 2..] == [13, 10] && Parsed(line[1..|line| - 2]) == Some(length)
    {
      hide LengthLine, Parsed;
      LengthLineSays(length);
      var k :| 0 <= k < |reply| && reply[k] == Entry(id, None);
      var line := LengthLine(length);
      ghost var list := reply;
      Filled(reply, nextId, k, line);
      PendingFilled(k, line);
      if k + 1 < |reply| && reply[k + 1].data.Some? {
        reply := reply[..k] + [Entry(id, Some(line + reply[k + 1].data.value))] + reply[k + 2..];
      } else {
        reply := reply[k := Entry(id, Some(line))];
      }
      total := Fill(total, id, line);
    }

    /** The same on all that is to be sent. */
    lemma PendingFilled(k: nat, line: seq<byte>)
      requires Valid() && k < |reply| && reply[k].data.None?
      ensures var id, a, b := reply[k].id, ListAtoms(reply[..k]), ListAtoms(reply[k + 1..]);
        && (bufpos == 0 ==> sentlen <= |a|)
        && Fill(total, id, line) == Bytes(sent)
             + (if bufpos > 0 then Bytes(buf[sentlen..bufpos]) + (a + Bytes(line) + b) else (a + Bytes(line) + b)[sentlen..])
    {
      var id, a, b := reply[k].id, ListAtoms(reply[..k]), ListAtoms(reply[k + 1..]);
      assert reply == reply[..k] + [reply[k]] + reply[k + 1..];
      ListAround(reply[..k], reply[k], reply[k + 1..]);
      HolesNamed(reply[..k], id);
      HolesNamed(reply[k + 1..], id);
      if bufpos > 0 {
        FillBehind(sent, buf[sentlen..bufpos], a, id, b, line);
      } else {
        if sentlen > 0 { FirstNode(reply, k); }
        FillAfter(sent, a, id, b, sentlen, line);
      }
    }

    // ----------------------------------------------------------------------- writing

    /** Part of the buffer goes out. */
    method SendFromBuffer(n: nat)
      requires Valid() && bufpos > 0 && n <= bufpos - sentlen
      modifies this`bufpos, this`sentlen, this`sent
      ensures Valid() && |sent| + |Pending()| == |old(sent)| + |old(Pending())|
      ensures sent == old(sent) + buf[old(sentlen)..old(sentlen) + n]
    {
      ghost var p := buf[sentlen..bufpos];
      Sent(sent, p, n, ListAtoms(reply));
      assert p[..n] == buf[sentlen..sentlen + n];
      sent := sent + buf[sentlen..sentlen + n];
      sentlen := sentlen + n;
      if sentlen == bufpos {
        bufpos := 0;
        sentlen := 0;
      } else {
        assert p[n..] == buf[sentlen..bufpos];
      }
    }

    /** Part of the first node goes out. */
    method SendFromNode(n: nat)
      requires Valid() && bufpos == 0 && reply != [] && reply[0].data.Some? && n <= |reply[0].data.value| - sentlen
      modifies this`reply, this`sentlen, this`sent
      ensures Valid() && |sent| + |Pending()| == |old(sent)| + |old(Pending())|
      ensures sent == old(sent) + old(reply)[0].data.value[old(sentlen)..old(sentlen) + n]
      ensures reply == old(reply) || reply == old(reply)[1..]
    {
      hide Bytes, ListAtoms;
      var data := reply[0].data.value;
      NodeSent(sent, reply, sentlen, n);
      sent := sent + data[sentlen..sentlen + n];
      sentlen := sentlen + n;
      if sentlen == |data| {
        reply := reply[1..];
        sentlen := 0;
      }
    }

    lemma Offered()
      requires Valid() && (bufpos > 0 || (reply != [] && reply[0].data.Some? && reply[0].data.value != []))
      ensures |Pending()| > 0
    {
      if bufpos == 0 { assert ListAtoms(reply) == EntryAtoms(reply[0]) + ListAtoms(reply[1..]); }
    }

    lemma AllSent()
      requires Valid() && bufpos == 0 && reply == []
      ensures Bytes(sent) == total
    {}

    /** One write, of the buffer or else of the first node. */
    method WriteOnce(taken: nat) returns (n: nat)
      requires Valid() && forall i :: 0 <= i < |reply| ==> reply[i].data.Some?
      requires bufpos > 0 || (reply != [] && reply[0].data.value != [])
      modifies this`bufpos, this`sentlen, this`reply, this`sent
      ensures Valid() && |sent| + |Pending()| == |old(sent)| + |old(Pending())|
      ensures old(sent) <= sent && |sent| == |old(sent)| + n && n <= taken && (n == 0 ==> taken == 0)
      ensures reply == old(reply) || (old(reply) != [] && reply == old(reply)[1..])
    {
      hide Bytes, ListAtoms, Pending, Named;
      if bufpos > 0 {
        n := Min(taken, bufpos - sentlen);
        SendFromBuffer(n);
      } else {
        n := Min(taken, |reply[0].data.value| - sentlen);
        SendFromNode(n);
      }
    }

    /** Sends as much as the socket takes; every length must have been filled in before. `takes` says
        how many bytes the socket would take at each write, none at all when it is full or the list
        ends. As long as it takes some, everything goes out, or else more than 64 KiB do. */
    method WriteToClient(takes: seq<nat>)
      requires Valid() && forall i :: 0 <= i < |reply| ==> reply[i].data.Some?
      modifies this`bufpos, this`sentlen, this`reply, this`sent
      ensures Valid() && total == old(total) && old(sent) <= sent
      ensures bufpos == 0 && reply == [] ==> Bytes(sent) == total
      ensures |takes| >= |old(Pending())| && (forall i :: 0 <= i < |takes| ==> takes[i] > 0) ==>
                (bufpos == 0 && reply == []) || |sent| - |old(sent)| > MAX_WRITES
    {
      hide Bytes, ListAtoms, Pending, Named;
      var more, written, w := true, 0, 0;
      while (bufpos > 0 || |reply| > 0) && more
        invariant Valid() && (forall i :: 0 <= i < |reply| ==> reply[i].data.Some?) && old(sent) <= sent
        invariant |sent| + |Pending()| == |old(sent)| + |old(Pending())| && written == |sent| - |old(sent)|
        invariant more && (forall i :: 0 <= i < |takes| ==> takes[i] > 0) ==> w <= written
        invariant more || written > MAX_WRITES || |takes| < |old(Pending())| || exists i :: 0 <= i < |takes| && takes[i] == 0
        decreases |Pending()| + |reply|, more
      {
        if bufpos == 0 && |reply[0].data.value| == 0 {
          DropEmpty();
          continue;
        }
        Offered();
        var n := WriteOnce(if w < |takes| then takes[w] else 0);
        w := w + 1;
        written := written + n;
        var stop: bool := *;
        more := n > 0 && !(written > MAX_WRITES && stop);
      }
      if bufpos == 0 && reply == [] { AllSent(); }
    }

    method DropEmpty()
      requires Valid() && bufpos == 0 && reply != [] && reply[0].data == Some([])
      modifies this`reply
      ensures Valid() && Pending() == old(Pending()) && reply == old(reply)[1..]
    {
      reply := reply[1..];
    }
  }

  /** Bytes that go out move from what is pending to what has been sent. */
  lemma Sent(sent: seq<byte>, p: seq<byte>, n: nat, rest: seq<Atom>)
    requires n <= |p|
    ensures Bytes(sent) + (Bytes(p) + rest) == Bytes(sent + p[..n]) + (Bytes(p[n..]) + rest)
    ensures n == |p| ==> Bytes(p[n..]) + rest == rest && rest == rest[0..]
  {
    assert p == p[..n] + p[n..];
    BytesAppend(p[..n], p[n..]);
    BytesAppend(sent, p[..n]);
    Shift(Bytes(sent), Bytes(p[..n]), Bytes(p[n..]), rest);
  }

  lemma Shift(x: seq<Atom>, y: seq<Atom>, z: seq<Atom>, w: seq<Atom>)
    ensures x + (y + z + w) == x + y + (z + w)
  {
    Regroup(y, z, w);
    Regroup(x, y, z + w);
  }

  lemma FirstSlice(list: seq<Entry>, n: nat)
    requires list != [] && list[0].data.Some? && n <= |list[0].data.value|
    ensures n <= |ListAtoms(list)| && ListAtoms(list)[n..] == Bytes(list[0].data.value[n..]) + ListAtoms(list[1..])
  {
    assert Bytes(list[0].data.value)[n..] == Bytes(list[0].data.value[n..]);
  }

  lemma NodeSent(sent: seq<byte>, list: seq<Entry>, k: nat, n: nat)
    requires list != [] && list[0].data.Some? && k + n <= |list[0].data.value|
    ensures var data := list[0].data.value;
      && k + n <= |ListAtoms(list)|
      && Bytes(sent) + ListAtoms(list)[k..] == Bytes(sent + data[k..k + n]) + ListAtoms(list)[k + n..]
      && (k + n == |data| ==> ListAtoms(list)[k + n..] == ListAtoms(list[1..])[0..])
  {
    var data := list[0].data.value;
    FirstSlice(list, k);
    FirstSlice(list, k + n);
    Sent(sent, data[k..], n, ListAtoms(list[1..]));
    assert data[k..][..n] == data[k..k + n] && data[k..][n..] == data[k + n..];
  }

  lemma FirstNode(list: seq<Entry>, k: nat)
    requires 0 < k < |list| && list[0].data.Some?
    ensures |list[0].data.value| <= |ListAtoms(list[..k])|
  {
    assert list[..k] == [list[0]] + list[1..k];
    ListAppend([list[0]], list[1..k]);
    ListOne(list[0]);
  }

  lemma FillBehind(sent: seq<byte>, front: seq<byte>, a: seq<Atom>, id: nat, b: seq<Atom>, line: seq<byte>)
    requires Hole(id) !in a && Hole(id) !in b
    ensures Fill(Bytes(sent) + (Bytes(front) + (a + [Hole(id)] + b)), id, line) ==
            Bytes(sent) + (Bytes(front) + (a + Bytes(line) + b))
  {
    FillAt(Bytes(sent) + Bytes(front) + a, id, b, line);
    Nest(Bytes(sent), Bytes(front), a, [Hole(id)], b);
    Nest(Bytes(sent), Bytes(front), a, Bytes(line), b);
  }

  lemma Nest(x: seq<Atom>, y: seq<Atom>, a: seq<Atom>, h: seq<Atom>, b: seq<Atom>)
    ensures x + (y + (a + h + b)) == x + y + a + h + b
  {
    Regroup(x, y, a + h + b);
    Regroup(x + y, a + h, b);
    Regroup(x + y, a, h);
  }

  lemma FillAfter(sent: seq<byte>, a: seq<Atom>, id: nat, b: seq<Atom>, n: nat, line: seq<byte>)
    requires Hole(id) !in a && Hole(id) !in b && n <= |a|
    ensures Fill(Bytes(sent) + (a + [Hole(id)] + b)[n..], id, line) == Bytes(sent) + (a + Bytes(line) + b)[n..]
  {
    var x := Bytes(sent) + a[n..];
    FillAt(x, id, b, line);
    assert Bytes(sent) + (a + [Hole(id)] + b)[n..] == x + [Hole(id)] + b;
    assert Bytes(sent) + (a + Bytes(line) + b)[n..] == x + Bytes(line) + b;
  }

  /** The line that gives the length of an array. */
  function LengthLine(length: int): seq<byte> {
    [STAR] + Text(length) + [CR, LF]
  }

  lemma LengthLineSays(length: int)
    ensures var line := LengthLine(length);
      && |line| >= 3 && line[0] == STAR && line[|line| - 2..] == [CR, LF]
      && (IsLong(length) ==> Parsed(line[1..|line| - 2]) == Some(length))
  {
    var line := LengthLine(length);
    assert line[1..|line| - 2] == Text(length);
    if IsLong(length) { ParsedText(length); }
  }

  /** The list after a length has been filled in, glued or not. */
  lemma Filled(list: seq<Entry>, next: nat, k: nat, line: seq<byte>)
    requires k < |list| && list[k].data.None? && Named(list, next)
    ensures var a, b := ListAtoms(list[..k]), ListAtoms(list[k + 1..]);
      && Named(list[k := Entry(list[k].id, Some(line))], next)
      && ListAtoms(list[k := Entry(list[k].id, Some(line))]) == a + Bytes(line) + b
    ensures k + 1 < |list| && list[k + 1].data.Some? ==>
      var a, b := ListAtoms(list[..k]), ListAtoms(list[k + 1..]);
      var glued := list[..k] + [Entry(list[k].id, Some(line + list[k + 1].data.value))] + list[k + 2..];
      && Named(glued, next) && ListAtoms(glued) == a + Bytes(line) + b
  {
    var e := Entry(list[k].id, Some(line));
    assert list[k := e] == list[..k] + [e] + list[k + 1..];
    ListAround(list[..k], e, list[k + 1..]);
    if k + 1 < |list| && list[k + 1].data.Some? {
      Glued(list, k, line);
      NamedGlued(list, next, k, Entry(list[k].id, Some(line + list[k + 1].data.value)));
    }
  }

  lemma NamedGlued(list: seq<Entry>, next: nat, k: nat, g: Entry)
    requires k + 1 < |list| && g.id == list[k].id && Named(list, next)
    ensures Named(list[..k] + [g] + list[k + 2..], next)
  {
    var l := list[..k] + [g] + list[k + 2..];
    assert forall i :: 0 <= i < |l| ==> l[i].id == list[if i <= k then i else i + 1].id;
  }

  lemma Glued(list: seq<Entry>, k: nat, line: seq<byte>)
    requires k + 1 < |list| && list[k + 1].data.Some?
    ensures ListAtoms(list[..k] + [Entry(list[k].id, Some(line + list[k + 1].data.value))] + list[k + 2..])
         == ListAtoms(list[..k]) + Bytes(line) + ListAtoms(list[k + 1..])
  {
    var g := Entry(list[k].id, Some(line + list[k + 1].data.value));
    ListAround(list[..k], g, list[k + 2..]);
    assert list[k + 1..] == [list[k + 1]] + list[k + 2..];
    ListAppend([list[k + 1]], list[k + 2..]);
    ListOne(list[k + 1]);
    BytesAppend(line, list[k + 1].data.value);
  }

  lemma Regroup(x: seq<Atom>, y: seq<Atom>, z: seq<Atom>)
    ensures x + (y + z) == x + y + z
  {}

  lemma Copied(b: seq<byte>, from: nat, to: nat, before: seq<byte>, s: seq<byte>)
    requires from <= to && to + |s| <= |b| && |before| == to - from
    requires forall j :: from <= j < to ==> b[j] == before[j - from]
    requires forall j :: to <= j < to + |s| ==> b[j] == s[j - to]
    ensures b[from..to + |s|] == before + s
  {}

  lemma BufferGrows(sent: seq<byte>, before: seq<byte>, s: seq<byte>)
    ensures Bytes(sent) + (Bytes(before + s) + ListAtoms([])) == Bytes(sent) + (Bytes(before) + ListAtoms([])) + Bytes(s)
    ensures Bytes(sent) + ListAtoms([])[0..] == Bytes(sent)
  {
    BytesAppend(before, s);
  }

  lemma PushNode(list: seq<Entry>, e: Entry)
    requires Named(list, e.id)
    ensures ListAtoms(list + [e]) == ListAtoms(list) + EntryAtoms(e) && Named(list + [e], e.id + 1)
  {
    ListAppend(list, [e]);
    ListOne(e);
  }

  /** Bytes added to the last node are bytes added to the list. */
  lemma GrowLast(list: seq<Entry>, s: seq<byte>)
    requires list != [] && list[|list| - 1].data.Some?
    ensures var n := |list| - 1;
      var list' := list[n := Entry(list[n].id, Some(list[n].data.value + s))];
      ListAtoms(list') == ListAtoms(list) + Bytes(s) && forall next :: Named(list, next) ==> Named(list', next)
  {
    var n := |list| - 1;
    var e := Entry(list[n].id, Some(list[n].data.value + s));
    assert list == list[..n] + [list[n]] && list[n := e] == list[..n] + [e];
    ListAppend(list[..n], [list[n]]);
    ListAppend(list[..n], [e]);
    ListOne(list[n]);
    ListOne(e);
    BytesAppend(list[n].data.value, s);
  }
}
