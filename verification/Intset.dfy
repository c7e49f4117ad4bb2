/**
 A set of integers in one block of memory (src/vr_intset.c): sorted, without duplicates, all
 numbers in the smallest width of 2, 4 or 8 bytes that holds them. The block is widened, shifted
 and searched in place; on the outside it is a set.
 */
module Intsets {

  import opened Basics
  import opened Bitwise
  import opened Chunks
  import opened Decimal
  import opened LittleEndian

  predicate IsWidth(enc: nat) {
    enc == 2 || enc == 4 || enc == 8
  }

  /** The width a number needs. */
  function ValueEncoding(v: int): (enc: nat)
    ensures IsWidth(enc)
  {
    if v < -0x8000_0000 || v > 0x7FFF_FFFF then 8
    else if v < -0x8000 || v > 0x7FFF then 4
    else 2
  }

  lemma EncodingFits(v: int, enc: nat)
    requires IsLong(v) && IsWidth(enc)
    ensures Fits(v, enc) <==> ValueEncoding(v) <= enc
  {
    assert Pow256(2) == 0x1_0000 && Pow256(4) == 0x1_0000_0000 && Pow256(8) == 0x1_0000_0000_0000_0000;
  }

  /** A number that needs a wider slot lies outside the range of all narrower ones. */
  lemma WiderIsOutside(v: int, w: int, enc: nat)
    requires IsLong(v) && IsLong(w) && IsWidth(enc) && ValueEncoding(v) > enc && Fits(w, enc)
    ensures if v < 0 then v < w else v > w
  {
    EncodingFits(v, enc);
    EncodingFits(w, enc);
  }

  lemma Scaled(a: int, b: int, enc: nat)
    requires a < b
    ensures a * enc + enc <= b * enc
  {
    assert (b - a - 1) * enc >= 0;
  }

  /** Slot pos of the block starts at byte At(pos, enc). */
  function At(pos: nat, enc: nat): nat {
    pos * enc
  }

  lemma SlotInside(pos: nat, n: nat, enc: nat)
    requires pos < n
    ensures At(pos, enc) + enc <= At(n, enc) && At(pos, enc) + enc == At(pos + 1, enc)
  {
    Scaled(pos, n, enc);
  }

  lemma SlotsApart(p: nat, q: nat, enc: nat)
    requires p < q
    ensures At(p, enc) + enc <= At(q, enc)
  {
    Scaled(p, q, enc);
  }

  /** The number in a slot. */
  function Get(c: seq<byte>, pos: nat, enc: nat): int
    requires At(pos, enc) + enc <= |c|
  {
    Decode(c[At(pos, enc)..At(pos, enc) + enc])
  }

  /** The numbers in the first n slots. */
  function Values(c: seq<byte>, enc: nat, n: nat): (r: seq<int>)
    requires At(n, enc) <= |c|
    ensures |r| == n
  {
    seq(n, i requires 0 <= i < n => SlotInside(i, n, enc); Get(c, i, enc))
  }

  lemma ValuesAt(c: seq<byte>, enc: nat, n: nat, i: nat)
    requires At(n, enc) <= |c| && i < n
    ensures At(i, enc) + enc <= |c| && Values(c, enc, n)[i] == Get(c, i, enc)
  {
    SlotInside(i, n, enc);
  }

  /** The block with one slot overwritten. */
  function Put(c: seq<byte>, pos: nat, enc: nat, v: int): (r: seq<byte>)
    requires At(pos, enc) + enc <= |c| && Fits(v, enc)
    ensures |r| == |c|
  {
    c[..At(pos, enc)] + Encode(v, enc) + c[At(pos, enc) + enc..]
  }

  lemma PutSame(c: seq<byte>, pos: nat, enc: nat, v: int)
    requires At(pos, enc) + enc <= |c| && Fits(v, enc)
    ensures Get(Put(c, pos, enc, v), pos, enc) == v
  {
    var a := At(pos, enc);
    assert Put(c, pos, enc, v)[a..a + enc] == Encode(v, enc);
    DecodeEncode(v, enc);
  }

  lemma PutOther(c: seq<byte>, pos: nat, enc: nat, v: int, q: nat)
    requires At(pos, enc) + enc <= |c| && Fits(v, enc) && At(q, enc) + enc <= |c| && q != pos
    ensures Get(Put(c, pos, enc, v), q, enc) == Get(c, q, enc)
  {
    if q < pos { SlotsApart(q, pos, enc); } else { SlotsApart(pos, q, enc); }
    Outside(c, At(pos, enc), Encode(v, enc), At(q, enc), enc);
  }

  /** A slice off the overwritten part stays what it was. */
  lemma Outside(c: seq<byte>, a: nat, e: seq<byte>, b: nat, w: nat)
    requires a + |e| <= |c| && b + w <= |c| && (b + w <= a || a + |e| <= b)
    ensures (c[..a] + e + c[a + |e|..])[b..b + w] == c[b..b + w]
  {
    var m := c[..a] + e + c[a + |e|..];
    assert forall i :: b <= i < b + w ==> m[i] == c[i];
  }

  lemma PutValues(c: seq<byte>, pos: nat, enc: nat, v: int, n: nat)
    requires At(n, enc) <= |c| && pos < n && Fits(v, enc)
    ensures At(pos, enc) + enc <= |c| && Values(Put(c, pos, enc, v), enc, n) == Values(c, enc, n)[pos := v]
  {
    SlotInside(pos, n, enc);
    forall i | 0 <= i < n
      ensures Values(Put(c, pos, enc, v), enc, n)[i] == Values(c, enc, n)[pos := v][i]
    {
      SlotInside(i, n, enc);
      if i == pos { PutSame(c, pos, enc, v); } else { PutOther(c, pos, enc, v, i); }
    }
  }

  /** The block with the slots from `from` on moved to `to`, as memmove does. */
  function Moved(c: seq<byte>, enc: nat, n: nat, from: nat, to: nat): (r: seq<byte>)
    requires from <= n && At(n, enc) <= |c| && At(to, enc) + At(n - from, enc) <= |c|
    ensures |r| == |c|
  {
    Spread(from, n - from, enc);
    c[..At(to, enc)] + c[At(from, enc)..At(n, enc)] + c[At(to, enc) + At(n - from, enc)..]
  }

  lemma Spread(a: nat, b: nat, enc: nat)
    ensures At(a + b, enc) == At(a, enc) + At(b, enc)
  {}

  lemma MovedBefore(c: seq<byte>, enc: nat, n: nat, from: nat, to: nat, i: nat)
    requires from <= n && At(n, enc) <= |c| && At(to, enc) + At(n - from, enc) <= |c| && i < to
    ensures At(i, enc) + enc <= |c| && Get(Moved(c, enc, n, from, to), i, enc) == Get(c, i, enc)
  {
    SlotsApart(i, to, enc);
    var a := At(i, enc);
    assert Moved(c, enc, n, from, to)[a..a + enc] == c[a..a + enc];
  }

  lemma MovedWithin(c: seq<byte>, enc: nat, n: nat, from: nat, to: nat, k: nat)
    requires from <= n && At(n, enc) <= |c| && At(to, enc) + At(n - from, enc) <= |c| && k < n - from
    ensures At(to + k, enc) + enc <= |c| && At(from + k, enc) + enc <= |c|
    ensures Get(Moved(c, enc, n, from, to), to + k, enc) == Get(c, from + k, enc)
  {
    Spread(to, k, enc);
    Spread(from, k, enc);
    SlotInside(k, n - from, enc);
    Spread(from, n - from, enc);
    var m, a, b := Moved(c, enc, n, from, to), At(to + k, enc), At(from + k, enc);
    MovedSlice(c, At(to, enc), At(from, enc), At(n, enc), At(k, enc), enc);
    assert m[a..a + enc] == c[b..b + enc];
  }

  lemma MovedSlice(c: seq<byte>, to: nat, from: nat, end: nat, k: nat, enc: nat)
    requires from <= end <= |c| && to + (end - from) <= |c| && k + enc <= end - from
    ensures (c[..to] + c[from..end] + c[to + (end - from)..])[to + k..to + k + enc] == c[from + k..from + k + enc]
  {
    var m := c[..to] + c[from..end] + c[to + (end - from)..];
    assert forall i :: to + k <= i < to + k + enc ==> m[i] == c[i - to + from];
    var x, y := m[to + k..to + k + enc], c[from + k..from + k + enc];
    assert forall i :: 0 <= i < enc ==> x[i] == m[to + k + i] && y[i] == c[from + k + i];
  }

  // ------------------------------------------------------------------- sorted lists

  predicate Increasing(s: seq<int>) {
    forall i, j :: 0 <= i < j < |s| ==> s[i] < s[j]
  }

  /** The place of v in an increasing list. */
  predicate Place(s: seq<int>, v: int, pos: nat) {
    && pos <= |s|
    && (forall i :: 0 <= i < pos ==> s[i] < v)
    && (forall i :: pos <= i < |s| ==> v < s[i])
  }

  lemma InsertIncreasing(s: seq<int>, v: int, pos: nat)
    requires Increasing(s) && Place(s, v, pos)
    ensures Increasing(Inserted(s, pos, v))
    ensures forall x :: x in Inserted(s, pos, v) <==> x in s || x == v
  {
    var t := Inserted(s, pos, v);
    forall x | x in s
      ensures x in t
    {
      var i :| 0 <= i < |s| && s[i] == x;
      assert t[if i < pos then i else i + 1] == x;
    }
    assert t[pos] == v;
  }

  lemma RemoveIncreasing(s: seq<int>, pos: nat)
    requires Increasing(s) && pos < |s|
    ensures Increasing(Removed(s, pos))
    ensures forall x :: x in Removed(s, pos) <==> x in s && x != s[pos]
  {
    var t := Removed(s, pos);
    forall x | x in s && x != s[pos]
      ensures x in t
    {
      var i :| 0 <= i < |s| && s[i] == x;
      assert t[if i < pos then i else i - 1] == x;
    }
  }

  // ---------------------------------------------------------------------- the block

  class Intset {
    var encoding: nat
    var length: nat
    var contents: seq<byte>

    constructor ()
      ensures Valid() && Elements() == []
    {
      encoding, length, contents := 2, 0, [];
    }

    ghost predicate Sized()
      reads this
    {
      IsWidth(encoding) && |contents| == At(length, encoding)
    }

    ghost function Elements(): seq<int>
      reads this
      requires Sized()
    {
      Values(contents, encoding, length)
    }

    ghost predicate Valid()
      reads this
    {
      Sized() && Increasing(Elements())
    }

    method ValueAt(pos: nat) returns (v: int)
      requires Sized() && pos < length
      ensures v == Elements()[pos]
    {
      ValuesAt(contents, encoding, length, pos);
      v := Get(contents, pos, encoding);
    }

    /** Binary search: where the value is, or where it would have to go. */
    method Search(value: int) returns (found: bool, pos: nat)
      requires Valid()
      ensures pos <= length && found == (value in Elements())
      ensures found ==> pos < length && Elements()[pos] == value
      ensures !found ==> Place(Elements(), value, pos)
    {
      hide Values;
      if length == 0 { return false, 0; }
      var last := ValueAt(length - 1);
      var first := ValueAt(0);
      if value > last {
        return false, length;
      } else if value < first {
        return false, 0;
      }
      ghost var s := Elements();
      var min, max: int := 0, length - 1;
      while max >= min
        invariant 0 <= min <= max + 1 <= length
        invariant forall i :: 0 <= i < min ==> s[i] < value
        invariant forall i :: max < i < length ==> value < s[i]
      {
        var mid := (min + max) / 2;
        var cur := ValueAt(mid);
        if value > cur {
          min := mid + 1;
        } else if value < cur {
          max := mid - 1;
        } else {
          return true, mid;
        }
      }
      return false, min;
    }

    /** Gives the block room for n slots of the current width; what a larger block holds at its
        end is anything. */
    method Resize(n: nat)
      requires IsWidth(encoding)
      modifies this`contents
      ensures |contents| == At(n, encoding)
      ensures At(n, encoding) <= |old(contents)| ==> contents == old(contents)[..At(n, encoding)]
      ensures At(n, encoding) > |old(contents)| ==> contents[..|old(contents)|] == old(contents)
    {
      var size := At(n, encoding);
      if size <= |contents| {
        contents := contents[..size];
      } else {
        var junk: seq<byte> := *;
        var fill := if |junk| == size - |contents| then junk else seq(size - |contents|, _ => 0);
        contents := contents + fill;
      }
    }

    /** Widens every number in place, last one first, and puts the new one at the end it belongs
        to. No slot is overwritten before it has been read. */
    method UpgradeAndAdd(value: int)
      requires Valid() && IsLong(value) && ValueEncoding(value) > encoding
      modifies this
      ensures Sized() && length == old(length) + 1 && encoding == ValueEncoding(value)
      ensures Elements() == if value < 0 then [value] + old(Elements()) else old(Elements()) + [value]
    {
      hide Values, Put;
      var curenc, newenc := encoding, ValueEncoding(value);
      var prepend := if value < 0 then 1 else 0;
      ghost var c, s := contents, Elements();
      EncodingFits(value, newenc);
      encoding := newenc;
      Wider(length, curenc, newenc);
      Resize(length + 1);
      Widen(curenc, prepend, c);
      NewEnd(Values(contents, newenc, length + 1), s, prepend, value);
      var end := if prepend == 1 then 0 else length;
      PutValues(contents, end, newenc, value, length + 1);
      contents := Put(contents, end, newenc, value);
      length := length + 1;
    }

    /** The widening loop. */
    method Widen(curenc: nat, prepend: nat, ghost c: seq<byte>)
      requires IsWidth(curenc) && IsWidth(encoding) && curenc < encoding && prepend <= 1
      requires |c| == At(length, curenc) && |contents| == At(length + 1, encoding) && |c| <= |contents|
      requires contents[..|c|] == c
      modifies this`contents
      ensures |contents| == At(length + 1, encoding)
      ensures forall i :: 0 <= i < length ==> Values(contents, encoding, length + 1)[i + prepend] == Values(c, curenc, length)[i]
    {
      var n := length;
      while n > 0
        invariant 0 <= n <= length && Widened(contents, c, length, n, curenc, encoding, prepend)
      {
        n := n - 1;
        WidenStep(contents, c, length, n, curenc, encoding, prepend);
        contents := Put(contents, n + prepend, encoding, Get(contents, n, curenc));
      }
    }

    /** Moves the slots from one on to another place, over each other if need be. */
    method MoveTail(from: nat, to: nat)
      requires IsWidth(encoding) && from <= length && At(length, encoding) <= |contents|
      requires At(to, encoding) + At(length - from, encoding) <= |contents|
      modifies this`contents
      ensures contents == Moved(old(contents), encoding, length, from, to)
    {
      Spread(from, length - from, encoding);
      contents := contents[..At(to, encoding)] + contents[At(from, encoding)..At(length, encoding)]
        + contents[At(to, encoding) + At(length - from, encoding)..];
    }

    /** Opens a slot at pos and fills it. */
    method InsertAt(value: int, pos: nat)
      requires Valid() && Fits(value, encoding) && Place(Elements(), value, pos)
      modifies this
      ensures Valid() && encoding == old(encoding) && Elements() == Inserted(old(Elements()), pos, value)
    {
      hide Values, Put, Moved, Increasing;
      ghost var c := contents;
      InsertIncreasing(Elements(), value, pos);
      SlotInside(length, length + 1, encoding);
      Resize(length + 1);
      InsertSlot(c, contents, encoding, length, pos, value);
      if pos < length { MoveTail(pos, pos + 1); }
      contents := Put(contents, pos, encoding, value);
      length := length + 1;
    }

    /** Adds a number, widening the block first if it needs more room than the others. */
    method Add(value: int) returns (success: bool)
      requires Valid() && IsLong(value)
      modifies this
      ensures Valid() && success == (value !in old(Elements()))
      ensures forall x :: x in Elements() <==> x in old(Elements()) || x == value
    {
      if ValueEncoding(value) > encoding {
        AllOnOneSide(contents, encoding, length, value);
        UpgradeAndAdd(value);
        return true;
      }
      EncodingFits(value, encoding);
      var found, pos := Search(value);
      if found { return false; }
      InsertIncreasing(Elements(), value, pos);
      InsertAt(value, pos);
      return true;
    }

    /** Removes a number by moving the ones behind it down. */
    method Remove(value: int) returns (success: bool)
      requires Valid() && IsLong(value)
      modifies this
      ensures Valid() && encoding == old(encoding) && success == (value in old(Elements()))
      ensures forall x :: x in Elements() <==> x in old(Elements()) && x != value
    {
      var found, pos := Locate(value);
      if !found { return false; }
      RemoveIncreasing(Elements(), pos);
      RemoveAt(pos);
      return true;
    }

    method RemoveAt(pos: nat)
      requires Valid() && pos < length
      modifies this
      ensures Sized() && encoding == old(encoding) && Elements() == Removed(old(Elements()), pos)
    {
      RemoveSlot(contents, encoding, length, pos);
      if pos < length - 1 { MoveTail(pos + 1, pos); }
      Resize(length - 1);
      length := length - 1;
    }

    /** A number wider than the block cannot be in it; any other is searched for. */
    method Locate(value: int) returns (found: bool, pos: nat)
      requires Valid() && IsLong(value)
      ensures found == (value in Elements())
      ensures found ==> pos < length && Elements()[pos] == value
    {
      found, pos := false, 0;
      if ValueEncoding(value) <= encoding {
        found, pos := Search(value);
      } else {
        AllOnOneSide(contents, encoding, length, value);
      }
    }

    method Find(value: int) returns (found: bool)
      requires Valid() && IsLong(value)
      ensures found == (value in Elements())
    {
      var pos;
      found, pos := Locate(value);
    }
  }

  /** A number wider than the block is smaller than all in it if negative, larger otherwise. */
  lemma AllOnOneSide(c: seq<byte>, enc: nat, n: nat, v: int)
    requires IsWidth(enc) && At(n, enc) <= |c| && IsLong(v) && ValueEncoding(v) > enc
    ensures v !in Values(c, enc, n)
    ensures Increasing(Values(c, enc, n)) ==> Increasing(if v < 0 then [v] + Values(c, enc, n) else Values(c, enc, n) + [v])
  {
    forall i | 0 <= i < n
      ensures if v < 0 then v < Values(c, enc, n)[i] else v > Values(c, enc, n)[i]
    {
      ValuesAt(c, enc, n, i);
      DecodeFits(c[At(i, enc)..At(i, enc) + enc]);
      WidthIsLong(Get(c, i, enc), enc);
      WiderIsOutside(v, Get(c, i, enc), enc);
    }
  }

  lemma WidthIsLong(v: int, enc: nat)
    requires IsWidth(enc) && Fits(v, enc)
    ensures IsLong(v)
  {
    assert Pow256(2) == 0x1_0000 && Pow256(4) == 0x1_0000_0000 && Pow256(8) == 0x1_0000_0000_0000_0000;
  }

  lemma PrefixValues(c: seq<byte>, d: seq<byte>, enc: nat, n: nat, i: nat)
    requires i < n && At(n, enc) <= |c| <= |d| && d[..|c|] == c
    ensures At(i, enc) + enc <= |c| && Get(d, i, enc) == Get(c, i, enc)
  {
    SlotInside(i, n, enc);
    SliceOfPrefix(c, d, At(i, enc), At(i, enc) + enc);
  }

  lemma SliceOfPrefix(c: seq<byte>, d: seq<byte>, a: nat, b: nat)
    requires a <= b <= |c| <= |d| && d[..|c|] == c
    ensures d[a..b] == c[a..b]
  {
    assert forall i :: 0 <= i < |c| ==> d[i] == d[..|c|][i];
  }

  /** A slot opened at pos and filled. */
  lemma InsertSlot(c: seq<byte>, d: seq<byte>, enc: nat, n: nat, pos: nat, v: int)
    requires pos <= n && |c| == At(n, enc) && |d| == At(n + 1, enc) && |c| <= |d| && d[..|c|] == c && Fits(v, enc)
    ensures At(n, enc) <= |d| && At(pos + 1, enc) + At(n - pos, enc) <= |d| && At(pos, enc) + enc <= |d|
    ensures var m := if pos < n then Moved(d, enc, n, pos, pos + 1) else d;
      Values(Put(m, pos, enc, v), enc, n + 1) == Inserted(Values(c, enc, n), pos, v)
  {
    Spread(pos + 1, n - pos, enc);
    SlotInside(pos, n + 1, enc);
    var m := if pos < n then Moved(d, enc, n, pos, pos + 1) else d;
    PutValues(m, pos, enc, v, n + 1);
    forall i | 0 <= i < n + 1
      ensures Values(m, enc, n + 1)[pos := v][i] == Inserted(Values(c, enc, n), pos, v)[i]
    {
      if i < pos {
        OpenBefore(c, d, m, enc, n, pos, i);
      } else if i > pos {
        OpenAfter(c, d, enc, n, pos, i);
      }
    }
  }

  lemma OpenBefore(c: seq<byte>, d: seq<byte>, m: seq<byte>, enc: nat, n: nat, pos: nat, i: nat)
    requires i < pos <= n && |c| == At(n, enc) && |d| == At(n + 1, enc) && |c| <= |d| && d[..|c|] == c
    requires At(pos + 1, enc) + At(n - pos, enc) <= |d| && m == if pos < n then Moved(d, enc, n, pos, pos + 1) else d
    ensures Values(m, enc, n + 1)[i] == Values(c, enc, n)[i]
  {
    ValuesAt(m, enc, n + 1, i);
    ValuesAt(c, enc, n, i);
    PrefixValues(c, d, enc, n, i);
    if pos < n { MovedBefore(d, enc, n, pos, pos + 1, i); }
  }

  lemma OpenAfter(c: seq<byte>, d: seq<byte>, enc: nat, n: nat, pos: nat, i: nat)
    requires pos < i <= n && |c| == At(n, enc) && |d| == At(n + 1, enc) && |c| <= |d| && d[..|c|] == c
    requires At(pos + 1, enc) + At(n - pos, enc) <= |d|
    ensures Values(Moved(d, enc, n, pos, pos + 1), enc, n + 1)[i] == Values(c, enc, n)[i - 1]
  {
    ValuesAt(Moved(d, enc, n, pos, pos + 1), enc, n + 1, i);
    ValuesAt(c, enc, n, i - 1);
    PrefixValues(c, d, enc, n, i - 1);
    MovedWithin(d, enc, n, pos, pos + 1, i - pos - 1);
  }

  /** A slot taken out. */
  lemma RemoveSlot(c: seq<byte>, enc: nat, n: nat, pos: nat)
    requires pos < n && |c| == At(n, enc)
    ensures At(n - 1, enc) <= |c| && At(pos, enc) + At(n - (pos + 1), enc) <= |c|
    ensures var m := if pos < n - 1 then Moved(c, enc, n, pos + 1, pos) else c;
      Values(m[..At(n - 1, enc)], enc, n - 1) == Removed(Values(c, enc, n), pos)
  {
    SlotInside(n - 1, n, enc);
    Spread(pos, n - 1 - pos, enc);
    var m := if pos < n - 1 then Moved(c, enc, n, pos + 1, pos) else c;
    var d := m[..At(n - 1, enc)];
    forall i | 0 <= i < n - 1
      ensures Values(d, enc, n - 1)[i] == Removed(Values(c, enc, n), pos)[i]
    {
      CloseSlot(c, m, d, enc, n, pos, i);
    }
  }

  lemma CloseSlot(c: seq<byte>, m: seq<byte>, d: seq<byte>, enc: nat, n: nat, pos: nat, i: nat)
    requires pos < n && |c| == At(n, enc) && i < n - 1 && At(pos, enc) + At(n - (pos + 1), enc) <= |c|
    requires m == (if pos < n - 1 then Moved(c, enc, n, pos + 1, pos) else c) && At(n - 1, enc) <= |c| && d == m[..At(n - 1, enc)]
    ensures Values(d, enc, n - 1)[i] == Values(c, enc, n)[if i < pos then i else i + 1]
  {
    ValuesAt(d, enc, n - 1, i);
    PrefixValues(d, m, enc, n - 1, i);
    ValuesAt(c, enc, n, if i < pos then i else i + 1);
    if pos < n - 1 {
      if i < pos { MovedBefore(c, enc, n, pos + 1, pos, i); } else { MovedWithin(c, enc, n, pos + 1, pos, i - pos); }
    }
  }

  /** The numbers from n on have been widened, those below can still be read. */
  predicate Widened(d: seq<byte>, c: seq<byte>, length: nat, n: nat, curenc: nat, newenc: nat, prepend: nat)
    requires n <= length && |c| == At(length, curenc) && prepend <= 1
  {
    && |d| == At(length + 1, newenc) && |c| <= |d|
    && At(n, curenc) <= |c| && d[..At(n, curenc)] == c[..At(n, curenc)]
    && forall i :: n <= i < length ==> Values(d, newenc, length + 1)[i + prepend] == Values(c, curenc, length)[i]
  }

  lemma NewEnd(t: seq<int>, s: seq<int>, prepend: nat, v: int)
    requires |t| == |s| + 1 && prepend <= 1 && forall i :: 0 <= i < |s| ==> t[i + prepend] == s[i]
    ensures prepend == 1 ==> t[0 := v] == [v] + s
    ensures prepend == 0 ==> t[|s| := v] == s + [v]
  {
    assert forall i :: 0 <= i < |s| ==> t[i + prepend] == s[i];
    if prepend == 1 {
      assert forall i :: 1 <= i < |t| ==> t[i] == s[i - 1];
    }
  }

  lemma Wider(n: nat, curenc: nat, newenc: nat)
    requires curenc <= newenc
    ensures At(n, curenc) <= At(n, newenc) <= At(n + 1, newenc)
  {
    assert n * (newenc - curenc) >= 0;
  }

  lemma ReadNarrow(d: seq<byte>, c: seq<byte>, length: nat, n: nat, enc: nat)
    requires n < length && |c| == At(length, enc) && At(n + 1, enc) <= |c| <= |d|
    requires d[..At(n + 1, enc)] == c[..At(n + 1, enc)]
    ensures At(n, enc) + enc <= |d| && Get(d, n, enc) == Values(c, enc, length)[n] && Fits(Get(d, n, enc), enc)
  {
    SlotInside(n, length, enc);
    var a := At(n, enc);
    assert d[a..a + enc] == d[..a + enc][a..] && c[a..a + enc] == c[..a + enc][a..];
    DecodeFits(c[a..a + enc]);
  }

  lemma WriteWide(d: seq<byte>, length: nat, n: nat, curenc: nat, newenc: nat, prepend: nat, v: int)
    requires curenc < newenc && n + prepend < length + 1 && |d| == At(length + 1, newenc) && Fits(v, newenc)
    ensures At(n + prepend, newenc) + newenc <= |d| && At(n, curenc) <= |d|
    ensures var d' := Put(d, n + prepend, newenc, v);
      && d'[..At(n, curenc)] == d[..At(n, curenc)]
      && Values(d', newenc, length + 1) == Values(d, newenc, length + 1)[n + prepend := v]
  {
    SlotInside(n + prepend, length + 1, newenc);
    PutValues(d, n + prepend, newenc, v, length + 1);
    Wider(n, curenc, newenc);
    Spread(n, prepend, newenc);
  }

  /** Slot n is read where the narrow numbers are and written beyond all those still to be read. */
  lemma WidenStep(d: seq<byte>, c: seq<byte>, length: nat, n: nat, curenc: nat, newenc: nat, prepend: nat)
    requires IsWidth(curenc) && IsWidth(newenc) && curenc < newenc && prepend <= 1 && n < length && |c| == At(length, curenc)
    requires Widened(d, c, length, n + 1, curenc, newenc, prepend)
    ensures At(n, curenc) + curenc <= |d| && At(n + prepend, newenc) + newenc <= |d| && Fits(Get(d, n, curenc), newenc)
    ensures Widened(Put(d, n + prepend, newenc, Get(d, n, curenc)), c, length, n, curenc, newenc, prepend)
  {
    ReadNarrow(d, c, length, n, curenc);
    var v := Get(d, n, curenc);
    WiderFits(v, curenc, newenc);
    WriteWide(d, length, n, curenc, newenc, prepend, v);
    SlotInside(n, length, curenc);
    Shorter(d, c, At(n + 1, curenc), At(n, curenc));
  }

  lemma Shorter(d: seq<byte>, c: seq<byte>, long: nat, short: nat)
    requires short <= long <= |c| && long <= |d| && d[..long] == c[..long]
    ensures d[..short] == c[..short]
  {
    assert d[..long][..short] == d[..short] && c[..long][..short] == c[..short];
  }

  lemma WiderFits(v: int, curenc: nat, newenc: nat)
    requires IsWidth(curenc) && IsWidth(newenc) && curenc < newenc && Fits(v, curenc)
    ensures Fits(v, newenc)
  {
    assert Pow256(2) == 0x1_0000 && Pow256(4) == 0x1_0000_0000 && Pow256(8) == 0x1_0000_0000_0000_0000;
  }
}
