/**
 Iterating over a list while deleting from it, and the commands built on that
 (src/vr_quicklist.c, src/vr_t_list.c).
 */
module ListCommands {

  import opened Basics
  import opened Chunks
  import opened Links
  import opened Quicklists
  import opened Removal

  /** The place of no entry. */
  const NONE: int := -1

  class Iterator {
    const list: Quicklist
    const forward: bool
    var current: Ptr
    /** The entry last returned, as a position in the ziplist of `current`, or NONE. */
    var zi: int
    /** The same as an index, negative when going backwards; valid even when `zi` is not. */
    var offset: int
    /** Where `current` is in the order of the nodes. */
    ghost var i: nat

    constructor (list: Quicklist, forward: bool, current: Ptr, offset: int, ghost i: nat)
      ensures this.list == list && this.forward == forward
      ensures this.current == current && this.offset == offset && this.zi == NONE && this.i == i
    {
      this.list, this.forward, this.current, this.offset, this.zi, this.i := list, forward, current, offset, NONE, i;
    }

    ghost predicate Valid()
      reads this, list
    {
      && list.Valid()
      && NONE <= zi
      && (current != NULL ==>
            && i < |list.order| && list.order[i] == current
            && Placed(forward, zi, offset, |list.mem[current].zl|))
    }

    /** The number of entries on the head side of the iterator: going forward the next entry is
        at Pos(), going backward at Pos() - 1. */
    ghost function Pos(): int
      reads this, list
      requires Valid()
    {
      if current == NULL then (if forward then |list.Content()| else 0)
      else Start(Lists(list.mem, list.order), i) + Inner(forward, zi, offset, |list.mem[current].zl|)
    }

    ghost function Ahead(): nat
      reads this, list
      requires Valid()
    {
      if current == NULL then 0 else if forward then |list.order| - i else i + 1
    }

    /** The node of the iterator has no further entry. */
    ghost predicate Exhausted()
      reads this, list
      requires Valid()
    {
      current != NULL && zi == NONE && offset == if forward then |list.mem[current].zl| else -|list.mem[current].zl| - 1
    }

    /** The entry last returned is entry g of the list. */
    ghost predicate Returned(g: int)
      reads this, list
      requires Valid()
    {
      && current != NULL && 0 <= zi < |list.mem[current].zl|
      && 0 <= g < |list.Content()| && list.Content()[g] == list.mem[current].zl[zi]
    }

    /** Moves to the next entry of the current node, if it has one. */
    method Step()
      requires Valid() && current != NULL
      modifies this`zi, this`offset
      ensures Valid()
      ensures zi != NONE ==> Pos() == (if forward then old(Pos()) + 1 else old(Pos()) - 1)
      ensures zi != NONE ==> Returned(if forward then old(Pos()) else Pos())
      ensures zi == NONE ==> Exhausted() && Pos() == old(Pos())
    {
      var zl := list.mem[current].zl;
      if zi == NONE {
        zi := ZlIndex(zl, offset);
      } else if forward {
        zi := if zi + 1 < |zl| then zi + 1 else NONE;
        offset := offset + 1;
      } else {
        zi := zi - 1;
        offset := offset - 1;
      }
      if zi != NONE { ElementAt(Lists(list.mem, list.order), i, zi); }
    }

    /** Moves on to the neighbouring node. */
    method Jump()
      requires Valid() && Exhausted()
      modifies this`current, this`offset, this`i
      ensures Valid() && Pos() == old(Pos()) && Ahead() < old(Ahead())
    {
      assert LinkOk(list.mem, list.order, i);
      if forward {
        Seam(i + 1);
        current, offset, i := list.mem[current].next, 0, i + 1;
      } else {
        Seam(i);
        current, offset := list.mem[current].prev, -1;
        if i > 0 {
          i := i - 1;
        }
      }
    }

    /** Where node k ends and node k + 1 starts. */
    lemma Seam(k: nat)
      requires list.Valid() && k <= |list.order|
      ensures var ls := Lists(list.mem, list.order);
        && (k == 0 ==> Start(ls, k) == 0)
        && (k == |ls| ==> Start(ls, k) == |list.Content()|)
        && (k > 0 ==> Start(ls, k) == Start(ls, k - 1) + |list.mem[list.order[k - 1]].zl|)
    {
      StartBounds(Lists(list.mem, list.order), k);
      if k > 0 { StartBounds(Lists(list.mem, list.order), k - 1); }
    }

    /** Moves to the next entry, crossing to another node when this one has run out. */
    method Next() returns (ok: bool)
      requires Valid()
      modifies this`current, this`zi, this`offset, this`i
      ensures Valid()
      ensures ok == (if forward then old(Pos()) < |list.Content()| else old(Pos()) > 0)
      ensures ok ==> Pos() == (if forward then old(Pos()) + 1 else old(Pos()) - 1)
      ensures ok ==> Returned(if forward then old(Pos()) else Pos())
      ensures !ok ==> Pos() == old(Pos())
      decreases Ahead()
    {
      if current == NULL { return false; }
      PosBounds();
      Step();
      PosBounds();
      if zi != NONE { return true; }
      Jump();
      ok := Next();
    }

    /** Deletes the entry last returned; the iterator then stands where it was. */
    method DelEntry()
      requires Valid() && current != NULL && zi >= 0
      modifies this`current, this`zi, this`offset, this`i
      modifies list`mem, list`head, list`tail, list`len, list`order, list`count
      ensures Valid()
      ensures var g := if forward then old(Pos()) - 1 else old(Pos());
        0 <= g < |old(list.Content())| && list.Content() == Removed(old(list.Content()), g) && Pos() == g
    {
      var prev, next := list.mem[current].prev, list.mem[current].next;
      ghost var pos := zi;
      var gone, g := Remove(prev, next);
      zi := NONE;
      if gone {
        Leave(prev, next, g);
      } else {
        Stay(pos, g);
      }
    }

    /** Takes the entry out of the list, the iterator untouched. */
    method Remove(prev: Ptr, next: Ptr) returns (gone: bool, ghost g: nat)
      requires Valid() && current != NULL && zi >= 0
      requires prev == list.mem[current].prev && next == list.mem[current].next
      modifies list`mem, list`head, list`tail, list`len, list`order, list`count
      ensures list.Valid() && g == (if forward then old(Pos()) - 1 else old(Pos()))
      ensures g < |old(list.Content())| && list.Content() == Removed(old(list.Content()), g)
      ensures gone ==> Vacated(prev, next, g)
      ensures !gone ==> Shortened(zi, g)
    {
      g := Start(Lists(list.mem, list.order), i) + zi;
      gone := list.DelEntryAt(current, zi, i);
    }

    ghost predicate Vacated(prev: Ptr, next: Ptr, g: nat)
      reads this, list
    {
      && list.Valid() && i <= |list.order|
      && prev == At(list.order, i - 1) && next == At(list.order, i)
      && g == Start(Lists(list.mem, list.order), i)
    }

    ghost predicate Shortened(pos: nat, g: nat)
      reads this, list
    {
      && list.Valid() && i < |list.order| && list.order[i] == current
      && pos <= |list.mem[current].zl|
      && offset == (if forward then pos else pos - |list.mem[current].zl| - 1)
      && g == Start(Lists(list.mem, list.order), i) + pos
    }

    /** The current node has lost an entry: the same offset now stands for the next one. */
    lemma Stay(pos: nat, g: nat)
      requires zi == NONE && Shortened(pos, g)
      ensures Valid() && Pos() == g
    {}

    /** The current node is gone: go on with its neighbour. */
    method Leave(prev: Ptr, next: Ptr, ghost g: nat)
      requires zi == NONE && Vacated(prev, next, g)
      modifies this`current, this`offset, this`i
      ensures Valid() && Pos() == g
    {
      Seam(i);
      if forward {
        current, offset := next, 0;
      } else {
        current, offset := prev, -1;
        if i > 0 { i := i - 1; }
      }
    }

    lemma PosBounds()
      requires Valid()
      ensures 0 <= Pos() <= |list.Content()|
    {
      if current != NULL { StartBounds(Lists(list.mem, list.order), i); }
    }
  }

  /** What zi and offset may be in a node with n entries. */
  predicate Placed(forward: bool, zi: int, offset: int, n: nat) {
    if forward then 0 <= offset <= n && (zi >= 0 ==> zi == offset < n)
    else -1 - n <= offset < 0 && (zi >= 0 ==> zi == n + offset)
  }

  function Inner(forward: bool, zi: int, offset: int, n: nat): int {
    if forward then (if zi >= 0 then offset + 1 else offset)
    else (if zi >= 0 then n + offset else n + offset + 1)
  }

  /** The number of occurrences LREM is to remove from a list of n elements. */
  function Limit(toremove: int, n: nat): nat {
    if toremove == 0 then n else if toremove < 0 then -toremove else toremove
  }

  /** One round of the loop: visit an element and delete it if it is x. */
  method LremStep(it: Iterator, x: Value, removed: nat, ghost s: seq<Value>, ghost k: nat)
    returns (ok: bool, removed': nat, ghost k': nat)
    requires it.Valid() && Progress(s, x, it.forward, k, it.list.Content(), it.Pos(), removed)
    modifies it`current, it`zi, it`offset, it`i
    modifies it.list`mem, it.list`head, it.list`tail, it.list`len, it.list`order, it.list`count
    ensures it.Valid() && Progress(s, x, it.forward, k', it.list.Content(), it.Pos(), removed')
    ensures ok == (k < |s|) && k' == (if ok then k + 1 else k)
    ensures removed' == removed || (ok && removed' == removed + 1)
  {
    hide Left, Place, Hits, Flat, Start;
    ghost var content, pos := it.list.Content(), it.Pos();
    removed', k' := removed, k;
    ProgressNext(s, x, it.forward, k, content, pos, removed);
    ok := it.Next();
    if ok {
      k' := k + 1;
      if it.list.mem[it.current].zl[it.zi] == x {
        ProgressDelete(s, x, it.forward, k, content, pos, removed);
        it.DelEntry();
        removed' := removed + 1;
      } else {
        ProgressKeep(s, x, it.forward, k, content, pos, removed);
      }
    }
  }

  /** An iterator on the first entry of a list, or on the last one to go backward. */
  method InitIterator(list: Quicklist, forward: bool) returns (it: Iterator?)
    requires list.Valid()
    ensures it == null <==> list.Content() == []
    ensures it != null ==> fresh(it) && it.list == list && it.forward == forward && it.Valid()
    ensures it != null ==> it.Pos() == if forward then 0 else |list.Content()|
  {
    var found, node, offset, i := list.Index(if forward then 0 else -1);
    if !found { return null; }
    it := new Iterator(list, forward, node, offset, i);
  }

  /** Visits elements until none is left or target of them, if any, have been removed. */
  method LremLoop(it: Iterator, x: Value, target: nat, ghost s: seq<Value>) returns (removed: nat, ghost k: nat)
    requires it.Valid() && it.list.Content() == s && it.Pos() == if it.forward then 0 else |s|
    modifies it`current, it`zi, it`offset, it`i
    modifies it.list`mem, it.list`head, it.list`tail, it.list`len, it.list`order, it.list`count
    ensures it.Valid() && Progress(s, x, it.forward, k, it.list.Content(), it.Pos(), removed)
    ensures (target != 0 && removed == target) || (k == |s| && (target == 0 || removed < target))
  {
    removed, k := 0, 0;
    ProgressStart(s, x, it.forward);
    var more := true;
    while more
      invariant it.Valid() && k <= |s|
      invariant Progress(s, x, it.forward, k, it.list.Content(), it.Pos(), removed)
      invariant if more then target == 0 || removed < target
                else (target != 0 && removed == target) || (k == |s| && (target == 0 || removed < target))
      decreases |s| - k, more
    {
      var ok;
      ok, removed, k := LremStep(it, x, removed, s, k);
      more := ok && !(target != 0 && removed == target);
    }
  }

  /** The LREM command: removes the first (last, for a negative count) occurrences of a value,
      deleting from the list it iterates over. */
  method Lrem(list: Quicklist, x: Value, toremove: int) returns (removed: nat)
    requires list.Valid()
    modifies list`mem, list`head, list`tail, list`len, list`order, list`count
    ensures list.Valid()
    ensures var s := old(list.Content()); var n := Limit(toremove, |s|);
      list.Content() == RemoveSome(s, x, toremove >= 0, n) && removed == Min(n, Count(s, x))
    ensures TakenOut(old(list.Content()), x, toremove >= 0, list.Content(), removed)
    ensures var all := multiset(old(list.Content()))[x];
      removed == if toremove == 0 then all else Min(if toremove < 0 then -toremove else toremove, all)
  {
    hide TakenOut;
    NothingTaken(x, toremove >= 0);
    CountIs(list.Content(), x);
    removed := 0;
    var it := InitIterator(list, toremove >= 0);
    if it != null {
      ghost var s, k := list.Content(), 0;
      removed, k := LremLoop(it, x, if toremove < 0 then -toremove else toremove, s);
      CountBound(s, x);
      HitsBound(s, x, it.forward, k);
      LoopTakesOut(s, x, it.forward, k, list.Content(), it.Pos(), removed);
      ProgressDone(s, x, it.forward, k, list.Content(), it.Pos(), removed, Limit(toremove, |s|));
    }
  }

  // ------------------------------------------------------------------------- LTRIM

  /** The elements from start to end, negative indices counting from the end of the list. */
  function Slice<T>(s: seq<T>, start: int, end: int): seq<T> {
    var from := if start < 0 then (if |s| + start < 0 then 0 else |s| + start) else start;
    var to := if end < 0 then |s| + end else if end >= |s| then |s| - 1 else end;
    if from > to || from >= |s| then [] else s[from..to + 1]
  }

  /**
   What LTRIM leaves of s, index by index. Counted from the front or from the back, start and end
   may be given in four ways; an end past the list means its last element, a start before the list
   its first one. Nothing is left exactly when the start is past the end or past the list.
   */
  ghost predicate Trimmed<T>(s: seq<T>, start: int, end: int, t: seq<T>) {
    var n := |s|;
    && (0 <= start <= end < n ==> t == s[start..end + 1])
    && (0 <= start <= n + end < n ==> t == s[start..n + end + 1])
    && (start < 0 <= n + start <= end < n ==> t == s[n + start..end + 1])
    && (0 <= n + start <= n + end < n ==> t == s[n + start..n + end + 1])
    && (0 <= start < n <= end ==> t == s[start..])
    && (start < 0 <= n + start && n <= end ==> t == s[n + start..])
    && (n + start < 0 <= end < n ==> t == s[..end + 1])
    && (n + start < 0 <= n + end < n ==> t == s[..n + end + 1])
    && (n + start < 0 && n <= end ==> t == s)
    && (t == [] <==>
          n == 0 || start >= n || n + end < 0 || (start > end && (start < 0 <==> end < 0))
          || 0 <= n + end < start || (start < 0 <= end < n + start))
  }

  lemma SliceTrims<T>(s: seq<T>, start: int, end: int)
    ensures Trimmed(s, start, end, Slice(s, start, end))
  {}

  /** What LTRIM takes off at either end. */
  method TrimSizes(llen: nat, start: int, end: int) returns (ltrim: nat, rtrim: nat)
    ensures ltrim + rtrim <= llen
    ensures forall s: seq<Value> :: |s| == llen ==> s[ltrim..llen - rtrim] == Slice(s, start, end)
    ensures forall s: seq<Value> :: |s| == llen ==> Trimmed(s, start, end, s[ltrim..llen - rtrim])
  {
    hide Trimmed;
    forall s: seq<Value> ensures Trimmed(s, start, end, Slice(s, start, end)) { SliceTrims(s, start, end); }
    var from, to := start, end;
    if from < 0 { from := llen + from; }
    if to < 0 { to := llen + to; }
    if from < 0 { from := 0; }
    if from > to || from >= llen {
      ltrim, rtrim := llen, 0;
    } else {
      if to >= llen { to := llen - 1; }
      ltrim, rtrim := from, llen - to - 1;
    }
  }

  /** Deletes the given numbers of elements at the front and at the back. */
  method TrimEnds(list: Quicklist, ltrim: nat, rtrim: nat)
    requires list.Valid() && ltrim + rtrim <= |list.Content()|
    modifies list`mem, list`head, list`tail, list`len, list`order, list`count
    ensures list.Valid() && list.Content() == old(list.Content())[ltrim..|old(list.Content())| - rtrim]
  {
    hide Flat, Start, Chained;
    ghost var s := list.Content();
    var r, i, offset := list.DelRange(0, ltrim);
    assert list.Valid() && list.Content() == s[ltrim..] by {
      if !r { assert ltrim == 0 && s[0..] == s; }
      else { assert s[..0] + s[ltrim..] == s[ltrim..]; }
    }
    var back: int := rtrim;
    r, i, offset := list.DelRange(-back, rtrim);
    assert list.Content() == s[ltrim..|s| - rtrim];
  }

  /** The LTRIM command: what stays is exactly the slice asked for. */
  method Ltrim(list: Quicklist, start: int, end: int)
    requires list.Valid()
    modifies list`mem, list`head, list`tail, list`len, list`order, list`count
    ensures list.Valid() && list.Content() == Slice(old(list.Content()), start, end)
    ensures Trimmed(old(list.Content()), start, end, list.Content())
  {
    hide Flat, Start, Chained, Slice, Trimmed;
    var ltrim, rtrim := TrimSizes(list.count, start, end);
    TrimEnds(list, ltrim, rtrim);
  }

  // ----------------------------------------------------------------------- LINSERT

  /** The place of the first x in s, or |s|. */
  function FirstAt<T(==)>(s: seq<T>, x: T): (i: nat)
    ensures i <= |s| && x !in s[..i] && (i < |s| ==> s[i] == x)
  {
    if s == [] || s[0] == x then 0 else 1 + FirstAt(s[1..], x)
  }

  lemma {:induction false} FirstAtIs<T>(s: seq<T>, x: T, i: nat)
    requires i <= |s| && x !in s[..i] && (i < |s| ==> s[i] == x)
    ensures FirstAt(s, x) == i
  {
    var j := FirstAt(s, x);
    assert forall k :: 0 <= k < i ==> s[..i][k] != x;
    assert forall k :: 0 <= k < j ==> s[..j][k] != x;
  }

  /** Moves to the first element equal to pivot. */
  method Seek(it: Iterator, pivot: Value) returns (ok: bool)
    requires it.Valid() && it.forward && it.Pos() == 0
    modifies it`current, it`zi, it`offset, it`i
    ensures it.Valid() && ok == (pivot in it.list.Content())
    ensures ok ==> it.Returned(FirstAt(it.list.Content(), pivot)) && it.Pos() == FirstAt(it.list.Content(), pivot) + 1
  {
    ghost var s := it.list.Content();
    ghost var seen := 0;
    ok := it.Next();
    while ok && it.list.mem[it.current].zl[it.zi] != pivot
      invariant it.Valid() && seen <= |s| && pivot !in s[..seen]
      invariant if ok then it.Pos() == seen + 1 && it.Returned(seen) else seen == |s|
      decreases |s| - seen
    {
      assert s[..seen + 1] == s[..seen] + [s[seen]];
      seen := seen + 1;
      it.PosBounds();
      ok := it.Next();
    }
    if ok {
      FirstAtIs(s, pivot, seen);
    } else {
      assert s[..seen] == s;
    }
  }

  /** The LINSERT command: next to the first element equal to pivot, or not at all. */
  method Linsert(list: Quicklist, pivot: Value, value: Value, after: bool) returns (inserted: bool)
    requires list.Valid()
    modifies list`mem, list`brk, list`head, list`tail, list`len, list`order, list`count
    ensures list.Valid() && inserted == (pivot in old(list.Content()))
    ensures !inserted ==> list.Content() == old(list.Content())
    ensures inserted ==> var k := FirstAt(old(list.Content()), pivot);
      k < |old(list.Content())| && list.Content() == Inserted(old(list.Content()), if after then k + 1 else k, value)
  {
    var it := InitIterator(list, true);
    if it == null { return false; }
    inserted := Seek(it, pivot);
    if inserted {
      list.Insert(it.current, it.offset, value, after, it.i);
    }
  }

  // ------------------------------------------------------------- a range that goes wrong

  /** Deleting two elements from the third on, in a list of a node with three entries and one
      more, deletes one and counts two: the list no longer adds up. */
  method TornRange(list: Quicklist, a: Value, b: Value, c: Value, d: Value)
    requires list.Valid() && Lists(list.mem, list.order) == [[a, b, c], [d]]
    modifies list`mem, list`head, list`tail, list`len, list`order, list`count
    ensures !list.Valid()
  {
    ghost var ls := Lists(list.mem, list.order);
    StartBounds(ls, 0);
    StartBounds(ls, 1);
    var r, i, offset := list.DelRange(2, 2);
  }
}
