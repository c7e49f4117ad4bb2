/**
 The chunked list behind every list value (src/vr_quicklist.c): a doubly linked list of nodes,
 each holding a ziplist. How large a ziplist is in bytes is an arbitrary function of its entries,
 so every claim holds whichever way the size checks turn out. Nodes are never compressed, as the
 server runs with compress depth 0.
 */
module Quicklists {

  import opened Chunks
  import opened Links

  /** The neighbours and the start of node i, with the node removed or one entry shorter. */
  lemma NodesAfter(ls: seq<seq<Value>>, order: seq<Ptr>, i: nat, pos: nat)
    requires |ls| == |order| && i < |ls| && pos < |ls[i]|
    ensures At(Removed(order, i), i - 1) == At(order, i - 1) && At(Removed(order, i), i) == At(order, i + 1)
    ensures Start(Removed(ls, i), i) == Start(ls, i) && Start(ls[i := Removed(ls[i], pos)], i) == Start(ls, i)
  {
    RemovedAt(order, i, i - 1);
    RemovedAt(order, i, i);
    StartAfter(ls, i, Removed(ls[i], pos));
  }

  predicate Clear(n: nat, offset: int, extent: nat) {
    offset <= 0 || extent >= n || offset + extent <= n
  }

  /** How many entries one round deletes from a node with n of them. */
  function DelCount(n: nat, offset: int, extent: nat): int {
    if offset == 0 && extent >= n then n
    else if offset >= 0 && extent >= n then n - offset
    else if offset < 0 then (if -offset > extent then extent else -offset)
    else extent
  }

  lemma DelFacts(n: nat, p: nat, offset: int, extent: nat)
    requires p < n && extent > 0 && p == if offset >= 0 then offset else n + offset
    ensures var del := DelCount(n, offset, extent);
      && 0 < del <= extent && del <= n && (del == n ==> p == 0)
      && (Clear(n, offset, extent) <==> p + del <= n)
      && (p + del <= n && del < extent ==> p + del == n)
      && (p + del > n ==> del == extent)
  {}

  /** Takes del entries from p on out, as far as they go. */
  function CutRange(zl: seq<Value>, p: nat, del: nat): seq<Value>
    requires p <= |zl|
  {
    if p + del > |zl| then zl[..p] else zl[..p] + zl[p + del..]
  }

  lemma RoundWhole(ls: seq<seq<Value>>, i: nat)
    requires i < |ls|
    ensures var g := Start(ls, i);
      && g + |ls[i]| <= |Flat(ls)| && Flat(Removed(ls, i)) == Flat(ls)[..g] + Flat(ls)[g + |ls[i]|..]
      && Start(Removed(ls, i), i) == g
  {
    RemoveChunk(ls, i);
    StartAfter(ls, i, []);
  }

  lemma RoundPart(ls: seq<seq<Value>>, i: nat, p: nat, del: nat)
    requires i < |ls| && p + del <= |ls[i]|
    ensures var g, ls' := Start(ls, i) + p, ls[i := CutRange(ls[i], p, del)];
      && g + del <= |Flat(ls)| && Flat(ls') == Flat(ls)[..g] + Flat(ls)[g + del..]
      && (p + del == |ls[i]| ==> Start(ls', i + 1) == g)
  {
    hide Flat, Start;
    RemoveInChunk(ls, i, p, p + del);
    StartAfter(ls, i, CutRange(ls[i], p, del));
    StartNext(ls[i := CutRange(ls[i], p, del)], i);
  }

  /** The position an index stands for, negative ones counting from the end; -1 when outside. */
  function ZlIndex(zl: seq<Value>, index: int): int {
    if 0 <= index < |zl| then index
    else if -|zl| <= index < 0 then |zl| + index
    else -1
  }

  /** Deletes num entries from index on, all the rest when num is negative. */
  function ZlDeleteRange(zl: seq<Value>, index: int, num: int): seq<Value> {
    var p := ZlIndex(zl, index);
    if p < 0 then zl
    else if num < 0 || p + num > |zl| then zl[..p]
    else zl[..p] + zl[p + num..]
  }

  const UINT_RANGE: nat := 0x1_0000_0000
  const SIZE_SAFETY_LIMIT: nat := 8192

  class Quicklist {
    var mem: Memory
    /** Addresses from here on have never been used. */
    var brk: Ptr
    var head: Ptr
    var tail: Ptr
    var count: int
    var len: int
    const fill: int
    /** The size in bytes of a ziplist with given entries. */
    const blobLen: seq<Value> -> nat
    /** The nodes from head to tail. */
    ghost var order: seq<Ptr>

    constructor (fill: int, blobLen: seq<Value> -> nat)
      ensures Valid() && Content() == []
    {
      this.fill, this.blobLen := fill, blobLen;
      mem, brk, head, tail, count, len := map[], 1, NULL, NULL, 0, 0;
      order := [];
    }

    ghost predicate Linked()
      reads this
    {
      LinkedList(mem, order, head, tail, len, brk)
    }

    ghost function Content(): seq<Value>
      reads this
      requires Live(mem, order)
    {
      Flat(Lists(mem, order))
    }

    ghost predicate Valid()
      reads this
    {
      Linked() && AllFilled(mem, order) && count == |Content()|
    }

    method CreateNode() returns (n: Ptr)
      requires Linked()
      modifies this`mem, this`brk
      ensures Linked() && n != NULL && n !in old(mem) && n !in order
      ensures mem == old(mem)[n := Node(NULL, NULL, [], 0, 0)]
      ensures Lists(mem, order) == Lists(old(mem), order)
      ensures AllFilled(old(mem), order) ==> AllFilled(mem, order)
    {
      n := brk;
      brk := brk + 1;
      ListsApart(mem, order, n, Node(NULL, NULL, [], 0, 0));
      mem := mem[n := Node(NULL, NULL, [], 0, 0)];
    }

    /** The pointer updates that link a node in after or before another. */
    method LinkAfter(oldNode: Ptr, newNode: Ptr, ghost i: nat)
      requires Live(mem, order) && Chained(mem, order) && i < |order| && order[i] == oldNode
      requires newNode in mem && newNode != NULL && newNode !in order
      modifies this`mem
      ensures LinkedIn(old(mem), mem, order, i + 1, newNode)
    {
      assert LinkOk(mem, order, i);
      mem := SetPrev(mem, newNode, oldNode);
      mem := SetNext(mem, newNode, mem[oldNode].next);
      if mem[oldNode].next != NULL {
        mem := SetPrev(mem, mem[oldNode].next, newNode);
      }
      mem := SetNext(mem, oldNode, newNode);
    }

    method LinkBefore(oldNode: Ptr, newNode: Ptr, ghost i: nat)
      requires Live(mem, order) && Chained(mem, order) && i < |order| && order[i] == oldNode
      requires newNode in mem && newNode != NULL && newNode !in order
      modifies this`mem
      ensures LinkedIn(old(mem), mem, order, i, newNode)
    {
      assert LinkOk(mem, order, i);
      mem := SetNext(mem, newNode, oldNode);
      mem := SetPrev(mem, newNode, mem[oldNode].prev);
      if mem[oldNode].prev != NULL {
        mem := SetNext(mem, mem[oldNode].prev, newNode);
      }
      mem := SetPrev(mem, oldNode, newNode);
    }

    /** Links newNode in after or before oldNode, or as the only node of an empty list. */
    method InsertNode(oldNode: Ptr, newNode: Ptr, after: bool, ghost i: nat)
      requires Linked() && newNode in mem && newNode != NULL && newNode !in order
      requires mem[newNode].prev == NULL && mem[newNode].next == NULL
      requires oldNode == NULL ==> order == [] && i == 0
      requires oldNode != NULL ==> i < |order| && order[i] == oldNode
      modifies this`mem, this`head, this`tail, this`len, this`order
      ensures Linked()
      ensures var k := if oldNode != NULL && after then i + 1 else i;
        && order == Inserted(old(order), k, newNode)
        && Lists(mem, order) == Inserted(Lists(old(mem), old(order)), k, old(mem)[newNode].zl)
      ensures AllFilled(old(mem), old(order)) && Filled(old(mem)[newNode]) ==> AllFilled(mem, order)
    {
      hide Flat, Lists, LinkOk, AllFilled, LinkedIn;
      ghost var k := if oldNode != NULL && after then i + 1 else i;
      if oldNode != NULL {
        AtOnce(order, mem, i, 0);
        AtOnce(order, mem, i, |order| - 1);
      } else {
        LinkedAlone(mem, newNode);
      }
      ghost var h, t := head, tail;
      if after {
        if oldNode != NULL {
          LinkAfter(oldNode, newNode, i);
        }
        if tail == oldNode { tail := newNode; }
      } else {
        if oldNode != NULL {
          LinkBefore(oldNode, newNode, i);
        }
        if head == oldNode { head := newNode; }
      }
      if len == 0 {
        head, tail := newNode, newNode;
      }
      LinkInAll(old(mem), mem, order, k, newNode, h, t, brk, head, tail);
      len := len + 1;
      order := Inserted(order, k, newNode);
    }

    /** Unlinks and frees a node. */
    method DelNode(node: Ptr, ghost i: nat)
      requires Linked() && i < |order| && order[i] == node
      modifies this`mem, this`head, this`tail, this`len, this`count, this`order
      ensures Linked() && order == Removed(old(order), i)
      ensures Lists(mem, order) == Removed(Lists(old(mem), old(order)), i)
      ensures FilledBut(old(mem), old(order), i) ==> AllFilled(mem, order)
      ensures count == old(count) - old(mem)[node].count
    {
      hide Flat, Lists, LinkOk, AllFilled, LinkedOut;
      ghost var h, t := head, tail;
      Unlink(node, i);
      if node == tail { tail := mem[node].prev; }
      if node == head { head := mem[node].next; }
      LinkOutAll(old(mem), mem, order, i, h, t, brk, head, tail);
      count := count - mem[node].count;
      mem := mem - {node};
      len := len - 1;
      order := Removed(order, i);
    }

    method Unlink(node: Ptr, ghost i: nat)
      requires Live(mem, order) && Chained(mem, order) && i < |order| && order[i] == node
      modifies this`mem
      ensures LinkedOut(old(mem), mem, order, i)
      ensures mem[node] == old(mem)[node]
    {
      assert LinkOk(mem, order, i);
      if mem[node].next != NULL { mem := SetPrev(mem, mem[node].next, mem[node].prev); }
      if mem[node].prev != NULL { mem := SetNext(mem, mem[node].prev, mem[node].next); }
    }

    /** Gives a node another ziplist, with its count and size. */
    method Store(node: Ptr, zl: seq<Value>, c: int, ghost i: nat)
      requires Linked() && i < |order| && order[i] == node
      modifies this`mem
      ensures Linked() && Lists(mem, order) == Lists(old(mem), order)[i := zl]
      ensures FilledBut(old(mem), order, i) && c == |zl| > 0 ==> AllFilled(mem, order)
      ensures AllFilled(old(mem), order) ==> FilledBut(mem, order, i)
      ensures mem == old(mem)[node := old(mem)[node].(zl := zl, count := c, sz := blobLen(zl))]
    {
      ListsStore(mem, order, i, mem[node].(zl := zl, count := c, sz := blobLen(zl)));
      mem := mem[node := mem[node].(zl := zl, count := c, sz := blobLen(zl))];
    }

    /** A new node holding one value, not linked yet. */
    method ValueNode(value: Value) returns (n: Ptr)
      requires Linked()
      modifies this`mem, this`brk
      ensures Linked() && n in mem && n != NULL && n !in order
      ensures mem[n].zl == [value] && mem[n].prev == NULL && mem[n].next == NULL && Filled(mem[n])
      ensures Lists(mem, order) == Lists(old(mem), order)
      ensures AllFilled(old(mem), order) ==> AllFilled(mem, order)
    {
      hide Lists, AllFilled, LinkOk, Flat;
      n := CreateNode();
      var filled := Node(NULL, NULL, [value], blobLen([value]), 1);
      ListsApart(mem, order, n, filled);
      assert mem[n := filled].Keys == mem.Keys;
      mem := mem[n := filled];
    }

    /** One more entry in a node. */
    method InsertInNode(node: Ptr, pos: nat, value: Value, ghost i: nat)
      requires Valid() && i < |order| && order[i] == node && pos <= |mem[node].zl|
      modifies this`mem, this`count
      ensures Valid()
      ensures old(InRange(i, pos)) && Content() == Inserted(old(Content()), Start(Lists(old(mem), order), i) + pos, value)
    {
      hide Flat, Start, Chained;
      InsertInChunk(Lists(mem, order), i, pos, value);
      Store(node, Inserted(mem[node].zl, pos, value), mem[node].count + 1, i);
      count := count + 1;
    }

    /** Entry pos of node i lies within the list. */
    ghost predicate InRange(i: nat, pos: nat)
      reads this
    {
      Live(mem, order) && i <= |order| && Start(Lists(mem, order), i) + pos <= |Content()|
    }

    /** A node of its own for a value, next to another node or in an empty list. */
    method InsertAlone(oldNode: Ptr, value: Value, after: bool, ghost i: nat)
      requires Valid()
      requires oldNode == NULL ==> order == [] && i == 0
      requires oldNode != NULL ==> i < |order| && order[i] == oldNode
      modifies this`mem, this`brk, this`head, this`tail, this`len, this`order, this`count
      ensures Valid()
      ensures var k := if oldNode != NULL && after then i + 1 else i;
        old(InRange(k, 0)) && Content() == Inserted(old(Content()), Start(Lists(old(mem), old(order)), k), value)
      ensures |order| == |old(order)| + 1
    {
      hide Flat, Start, Chained;
      ghost var k := if oldNode != NULL && after then i + 1 else i;
      InsertChunk(Lists(mem, order), k, value);
      var n := ValueNode(value);
      InsertNode(oldNode, n, after, i);
      count := count + 1;
    }

    // ----------------------------------------------------------------- size checks

    function SizeMeets(sz: nat): bool
    {
      var levels := [4096, 8192, 16384, 32768, 65536];
      fill < 0 && -fill - 1 < |levels| && sz <= levels[-fill - 1]
    }

    function AllowInsert(node: Ptr, sz: nat): bool
      reads this
      requires node == NULL || node in mem
    {
      node != NULL &&
      var overhead := (if sz < 254 then 1 else 5) + (if sz < 64 then 1 else if sz < 16384 then 2 else 5);
      var newSz := (mem[node].sz + sz + overhead) % UINT_RANGE;
      SizeMeets(newSz) || (newSz <= SIZE_SAFETY_LIMIT && mem[node].count < fill)
    }

    function AllowMerge(a: Ptr, b: Ptr): bool
      reads this
      requires a == NULL || a in mem
      requires b == NULL || b in mem
    {
      a != NULL && b != NULL &&
      var mergeSz := (mem[a].sz + mem[b].sz - 11) % UINT_RANGE;
      SizeMeets(mergeSz) || (mergeSz <= SIZE_SAFETY_LIMIT && mem[a].count + mem[b].count <= fill)
    }

    // ------------------------------------------------------------------------ push

    method PushHead(value: Value)
      requires Valid()
      modifies this`mem, this`brk, this`head, this`tail, this`len, this`order, this`count
      ensures Valid() && Content() == [value] + old(Content())
      ensures |order| == |old(order)| + if old(AllowInsert(head, |value|)) then 0 else 1
    {
      if AllowInsert(head, |value|) {
        InsertInNode(head, 0, value, 0);
      } else {
        InsertAlone(head, value, false, 0);
      }
    }

    method PushTail(value: Value)
      requires Valid()
      modifies this`mem, this`brk, this`head, this`tail, this`len, this`order, this`count
      ensures Valid() && Content() == old(Content()) + [value]
      ensures |order| == |old(order)| + if old(AllowInsert(tail, |value|)) then 0 else 1
    {
      ghost var last: nat := if order == [] then 0 else |order| - 1;
      if order != [] { LastChunk(Lists(mem, order)); }
      if AllowInsert(tail, |value|) {
        InsertInNode(tail, |mem[tail].zl|, value, last);
      } else {
        InsertAlone(tail, value, true, last);
      }
    }

    // ---------------------------------------------------------------- split and merge

    /** Splits the entries of a node in two; the second part goes to a new node. Inserting before
        an entry leaves that entry in the old node, unlike the comment over the source says. */
    method SplitNode(node: Ptr, offset: nat, after: bool, ghost i: nat) returns (n: Ptr)
      requires Linked() && AllFilled(mem, order)
      requires i < |order| && order[i] == node && offset < |mem[node].zl|
      modifies this`mem, this`brk
      ensures Linked() && n in mem && n != NULL && n !in order && node in mem
      ensures AllFilled(mem, order) && mem[n].prev == NULL && mem[n].next == NULL
      ensures var zl := old(mem)[node].zl; var cut := if after then offset + 1 else offset;
        && mem[node].zl == (if after then zl[..cut] else zl[cut..])
        && mem[n].zl == (if after then zl[cut..] else zl[..cut])
        && mem[n].count == |mem[n].zl|
        && Lists(mem, order) == Lists(old(mem), order)[i := mem[node].zl]
    {
      hide Flat, Chained;
      var zl := mem[node].zl;
      n := CreateNode();
      var origStart := if after then offset + 1 else 0;
      var origExtent := if after then -1 else offset;
      var newStart := if after then 0 else offset;
      var newExtent := if after then offset + 1 else -1;
      var kept, moved := ZlDeleteRange(zl, origStart, origExtent), ZlDeleteRange(zl, newStart, newExtent);
      Store(node, kept, |kept|, i);
      ListsApart(mem, order, n, Node(NULL, NULL, moved, blobLen(moved), |moved|));
      mem := mem[n := Node(NULL, NULL, moved, blobLen(moved), |moved|)];
    }

    /** Joins two neighbouring nodes; which of them survives depends on their sizes. */
    method ZiplistMerge(a: Ptr, b: Ptr, ghost i: nat) returns (keep: Ptr)
      requires Valid() && i + 1 < |order| && order[i] == a && order[i + 1] == b
      modifies this`mem, this`head, this`tail, this`len, this`count, this`order
      ensures Valid() && Content() == old(Content())
      ensures order == Removed(old(order), i) || order == Removed(old(order), i + 1)
      ensures |order| == |old(order)| - 1 && order[i] == keep
    {
      hide Flat, Start, Chained;
      MergeChunks(Lists(mem, order), i);
      var zl := mem[a].zl + mem[b].zl;
      var keepFirst: bool := *;
      ghost var k;
      var nokeep;
      if keepFirst {
        keep, nokeep, k := a, b, i;
      } else {
        keep, nokeep, k := b, a, i + 1;
      }
      Store(keep, zl, |zl|, k);
      ghost var m := mem;
      ListsStore(mem, order, if keepFirst then i + 1 else i, mem[nokeep].(count := 0));
      mem := mem[nokeep := mem[nokeep].(count := 0)];
      DelNode(nokeep, if keepFirst then i + 1 else i);
    }

    /** Tries to merge the two nodes before center. */
    method MergeBehind(center: Ptr, prev: Ptr, prevPrev: Ptr, ghost i: nat) returns (ghost j: nat)
      requires Valid() && i < |order| && order[i] == center
      requires prev == At(order, i - 1) && prevPrev == At(order, i - 2)
      modifies this`mem, this`head, this`tail, this`len, this`count, this`order
      ensures Valid() && Content() == old(Content())
      ensures j < |order| && order[j] == center
      ensures At(order, j + 1) == old(At(order, i + 1)) && At(order, j + 2) == old(At(order, i + 2))
      ensures |order| == |old(order)| - if old(AllowMerge(prev, prevPrev)) then 1 else 0
    {
      hide Flat, Lists, LinkOk, SizeMeets;
      j := i;
      if AllowMerge(prev, prevPrev) {
        var keep := ZiplistMerge(prevPrev, prev, i - 2);
        j := i - 1;
      }
    }

    /** Tries to merge the two nodes after center. */
    method MergeAhead(center: Ptr, next: Ptr, nextNext: Ptr, ghost i: nat)
      requires Valid() && i < |order| && order[i] == center
      requires next == At(order, i + 1) && nextNext == At(order, i + 2)
      modifies this`mem, this`head, this`tail, this`len, this`count, this`order
      ensures Valid() && Content() == old(Content())
      ensures i < |order| && order[i] == center
      ensures |order| == |old(order)| - if old(AllowMerge(next, nextNext)) then 1 else 0
    {
      if AllowMerge(next, nextNext) {
        var keep := ZiplistMerge(next, nextNext, i + 1);
      }
    }

    /** Tries to merge center with the node before it, then the result with the node after it. */
    method MergeCenter(center: Ptr, ghost i: nat)
      requires Valid() && i < |order| && order[i] == center
      modifies this`mem, this`head, this`tail, this`len, this`count, this`order
      ensures Valid() && Content() == old(Content()) && |order| <= |old(order)|
      ensures old(AllowMerge(center, At(order, i - 1))) || old(AllowMerge(center, At(order, i + 1))) ==>
                |order| < |old(order)|
    {
      assert LinkOk(mem, order, i);
      var target := center;
      ghost var j := i;
      if AllowMerge(center, mem[center].prev) {
        target := ZiplistMerge(mem[center].prev, center, i - 1);
        j := i - 1;
      }
      assert LinkOk(mem, order, j);
      if AllowMerge(target, mem[target].next) {
        var keep := ZiplistMerge(target, mem[target].next, j);
      }
    }

    method MergeNodes(center: Ptr, ghost i: nat)
      requires Valid() && i < |order| && order[i] == center
      modifies this`mem, this`head, this`tail, this`len, this`count, this`order
      ensures Valid() && Content() == old(Content()) && |order| <= |old(order)|
      ensures old(AllowMerge(At(order, i - 1), At(order, i - 2))) ==> |order| < |old(order)|
    {
      var prev, prevPrev, next, nextNext := NULL, NULL, NULL, NULL;
      assert LinkOk(mem, order, i);
      if mem[center].prev != NULL {
        assert LinkOk(mem, order, i - 1);
        prev := mem[center].prev;
        prevPrev := mem[prev].prev;
      }
      if mem[center].next != NULL {
        assert LinkOk(mem, order, i + 1);
        next := mem[center].next;
        nextNext := mem[next].next;
      }
      ghost var j := MergeBehind(center, prev, prevPrev, i);
      MergeAhead(center, next, nextNext, j);
      MergeCenter(center, j);
    }

    // ---------------------------------------------------------------------- insert

    /** Pushes a value onto a node that is not linked yet. */
    method PushApart(n: Ptr, value: Value, front: bool)
      requires Linked() && n in mem && n !in order
      modifies this`mem
      ensures Linked() && n in mem && mem.Keys == old(mem.Keys)
      ensures mem[n].zl == (if front then [value] + old(mem)[n].zl else old(mem)[n].zl + [value])
      ensures mem[n].count == old(mem)[n].count + 1
      ensures mem[n].prev == old(mem)[n].prev && mem[n].next == old(mem)[n].next
      ensures Lists(mem, order) == Lists(old(mem), order)
      ensures AllFilled(old(mem), order) ==> AllFilled(mem, order)
    {
      hide Flat, Chained;
      var zl := if front then [value] + mem[n].zl else mem[n].zl + [value];
      ListsApart(mem, order, n, mem[n].(zl := zl, count := mem[n].count + 1, sz := blobLen(zl)));
      mem := mem[n := mem[n].(zl := zl, count := mem[n].count + 1, sz := blobLen(zl))];
    }

    /** Cuts a node at an entry and puts the value at the seam, in the new node. */
    method SplitAround(node: Ptr, offset: nat, value: Value, after: bool, ghost i: nat)
      requires Linked() && AllFilled(mem, order) && i < |order| && order[i] == node && offset < |mem[node].zl|
      modifies this`mem, this`brk, this`head, this`tail, this`len, this`order
      ensures Linked() && AllFilled(mem, order)
      ensures (if after then i else i + 1) < |order| && order[if after then i else i + 1] == node
      ensures var zl := old(mem)[node].zl; var ls := Lists(old(mem), old(order));
        Lists(mem, order) ==
          if after then Inserted(ls[i := zl[..offset + 1]], i + 1, [value] + zl[offset + 1..])
          else Inserted(ls[i := zl[offset..]], i, zl[..offset] + [value])
    {
      hide Flat, Chained;
      var n := SplitNode(node, offset, after, i);
      PushApart(n, value, after);
      InsertNode(node, n, after, i);
    }

    /** A full node: split it at the entry, put the value at the seam and merge what allows it. */
    method InsertSplit(node: Ptr, offset: nat, value: Value, after: bool, ghost i: nat)
      requires Valid() && i < |order| && order[i] == node && offset < |mem[node].zl|
      modifies this`mem, this`brk, this`head, this`tail, this`len, this`order, this`count
      ensures Valid()
      ensures var pos := if after then offset + 1 else offset;
        old(InRange(i, pos)) && Content() == Inserted(old(Content()), Start(Lists(old(mem), old(order)), i) + pos, value)
    {
      hide Flat, Start, Chained;
      SplitInsert(Lists(mem, order), i, if after then offset + 1 else offset, value);
      SplitAround(node, offset, value, after, i);
      count := count + 1;
      MergeNodes(node, if after then i else i + 1);
    }

    method InsertFirst(value: Value, after: bool)
      requires Valid() && order == []
      modifies this`mem, this`brk, this`head, this`tail, this`len, this`order, this`count
      ensures Valid() && Content() == [value]
    {
      InsertAlone(NULL, value, after, 0);
    }

    /** Inserts a value after or before the entry at a non-negative offset of a node, or into an
        empty list. An entry's offset is always below the count of its node, so the test of the
        source for an entry "at tail" never succeeds and the branches behind it are not here. */
    method Insert(node: Ptr, offset: nat, value: Value, after: bool, ghost i: nat)
      requires Valid()
      requires node == NULL ==> order == [] && i == 0
      requires node != NULL ==> i < |order| && order[i] == node && offset < |mem[node].zl|
      modifies this`mem, this`brk, this`head, this`tail, this`len, this`order, this`count
      ensures Valid()
      ensures node == NULL ==> Content() == [value]
      ensures node != NULL ==>
        var pos := if after then offset + 1 else offset;
        old(InRange(i, pos)) && Content() == Inserted(old(Content()), Start(Lists(old(mem), old(order)), i) + pos, value)
    {
      hide Flat, Start, SizeMeets;
      if node == NULL {
        InsertFirst(value, after);
        return;
      }
      assert LinkOk(mem, order, i);
      var full := !AllowInsert(node, |value|);
      var atHead := !after && offset == 0;
      var prev := mem[node].prev;
      var fullPrev := atHead && !AllowInsert(prev, |value|);
      if !full {
        InsertInNode(node, if after then offset + 1 else offset, value, i);
      } else if atHead && prev != NULL && !fullPrev {
        StartNext(Lists(mem, order), i - 1);
        InsertInNode(prev, |mem[prev].zl|, value, i - 1);
      } else if atHead && prev != NULL && fullPrev {
        InsertAlone(node, value, after, i);
      } else {
        InsertSplit(node, offset, value, after, i);
      }
    }

    // ----------------------------------------------------------- lookup and deletion

    /** Node and offset of an index; negative ones count from the tail and give an offset that
        counts from the end of the node. */
    method Index(idx: int) returns (found: bool, node: Ptr, offset: int, ghost i: nat)
      requires Valid()
      ensures found <==> -|Content()| <= idx < |Content()|
      ensures found ==> i < |order| && order[i] == node && ZlIndex(mem[node].zl, offset) >= 0
      ensures found ==> Start(Lists(mem, order), i) + ZlIndex(mem[node].zl, offset) == if idx >= 0 then idx else |Content()| + idx
      ensures found ==> (offset >= 0 <==> idx >= 0)
    {
      found, node, offset, i := false, NULL, 0, 0;
      var index := if idx < 0 then -idx - 1 else idx;
      if index >= count { return; }
      found := true;
      var accum;
      if idx >= 0 {
        node, accum, i := Forward(index);
        offset := index - accum;
      } else {
        node, accum, i := Backward(index);
        offset := -index - 1 + accum;
      }
    }

    method Forward(index: nat) returns (node: Ptr, accum: nat, ghost i: nat)
      requires Valid() && index < |Content()|
      ensures i < |order| && order[i] == node
      ensures accum == Start(Lists(mem, order), i) <= index < accum + |mem[node].zl|
    {
      node, accum, i := head, 0, 0;
      ghost var ls := Lists(mem, order);
      StartBounds(ls, 0);
      while node != NULL
        invariant i <= |order| && node == At(order, i) && accum == Start(ls, i) <= index
        invariant i == |order| ==> accum == |Content()|
        decreases |order| - i
      {
        StartBounds(ls, i);
        if accum + mem[node].count > index { return; }
        assert LinkOk(mem, order, i);
        accum := accum + mem[node].count;
        node := mem[node].next;
        i := i + 1;
        StartBounds(ls, i);
      }
    }

    method Backward(index: nat) returns (node: Ptr, accum: nat, ghost i: nat)
      requires Valid() && index < |Content()|
      ensures i < |order| && order[i] == node
      ensures accum == |Content()| - Start(Lists(mem, order), i + 1) <= index < accum + |mem[node].zl|
      ensures Start(Lists(mem, order), i + 1) == Start(Lists(mem, order), i) + |mem[node].zl|
    {
      node, accum := tail, 0;
      ghost var ls, j := Lists(mem, order), |order| - 1;
      StartBounds(ls, |order|);
      StartBounds(ls, 0);
      i := 0;
      while node != NULL
        invariant -1 <= j < |order| && node == At(order, j)
        invariant accum == |Content()| - Start(ls, j + 1) <= index
        decreases j
      {
        StartBounds(ls, j);
        i := j;
        if accum + mem[node].count > index { return; }
        assert LinkOk(mem, order, j);
        accum := accum + mem[node].count;
        node := mem[node].prev;
        j := j - 1;
      }
    }

    /** Deletes one entry of a node, and the node with its last entry. */
    method DelIndex(node: Ptr, pos: nat, ghost i: nat) returns (gone: bool)
      requires Valid() && i < |order| && order[i] == node && pos < |mem[node].zl|
      modifies this`mem, this`head, this`tail, this`len, this`order, this`count
      ensures Valid() && gone == (|old(mem)[node].zl| == 1)
      ensures old(InRange(i, pos + 1)) && Content() == Removed(old(Content()), Start(Lists(old(mem), old(order)), i) + pos)
      ensures gone ==> order == Removed(old(order), i) && Lists(mem, order) == Removed(Lists(old(mem), old(order)), i)
      ensures !gone ==> order == old(order) && Lists(mem, order) == Lists(old(mem), order)[i := Removed(old(mem)[node].zl, pos)]
    {
      hide Flat, Start, Chained;
      RemoveInChunk(Lists(mem, order), i, pos, pos + 1);
      RemoveChunk(Lists(mem, order), i);
      var zl := Removed(mem[node].zl, pos);
      var c := mem[node].count - 1;
      gone := c == 0;
      Store(node, zl, c, i);
      if c == 0 {
        assert Removed(Lists(mem, order), i) == Removed(Lists(old(mem), order), i);
        DelNode(node, i);
      }
      count := count - 1;
    }

    /** Deletes one entry, with what an iterator on that entry needs to know afterwards. */
    method DelEntryAt(node: Ptr, pos: nat, ghost i: nat) returns (gone: bool)
      requires Valid() && i < |order| && order[i] == node && pos < |mem[node].zl|
      modifies this`mem, this`head, this`tail, this`len, this`order, this`count
      ensures Valid() && i <= |order| && Start(Lists(mem, order), i) == Start(Lists(old(mem), old(order)), i)
      ensures old(InRange(i, pos + 1)) && Content() == Removed(old(Content()), Start(Lists(mem, order), i) + pos)
      ensures gone ==> pos == 0 && At(order, i - 1) == old(mem[node].prev) && At(order, i) == old(mem[node].next)
      ensures !gone ==> i < |order| && order[i] == node && |mem[node].zl| == |old(mem)[node].zl| - 1
    {
      hide Flat, Start;
      assert LinkOk(mem, order, i);
      NodesAfter(Lists(mem, order), order, i, pos);
      gone := DelIndex(node, pos, i);
      if !gone {
        assert Lists(mem, order)[i] == mem[node].zl;
      }
    }

    method Pop(fromHead: bool) returns (found: bool, value: Value)
      requires Valid()
      modifies this`mem, this`head, this`tail, this`len, this`order, this`count
      ensures Valid() && found == (old(Content()) != [])
      ensures found && fromHead ==> [value] + Content() == old(Content())
      ensures found && !fromHead ==> Content() + [value] == old(Content())
      ensures !found ==> Content() == old(Content())
    {
      found, value := false, [];
      if count == 0 { return; }
      var node := if fromHead then head else tail;
      ghost var i := if fromHead then 0 else |order| - 1;
      LastChunk(Lists(mem, order));
      StartBounds(Lists(mem, order), 0);
      var pos := if fromHead then 0 else |mem[node].zl| - 1;
      ElementAt(Lists(mem, order), i, pos);
      value := mem[node].zl[pos];
      found := true;
      var gone := DelIndex(node, pos, i);
    }

    // ------------------------------------------------------------------- delete range

    /** Lowers the count of a node by del and takes as many entries from p on out of its ziplist,
        as far as they go. */
    method ShrinkNode(node: Ptr, p: nat, del: nat, ghost i: nat)
      requires Valid() && i < |order| && order[i] == node && p < |mem[node].zl| && 0 < del < |mem[node].zl|
      modifies this`mem, this`count
      ensures Valid() <==> p + del <= |old(mem)[node].zl|
      ensures Valid() ==> Start(Lists(old(mem), order), i) + p + del <= |old(Content())|
      ensures Valid() ==>
        var g := Start(Lists(old(mem), order), i) + p; Content() == old(Content())[..g] + old(Content())[g + del..]
      ensures Valid() && p + del == |old(mem)[node].zl| ==>
        Start(Lists(mem, order), i + 1) == Start(Lists(old(mem), order), i) + p
    {
      hide Flat, Start, Chained;
      var zl := mem[node].zl;
      ghost var ls := Lists(mem, order);
      if p + del <= |zl| { RoundPart(ls, i, p, del); }
      Store(node, CutRange(zl, p, del), mem[node].count - del, i);
      count := count - del;
      assert Lists(mem, order)[i] == CutRange(zl, p, del);
    }

    /** Takes a whole node out. */
    method DropNode(node: Ptr, ghost i: nat)
      requires Valid() && i < |order| && order[i] == node
      modifies this`mem, this`head, this`tail, this`len, this`order, this`count
      ensures Valid() && i <= |order| && At(order, i) == old(mem)[node].next
      ensures var g, n := Start(Lists(old(mem), old(order)), i), |old(mem)[node].zl|;
        && g + n <= |old(Content())| && Content() == old(Content())[..g] + old(Content())[g + n..]
        && Start(Lists(mem, order), i) == g
    {
      hide Flat, Start;
      RoundWhole(Lists(mem, order), i);
      assert LinkOk(mem, order, i);
      RemovedAt(order, i, i);
      DelNode(node, i);
    }

    /** One round of a range deletion, on the part of the range that lies in one node. It goes
        wrong exactly when the range starts inside the node, is shorter than the node and yet runs
        past its end: then more entries are counted as deleted than there were. */
    method DelRound(node: Ptr, offset: int, extent: nat, ghost i: nat) returns (del: nat, ghost j: nat)
      requires Valid() && i < |order| && order[i] == node
      requires ZlIndex(mem[node].zl, offset) >= 0 && extent > 0
      modifies this`mem, this`head, this`tail, this`len, this`order, this`count
      ensures 0 < del <= extent
      ensures Valid() <==> Clear(|old(mem)[node].zl|, offset, extent)
      ensures !Valid() ==> del == extent
      ensures Valid() ==> var g := Start(Lists(old(mem), old(order)), i) + ZlIndex(old(mem)[node].zl, offset);
        && g + del <= |old(Content())| && Content() == old(Content())[..g] + old(Content())[g + del..]
        && (del < extent ==> j <= |order| && At(order, j) == old(mem)[node].next && Start(Lists(mem, order), j) == g)
    {
      hide Flat, Start;
      var n, p := mem[node].count, ZlIndex(mem[node].zl, offset);
      del := DelCount(n, offset, extent);
      DelFacts(n, p, offset, extent);
      if del == n {
        j := i;
        DropNode(node, i);
      } else {
        j := i + 1;
        assert LinkOk(mem, order, i);
        ShrinkNode(node, p, del, i);
      }
    }

    /** The rounds after the first one: the range starts where a node does. */
    method DelRest(first: Ptr, extent: nat, ghost i: nat)
      requires Valid() && i <= |order| && At(order, i) == first
      requires Start(Lists(mem, order), i) + extent <= |Content()|
      modifies this`mem, this`head, this`tail, this`len, this`order, this`count
      ensures Valid()
      ensures var g := Start(Lists(old(mem), old(order)), i); Content() == old(Content())[..g] + old(Content())[g + extent..]
    {
      hide Flat, Start, Chained;
      ghost var g, s, j := Start(Lists(mem, order), i), Content(), i;
      var node, left := first, extent;
      CutNothing(s, g);
      while left > 0
        invariant Valid() && 0 <= left <= extent && Content() == s[..g] + s[g + (extent - left)..]
        invariant left > 0 ==> 0 <= j <= |order| && At(order, j) == node && Start(Lists(mem, order), j) == g
      {
        StartBounds(Lists(mem, order), j);
        var next := mem[node].next;
        var del;
        ghost var gone := extent - left;
        del, j := DelRound(node, 0, left, j);
        CutTwice(s, g, gone, del);
        node, left := next, left - del;
      }
    }

    /** All rounds of a range deletion that starts at an entry of a node. */
    method DelRounds(node: Ptr, offset: int, extent: nat, ghost i: nat)
      requires Valid() && i < |order| && order[i] == node
      requires ZlIndex(mem[node].zl, offset) >= 0 && extent > 0
      requires Start(Lists(mem, order), i) + ZlIndex(mem[node].zl, offset) + extent <= |Content()|
      modifies this`mem, this`head, this`tail, this`len, this`order, this`count
      ensures Valid() <==> Clear(|old(mem)[node].zl|, offset, extent)
      ensures Valid() ==> var g := Start(Lists(old(mem), old(order)), i) + ZlIndex(old(mem)[node].zl, offset);
        Content() == old(Content())[..g] + old(Content())[g + extent..]
    {
      hide Flat, Start, Chained, Clear;
      var next := mem[node].next;
      ghost var s, g := Content(), Start(Lists(mem, order), i) + ZlIndex(mem[node].zl, offset);
      var del, j := DelRound(node, offset, extent, i);
      if del < extent {
        DelRest(next, extent - del, j);
        CutTwice(s, g, del, extent - del);
      }
    }

    /** Deletes a range. Whether the list survives depends only on the node the start falls in: it
        does if and only if the first round is clear. */
    method DelRange(start: int, cnt: int) returns (r: bool, ghost i: nat, ghost offset: int)
      requires Valid()
      modifies this`mem, this`head, this`tail, this`len, this`order, this`count
      ensures r == (cnt > 0 && -|old(Content())| <= start < |old(Content())|)
      ensures !r ==> Valid() && Content() == old(Content())
      ensures r ==> var s := old(Content()); var g := if start >= 0 then start else |s| + start;
        var extent := if cnt > |s| - g then |s| - g else cnt; var ls := Lists(old(mem), old(order));
        && i < |ls| && ZlIndex(ls[i], offset) >= 0 && Start(ls, i) + ZlIndex(ls[i], offset) == g
        && (offset >= 0 <==> start >= 0)
        && (Valid() <==> Clear(|ls[i]|, offset, extent))
        && (Valid() ==> Content() == s[..g] + s[g + extent..])
    {
      hide Flat, Start, Chained, Clear;
      r, i, offset := false, 0, 0;
      if cnt <= 0 { return; }
      var extent := cnt;
      if 0 <= start <= count && extent > count - start {
        extent := count - start;
      } else if start < 0 && extent > -start {
        extent := -start;
      }
      var found, node, off, k := Index(start);
      if !found { return; }
      r, i, offset := true, k, off;
      DelRounds(node, off, extent, i);
    }
  }
}
