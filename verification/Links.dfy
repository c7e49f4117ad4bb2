/**
 Doubly linked nodes in memory, and the order they are linked in.
 */
module Links {

  import opened Basics
  import opened Bitwise
  import opened Chunks

  type Value = seq<byte>

  /** An address; 0 is NULL. */
  type Ptr = nat

  const NULL: Ptr := 0

  /** A list node with its ziplist, taken as the sequence of its entries. */
  datatype Node = Node(prev: Ptr, next: Ptr, zl: seq<Value>, sz: nat, count: int)

  type Memory = map<Ptr, Node>

  /** Distinct nodes that live in memory. */
  predicate Live(m: Memory, order: seq<Ptr>) {
    && (forall i :: 0 <= i < |order| ==> order[i] in m && order[i] != NULL)
    && (forall i, j :: 0 <= i < j < |order| ==> order[i] != order[j])
  }

  function At(order: seq<Ptr>, i: int): Ptr {
    if 0 <= i < |order| then order[i] else NULL
  }

  predicate LinkOk(m: Memory, order: seq<Ptr>, i: nat)
    requires i < |order| && order[i] in m
  {
    m[order[i]].prev == At(order, i - 1) && m[order[i]].next == At(order, i + 1)
  }

  /** Every node of the order points to its neighbours. */
  predicate Chained(m: Memory, order: seq<Ptr>)
    requires Live(m, order)
  {
    forall i :: 0 <= i < |order| ==> LinkOk(m, order, i)
  }

  function SetPrev(m: Memory, p: Ptr, q: Ptr): Memory
    requires p in m
  {
    m[p := m[p].(prev := q)]
  }

  function SetNext(m: Memory, p: Ptr, q: Ptr): Memory
    requires p in m
  {
    m[p := m[p].(next := q)]
  }

  /** The node is the same but for its links. */
  predicate SameBut(x: Node, y: Node, prev: Ptr, next: Ptr) {
    y == x.(prev := prev, next := next)
  }

  /** m' is m with node n linked in at position k: three nodes change. */
  predicate LinkedIn(m: Memory, m': Memory, order: seq<Ptr>, k: nat, n: Ptr) {
    && m'.Keys == m.Keys
    && forall p :: p in m ==> SameBut(m[p], m'[p],
         if p == n then At(order, k - 1) else if p == At(order, k) && p != NULL then n else m[p].prev,
         if p == n then At(order, k) else if p == At(order, k - 1) && p != NULL then n else m[p].next)
  }

  /** The first node of a list has no neighbours to tell. */
  lemma LinkedAlone(m: Memory, n: Ptr)
    requires n in m && m[n].prev == NULL && m[n].next == NULL
    ensures LinkedIn(m, m, [], 0, n)
  {}

  lemma InsertedAt(order: seq<Ptr>, k: nat, n: Ptr, i: int)
    requires k <= |order|
    ensures i < k ==> At(Inserted(order, k, n), i) == At(order, i)
    ensures i == k ==> At(Inserted(order, k, n), i) == n
    ensures i > k ==> At(Inserted(order, k, n), i) == At(order, i - 1)
  {}

  lemma InsertedLive(m: Memory, order: seq<Ptr>, k: nat, n: Ptr)
    requires Live(m, order) && k <= |order| && n in m && n != NULL && n !in order
    ensures Live(m, Inserted(order, k, n))
  {
    var o := Inserted(order, k, n);
    forall i, j | 0 <= i < j < |o|
      ensures o[i] != o[j]
    {
      InsertedAt(order, k, n, i);
      InsertedAt(order, k, n, j);
    }
    forall i | 0 <= i < |o|
      ensures o[i] in m && o[i] != NULL
    {
      InsertedAt(order, k, n, i);
    }
  }

  lemma AtOnce(order: seq<Ptr>, m: Memory, i: nat, k: int)
    requires Live(m, order) && i < |order|
    ensures order[i] == At(order, k) <==> i == k
  {}

  lemma LinkInEach(m: Memory, m': Memory, order: seq<Ptr>, k: nat, n: Ptr, i: nat)
    requires Live(m, order) && Chained(m, order) && k <= |order| && n in m && n != NULL && n !in order
    requires i < |order| && LinkedIn(m, m', order, k, n)
    ensures var o := Inserted(order, k, n);
      && m'[order[i]].prev == At(o, if i < k then i - 1 else i)
      && m'[order[i]].next == At(o, if i < k then i + 1 else i + 2)
  {
    var p := order[i];
    assert p in m && p != n && LinkOk(m, order, i);
    AtOnce(order, m, i, k);
    AtOnce(order, m, i, k - 1);
    InsertedAt(order, k, n, if i < k then i - 1 else i);
    InsertedAt(order, k, n, if i < k then i + 1 else i + 2);
  }

  lemma LinkInChained(m: Memory, m': Memory, order: seq<Ptr>, k: nat, n: Ptr)
    requires Live(m, order) && Chained(m, order) && k <= |order| && n in m && n != NULL && n !in order
    requires LinkedIn(m, m', order, k, n)
    ensures Live(m', Inserted(order, k, n)) && Chained(m', Inserted(order, k, n))
  {
    var o := Inserted(order, k, n);
    InsertedLive(m', order, k, n);
    forall i | 0 <= i < |o|
      ensures LinkOk(m', o, i)
    {
      InsertedAt(order, k, n, i);
      if i < k {
        LinkInEach(m, m', order, k, n, i);
      } else if i > k {
        LinkInEach(m, m', order, k, n, i - 1);
      } else {
        InsertedAt(order, k, n, i - 1);
        InsertedAt(order, k, n, i + 1);
      }
    }
  }

  /** m' is m with node k unlinked: its two neighbours change. */
  predicate LinkedOut(m: Memory, m': Memory, order: seq<Ptr>, k: nat) {
    && m'.Keys == m.Keys
    && forall p :: p in m ==> SameBut(m[p], m'[p],
         if p == At(order, k + 1) && p != NULL then At(order, k - 1) else m[p].prev,
         if p == At(order, k - 1) && p != NULL then At(order, k + 1) else m[p].next)
  }

  lemma RemovedAt(order: seq<Ptr>, k: nat, i: int)
    requires k < |order|
    ensures i < k ==> At(Removed(order, k), i) == At(order, i)
    ensures i >= k ==> At(Removed(order, k), i) == At(order, i + 1)
  {}

  lemma RemovedLive(m: Memory, order: seq<Ptr>, k: nat)
    requires Live(m, order) && k < |order|
    ensures Live(m, Removed(order, k)) && order[k] !in Removed(order, k)
  {
    var o := Removed(order, k);
    forall i, j | 0 <= i < j < |o|
      ensures o[i] != o[j]
    {
      RemovedAt(order, k, i);
      RemovedAt(order, k, j);
    }
    forall i | 0 <= i < |o|
      ensures o[i] in m && o[i] != NULL && o[i] != order[k]
    {
      RemovedAt(order, k, i);
    }
  }

  lemma LinkOutEach(m: Memory, m': Memory, order: seq<Ptr>, k: nat, i: nat)
    requires Live(m, order) && Chained(m, order) && k < |order| && LinkedOut(m, m', order, k)
    requires i < |order| && i != k
    ensures var o, j := Removed(order, k), if i < k then i else i - 1;
      m'[order[i]].prev == At(o, j - 1) && m'[order[i]].next == At(o, j + 1)
  {
    var j := if i < k then i else i - 1;
    assert order[i] in m && LinkOk(m, order, i);
    AtOnce(order, m, i, k + 1);
    AtOnce(order, m, i, k - 1);
    RemovedAt(order, k, j - 1);
    RemovedAt(order, k, j + 1);
  }

  lemma LinkOutChained(m: Memory, m': Memory, order: seq<Ptr>, k: nat)
    requires Live(m, order) && Chained(m, order) && k < |order| && LinkedOut(m, m', order, k)
    ensures Live(m', Removed(order, k)) && Chained(m', Removed(order, k))
  {
    var o := Removed(order, k);
    RemovedLive(m', order, k);
    forall i | 0 <= i < |o|
      ensures LinkOk(m', o, i)
    {
      RemovedAt(order, k, i);
      LinkOutEach(m, m', order, k, if i < k then i else i + 1);
    }
  }

  /** Changing what a node holds but not its links, or nodes outside the order, keeps the order. */
  lemma ChainedFrame(m: Memory, m': Memory, order: seq<Ptr>)
    requires Live(m, order) && Chained(m, order)
    requires forall p :: p in order ==> p in m' && m'[p].prev == m[p].prev && m'[p].next == m[p].next
    ensures Live(m', order) && Chained(m', order)
  {
    forall i | 0 <= i < |order|
      ensures order[i] in m' && LinkOk(m', order, i)
    {
      assert order[i] in order && LinkOk(m, order, i);
    }
  }

  /** The ziplists in order. */
  function Lists(m: Memory, order: seq<Ptr>): (ls: seq<seq<Value>>)
    requires Live(m, order)
    ensures |ls| == |order| && forall i :: 0 <= i < |ls| ==> ls[i] == m[order[i]].zl
  {
    seq(|order|, i requires 0 <= i < |order| => m[order[i]].zl)
  }

  /** A node's count is that of its ziplist, which is not empty. */
  predicate Filled(n: Node) {
    n.count == |n.zl| > 0
  }

  predicate AllFilled(m: Memory, order: seq<Ptr>)
    requires Live(m, order)
  {
    forall i :: 0 <= i < |order| ==> Filled(m[order[i]])
  }

  /** All nodes but one are filled. */
  predicate FilledBut(m: Memory, order: seq<Ptr>, k: nat)
    requires Live(m, order)
  {
    forall i :: 0 <= i < |order| && i != k ==> Filled(m[order[i]])
  }

  lemma ListsInsert(m: Memory, m': Memory, order: seq<Ptr>, k: nat, n: Ptr)
    requires Live(m, order) && k <= |order| && n in m && n != NULL && n !in order
    requires LinkedIn(m, m', order, k, n)
    ensures Live(m', Inserted(order, k, n))
    ensures Lists(m', Inserted(order, k, n)) == Inserted(Lists(m, order), k, m[n].zl)
    ensures AllFilled(m, order) && Filled(m[n]) ==> AllFilled(m', Inserted(order, k, n))
  {
    var o := Inserted(order, k, n);
    InsertedLive(m', order, k, n);
    forall i | 0 <= i < |o|
      ensures m'[o[i]].zl == Inserted(Lists(m, order), k, m[n].zl)[i]
      ensures AllFilled(m, order) && Filled(m[n]) ==> Filled(m'[o[i]])
    {
      InsertedAt(order, k, n, i);
      assert o[i] in m;
    }
  }

  lemma ListsRemove(m: Memory, m': Memory, order: seq<Ptr>, k: nat)
    requires Live(m, order) && k < |order| && LinkedOut(m, m', order, k)
    ensures var o, m'' := Removed(order, k), m' - {order[k]};
      && Live(m'', o)
      && Lists(m'', o) == Removed(Lists(m, order), k)
      && (FilledBut(m, order, k) ==> AllFilled(m'', o))
  {
    var o, m'' := Removed(order, k), m' - {order[k]};
    RemovedLive(m', order, k);
    forall i | 0 <= i < |o|
      ensures o[i] in m'' && m''[o[i]].zl == Removed(Lists(m, order), k)[i]
      ensures FilledBut(m, order, k) ==> Filled(m''[o[i]])
    {
      RemovedAt(order, k, i);
      assert o[i] in m && o[i] in o;
    }
  }

  /** Storing into node i, links kept. */
  lemma ListsStore(m: Memory, order: seq<Ptr>, i: nat, nd: Node)
    requires Live(m, order) && i < |order|
    requires nd.prev == m[order[i]].prev && nd.next == m[order[i]].next
    ensures var m' := m[order[i] := nd];
      && Live(m', order)
      && (Chained(m, order) ==> Chained(m', order))
      && Lists(m', order) == Lists(m, order)[i := nd.zl]
      && (FilledBut(m, order, i) && Filled(nd) ==> AllFilled(m', order))
      && (AllFilled(m, order) ==> FilledBut(m', order, i))
  {
    var m' := m[order[i] := nd];
    if Chained(m, order) { ChainedFrame(m, m', order); }
  }

  /** Storing into a node outside the order. */
  lemma ListsApart(m: Memory, order: seq<Ptr>, p: Ptr, nd: Node)
    requires Live(m, order) && p !in order
    ensures var m' := m[p := nd];
      && Live(m', order)
      && (Chained(m, order) ==> Chained(m', order))
      && Lists(m', order) == Lists(m, order)
      && (AllFilled(m, order) ==> AllFilled(m', order))
  {
    var m' := m[p := nd];
    if Chained(m, order) { ChainedFrame(m, m', order); }
  }

  /** The order survives giving the removed node's memory back. */
  lemma ChainedFreed(m: Memory, order: seq<Ptr>, p: Ptr)
    requires Live(m, order) && Chained(m, order) && p !in order
    ensures Live(m - {p}, order) && Chained(m - {p}, order)
  {
    ChainedFrame(m, m - {p}, order);
  }

  /** The links, head, tail and len describe exactly `order`; addresses from brk on are unused. */
  predicate LinkedList(m: Memory, order: seq<Ptr>, head: Ptr, tail: Ptr, len: int, brk: Ptr) {
    && Live(m, order) && Chained(m, order)
    && head == At(order, 0) && tail == At(order, |order| - 1)
    && len == |order|
    && brk != NULL && forall p :: p in m ==> p < brk
  }

  /** What a change of the order does to its contents. */
  predicate ListsNow(m: Memory, order: seq<Ptr>, ls: seq<seq<Value>>) {
    Live(m, order) && Lists(m, order) == ls
  }

  /** Everything linking in a node does. */
  lemma LinkInAll(m: Memory, m': Memory, order: seq<Ptr>, k: nat, n: Ptr, head: Ptr, tail: Ptr, brk: Ptr,
                  head': Ptr, tail': Ptr)
    requires LinkedList(m, order, head, tail, |order|, brk) && k <= |order|
    requires n in m && n != NULL && n !in order && LinkedIn(m, m', order, k, n)
    requires head' == (if k == 0 then n else head) && tail' == (if k == |order| then n else tail)
    ensures LinkedList(m', Inserted(order, k, n), head', tail', |order| + 1, brk)
    ensures ListsNow(m', Inserted(order, k, n), Inserted(Lists(m, order), k, m[n].zl))
    ensures AllFilled(m, order) && Filled(m[n]) ==> AllFilled(m', Inserted(order, k, n))
  {
    hide LinkOk, SameBut, AllFilled;
    LinkInChained(m, m', order, k, n);
    ListsInsert(m, m', order, k, n);
    InsertedAt(order, k, n, 0);
    InsertedAt(order, k, n, |order|);
  }

  /** Everything unlinking and freeing a node does. */
  lemma LinkOutAll(m: Memory, m': Memory, order: seq<Ptr>, k: nat, head: Ptr, tail: Ptr, brk: Ptr, head': Ptr, tail': Ptr)
    requires LinkedList(m, order, head, tail, |order|, brk) && k < |order| && LinkedOut(m, m', order, k)
    requires head' == (if order[k] == head then m[order[k]].next else head)
    requires tail' == (if order[k] == tail then m[order[k]].prev else tail)
    ensures LinkedList(m' - {order[k]}, Removed(order, k), head', tail', |order| - 1, brk)
    ensures ListsNow(m' - {order[k]}, Removed(order, k), Removed(Lists(m, order), k))
    ensures FilledBut(m, order, k) ==> AllFilled(m' - {order[k]}, Removed(order, k))
  {
    LinkOutChained(m, m', order, k);
    ListsRemove(m, m', order, k);
    RemovedLive(m', order, k);
    ChainedFreed(m', Removed(order, k), order[k]);
    RemovedEnds(m, order, k);
  }

  lemma RemovedEnds(m: Memory, order: seq<Ptr>, k: nat)
    requires Live(m, order) && Chained(m, order) && k < |order|
    ensures At(Removed(order, k), 0) == if order[k] == At(order, 0) then m[order[k]].next else At(order, 0)
    ensures At(Removed(order, k), |order| - 2) ==
            if order[k] == At(order, |order| - 1) then m[order[k]].prev else At(order, |order| - 1)
  {
    RemovedAt(order, k, 0);
    RemovedAt(order, k, |order| - 2);
    AtOnce(order, m, k, 0);
    AtOnce(order, m, k, |order| - 1);
    assert LinkOk(m, order, k);
  }
}
