/** Sequences cut into chunks, and where an element sits among them. */
module Chunks {

  /** The chunks one after another. */
  function Flat<T>(ls: seq<seq<T>>): seq<T> {
    if ls == [] then [] else ls[0] + Flat(ls[1..])
  }

  /** How many elements lie before chunk i. */
  function Start<T>(ls: seq<seq<T>>, i: nat): nat
    requires i <= |ls|
  {
    |Flat(ls[..i])|
  }

  function Inserted<T>(s: seq<T>, k: nat, x: T): (r: seq<T>)
    requires k <= |s|
    ensures |r| == |s| + 1
  {
    s[..k] + [x] + s[k..]
  }

  function Removed<T>(s: seq<T>, k: nat): (r: seq<T>)
    requires k < |s|
    ensures |r| == |s| - 1
  {
    s[..k] + s[k + 1..]
  }

  lemma {:induction false} FlatAppend<T>(a: seq<seq<T>>, b: seq<seq<T>>)
    ensures Flat(a + b) == Flat(a) + Flat(b)
  {
    if a == [] {
      assert a + b == b;
    } else {
      assert (a + b)[1..] == a[1..] + b;
      FlatAppend(a[1..], b);
    }
  }

  lemma FlatOne<T>(l: seq<T>)
    ensures Flat([l]) == l
  {
    assert [l][1..] == [];
  }

  /** Chunk l in its place. */
  lemma FlatAround<T>(a: seq<seq<T>>, l: seq<T>, b: seq<seq<T>>)
    ensures Flat(a + [l] + b) == Flat(a) + l + Flat(b)
  {
    FlatAppend(a + [l], b);
    FlatAppend(a, [l]);
    FlatOne(l);
  }

  /** All that lies before and after chunk i, with any chunk put there. */
  lemma FlatUpdate<T>(ls: seq<seq<T>>, i: nat, l: seq<T>)
    requires i < |ls|
    ensures Flat(ls[i := l]) == Flat(ls[..i]) + l + Flat(ls[i + 1..])
    ensures Flat(ls) == Flat(ls[..i]) + ls[i] + Flat(ls[i + 1..])
  {
    assert ls[i := l] == ls[..i] + [l] + ls[i + 1..];
    assert ls == ls[..i] + [ls[i]] + ls[i + 1..];
    FlatAround(ls[..i], l, ls[i + 1..]);
    FlatAround(ls[..i], ls[i], ls[i + 1..]);
  }

  lemma FlatInsert<T>(ls: seq<seq<T>>, k: nat, l: seq<T>)
    requires k <= |ls|
    ensures Flat(Inserted(ls, k, l)) == Flat(ls[..k]) + l + Flat(ls[k..])
    ensures Flat(ls) == Flat(ls[..k]) + Flat(ls[k..])
  {
    FlatAround(ls[..k], l, ls[k..]);
    FlatAppend(ls[..k], ls[k..]);
    assert ls == ls[..k] + ls[k..];
  }

  lemma FlatRemove<T>(ls: seq<seq<T>>, k: nat)
    requires k < |ls|
    ensures Flat(Removed(ls, k)) == Flat(ls[..k]) + Flat(ls[k + 1..])
    ensures Flat(ls) == Flat(ls[..k]) + ls[k] + Flat(ls[k + 1..])
  {
    FlatAppend(ls[..k], ls[k + 1..]);
    FlatUpdate(ls, k, ls[k]);
  }

  lemma InsertInside<T>(a: seq<T>, l: seq<T>, b: seq<T>, pos: nat, x: T)
    requires pos <= |l|
    ensures a + Inserted(l, pos, x) + b == Inserted(a + l + b, |a| + pos, x)
  {
    assert a + Inserted(l, pos, x) + b == a + l[..pos] + [x] + (l[pos..] + b);
    assert (a + l + b)[..|a| + pos] == a + l[..pos];
    assert (a + l + b)[|a| + pos..] == l[pos..] + b;
  }

  /** An element put into chunk i. */
  lemma InsertInChunk<T>(ls: seq<seq<T>>, i: nat, pos: nat, x: T)
    requires i < |ls| && pos <= |ls[i]|
    ensures Start(ls, i) + pos <= |Flat(ls)|
    ensures Flat(ls[i := Inserted(ls[i], pos, x)]) == Inserted(Flat(ls), Start(ls, i) + pos, x)
  {
    FlatUpdate(ls, i, Inserted(ls[i], pos, x));
    InsertInside(Flat(ls[..i]), ls[i], Flat(ls[i + 1..]), pos, x);
  }

  /** A chunk of its own for an element. */
  lemma InsertChunk<T>(ls: seq<seq<T>>, k: nat, x: T)
    requires k <= |ls|
    ensures Start(ls, k) <= |Flat(ls)|
    ensures Flat(Inserted(ls, k, [x])) == Inserted(Flat(ls), Start(ls, k), x)
  {
    FlatInsert(ls, k, [x]);
    assert Flat(ls)[..Start(ls, k)] == Flat(ls[..k]);
    assert Flat(ls)[Start(ls, k)..] == Flat(ls[k..]);
  }

  lemma StartNext<T>(ls: seq<seq<T>>, i: nat)
    requires i < |ls|
    ensures Start(ls, i + 1) == Start(ls, i) + |ls[i]|
  {
    assert ls[..i + 1] == ls[..i] + [ls[i]];
    FlatAppend(ls[..i], [ls[i]]);
    FlatOne(ls[i]);
  }

  /** Cutting chunk i in two and changing neither part changes nothing. */
  lemma CutChunk<T>(ls: seq<seq<T>>, i: nat, a: seq<T>, b: seq<T>)
    requires i < |ls| && ls[i] == a + b
    ensures Flat(Inserted(ls[i := a], i + 1, b)) == Flat(ls)
    ensures Flat(Inserted(ls[i := b], i, a)) == Flat(ls)
  {
    var x, y := ls[..i], ls[i + 1..];
    FlatUpdate(ls, i, a);
    TwoChunks(x, a, b, y);
    assert Inserted(ls[i := a], i + 1, b) == x + [a] + ([b] + y);
    assert Inserted(ls[i := b], i, a) == x + [a] + ([b] + y);
  }

  lemma TwoChunks<T>(x: seq<seq<T>>, a: seq<T>, b: seq<T>, y: seq<seq<T>>)
    ensures Flat(x + [a] + ([b] + y)) == Flat(x) + (a + b) + Flat(y)
  {
    FlatAround(x, a, [b] + y);
    FlatAppend([b], y);
    FlatOne(b);
    assert Flat(x) + a + (b + Flat(y)) == Flat(x) + (a + b) + Flat(y);
  }

  /** Two neighbouring chunks made one, in either place. */
  lemma MergeChunks<T>(ls: seq<seq<T>>, i: nat)
    requires i + 1 < |ls|
    ensures Flat(Removed(ls[i := ls[i] + ls[i + 1]], i + 1)) == Flat(ls)
    ensures Flat(Removed(ls[i + 1 := ls[i] + ls[i + 1]], i)) == Flat(ls)
  {
    var x, y := ls[..i], ls[i + 2..];
    TwoChunks(x, ls[i], ls[i + 1], y);
    assert ls == x + [ls[i]] + ([ls[i + 1]] + y);
    FlatAround(x, ls[i] + ls[i + 1], y);
    assert Removed(ls[i := ls[i] + ls[i + 1]], i + 1) == x + [ls[i] + ls[i + 1]] + y;
    assert Removed(ls[i + 1 := ls[i] + ls[i + 1]], i) == x + [ls[i] + ls[i + 1]] + y;
  }

  lemma RemoveInside<T>(a: seq<T>, l: seq<T>, b: seq<T>, from: nat, to: nat)
    requires from <= to <= |l|
    ensures a + (l[..from] + l[to..]) + b == (a + l + b)[..|a| + from] + (a + l + b)[|a| + to..]
  {
    assert (a + l + b)[..|a| + from] == a + l[..from];
    assert (a + l + b)[|a| + to..] == l[to..] + b;
  }

  /** A range taken out of chunk i. */
  lemma RemoveInChunk<T>(ls: seq<seq<T>>, i: nat, from: nat, to: nat)
    requires i < |ls| && from <= to <= |ls[i]|
    ensures Start(ls, i) + to <= |Flat(ls)|
    ensures Flat(ls[i := ls[i][..from] + ls[i][to..]])
         == Flat(ls)[..Start(ls, i) + from] + Flat(ls)[Start(ls, i) + to..]
  {
    FlatUpdate(ls, i, ls[i][..from] + ls[i][to..]);
    RemoveInside(Flat(ls[..i]), ls[i], Flat(ls[i + 1..]), from, to);
  }

  /** Chunk i taken out. */
  lemma RemoveChunk<T>(ls: seq<seq<T>>, i: nat)
    requires i < |ls|
    ensures Start(ls, i) + |ls[i]| <= |Flat(ls)|
    ensures Flat(Removed(ls, i)) == Flat(ls)[..Start(ls, i)] + Flat(ls)[Start(ls, i) + |ls[i]|..]
  {
    FlatRemove(ls, i);
    RemoveInside(Flat(ls[..i]), ls[i], Flat(ls[i + 1..]), 0, |ls[i]|);
    assert ls[i][..0] + ls[i][|ls[i]|..] == [];
  }

  lemma LastChunk<T>(ls: seq<seq<T>>)
    requires ls != []
    ensures Start(ls, |ls| - 1) + |ls[|ls| - 1]| == |Flat(ls)| == Start(ls, |ls|)
  {
    StartNext(ls, |ls| - 1);
    assert ls[..|ls|] == ls;
  }

  /** Chunk i cut in two with an element put between the parts. */
  lemma SplitInsert<T>(ls: seq<seq<T>>, i: nat, cut: nat, x: T)
    requires i < |ls| && cut <= |ls[i]|
    ensures Start(ls, i) + cut <= |Flat(ls)|
    ensures Flat(Inserted(ls[i := ls[i][..cut]], i + 1, [x] + ls[i][cut..])) == Inserted(Flat(ls), Start(ls, i) + cut, x)
    ensures Flat(Inserted(ls[i := ls[i][cut..]], i, ls[i][..cut] + [x])) == Inserted(Flat(ls), Start(ls, i) + cut, x)
  {
    hide Flat, Start;
    var l := Inserted(ls[i], cut, x);
    var ls2 := ls[i := l];
    InsertInChunk(ls, i, cut, x);
    assert l == ls[i][..cut] + ([x] + ls[i][cut..]);
    CutChunk(ls2, i, ls[i][..cut], [x] + ls[i][cut..]);
    assert l == (ls[i][..cut] + [x]) + ls[i][cut..];
    CutChunk(ls2, i, ls[i][..cut] + [x], ls[i][cut..]);
    assert ls2[i := ls[i][..cut]] == ls[i := ls[i][..cut]];
    assert ls2[i := ls[i][cut..]] == ls[i := ls[i][cut..]];
  }

  lemma StartBounds<T>(ls: seq<seq<T>>, i: nat)
    requires i <= |ls|
    ensures Start(ls, i) <= |Flat(ls)|
    ensures i == 0 ==> Start(ls, i) == 0
    ensures i == |ls| ==> Start(ls, i) == |Flat(ls)|
    ensures i < |ls| ==> Start(ls, i) + |ls[i]| <= |Flat(ls)| && Start(ls, i + 1) == Start(ls, i) + |ls[i]|
  {
    FlatInsert(ls, i, []);
    assert ls[..|ls|] == ls;
    if i < |ls| {
      StartNext(ls, i);
      FlatInsert(ls, i + 1, []);
    }
  }

  /** The element at a position of chunk i. */
  lemma ElementAt<T>(ls: seq<seq<T>>, i: nat, pos: nat)
    requires i < |ls| && pos < |ls[i]|
    ensures Start(ls, i) + pos < |Flat(ls)| && Flat(ls)[Start(ls, i) + pos] == ls[i][pos]
  {
    FlatUpdate(ls, i, ls[i]);
  }

  /** Changing chunk i or taking it out moves no chunk before it. */
  lemma StartAfter<T>(ls: seq<seq<T>>, i: nat, l: seq<T>)
    requires i < |ls|
    ensures Start(ls[i := l], i) == Start(ls, i)
    ensures Start(Removed(ls, i), i) == Start(ls, i)
    ensures i > 0 ==> Start(Removed(ls, i), i - 1) + |ls[i - 1]| == Start(ls, i)
    ensures i == |ls| - 1 ==> Start(ls, i) == |Flat(Removed(ls, i))|
    ensures i == 0 ==> Start(ls, i) == 0
  {
    assert ls[i := l][..i] == ls[..i];
    assert Removed(ls, i)[..i] == ls[..i];
    if i > 0 {
      StartNext(ls, i - 1);
      assert Removed(ls, i)[..i - 1] == ls[..i - 1];
    }
    StartBounds(Removed(ls, i), i);
  }

  /** A range taken out in two steps. */
  lemma CutTwice<T>(s: seq<T>, g: nat, a: nat, b: nat)
    requires g + a + b <= |s|
    ensures var t := s[..g] + s[g + a..]; t[..g] + t[g + b..] == s[..g] + s[g + a + b..]
  {}

  lemma CutNothing<T>(s: seq<T>, g: nat)
    requires g <= |s|
    ensures s[..g] + s[g..] == s
  {}
}
