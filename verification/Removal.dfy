/** Removing occurrences of a value from a sequence: what LREM is meant to do. */
module Removal {

  import opened Basics
  import opened Chunks

  function Count<T(==)>(s: seq<T>, x: T): nat {
    if s == [] then 0 else (if s[0] == x then 1 else 0) + Count(s[1..], x)
  }

  function Without<T(==)>(s: seq<T>, x: T): seq<T> {
    if s == [] then [] else (if s[0] == x then [] else [s[0]]) + Without(s[1..], x)
  }

  /** s without the first n occurrences of x. */
  function RemoveFirst<T(==)>(s: seq<T>, x: T, n: nat): seq<T> {
    if s == [] || n == 0 then s
    else if s[0] == x then RemoveFirst(s[1..], x, n - 1)
    else [s[0]] + RemoveFirst(s[1..], x, n)
  }

  /** s without the last n occurrences of x. */
  function RemoveLast<T(==)>(s: seq<T>, x: T, n: nat): seq<T> {
    if s == [] || n == 0 then s
    else if s[|s| - 1] == x then RemoveLast(s[..|s| - 1], x, n - 1)
    else RemoveLast(s[..|s| - 1], x, n) + [s[|s| - 1]]
  }

  lemma {:induction false} CountAppend<T>(a: seq<T>, b: seq<T>, x: T)
    ensures Count(a + b, x) == Count(a, x) + Count(b, x)
    ensures Without(a + b, x) == Without(a, x) + Without(b, x)
  {
    if a == [] {
      assert a + b == b;
    } else {
      assert (a + b)[1..] == a[1..] + b;
      CountAppend(a[1..], b, x);
    }
  }

  lemma CountOne<T>(y: T, x: T)
    ensures Count([y], x) == (if y == x then 1 else 0)
    ensures Without([y], x) == if y == x then [] else [y]
  {
    assert [y][1..] == [];
  }

  lemma {:induction false} CountBound<T>(s: seq<T>, x: T)
    ensures Count(s, x) <= |s|
  {
    if s != [] { CountBound(s[1..], x); }
  }

  /** When the first part holds no more than n occurrences it loses all of them. */
  lemma {:induction false} RemoveFirstParts<T>(a: seq<T>, b: seq<T>, x: T, n: nat)
    requires Count(a, x) <= n
    ensures RemoveFirst(a + b, x, n) == Without(a, x) + RemoveFirst(b, x, n - Count(a, x))
  {
    if a == [] {
      assert a + b == b;
    } else {
      assert (a + b)[1..] == a[1..] + b;
      if n == 0 {
        NoneToRemove(a, x);
      } else {
        RemoveFirstParts(a[1..], b, x, if a[0] == x then n - 1 else n);
      }
    }
  }

  lemma {:induction false} NoneToRemove<T>(s: seq<T>, x: T)
    requires Count(s, x) == 0
    ensures Without(s, x) == s
  {
    if s != [] { NoneToRemove(s[1..], x); }
  }

  lemma CountSnoc<T>(a: seq<T>, y: T, x: T)
    ensures Count(a + [y], x) == Count(a, x) + (if y == x then 1 else 0)
    ensures Without(a + [y], x) == Without(a, x) + (if y == x then [] else [y])
  {
    CountAppend(a, [y], x);
    CountOne(y, x);
  }

  lemma RemoveLastSnoc<T>(a: seq<T>, y: T, x: T, n: nat)
    requires n > 0
    ensures RemoveLast(a + [y], x, n) == if y == x then RemoveLast(a, x, n - 1) else RemoveLast(a, x, n) + [y]
  {
    assert (a + [y])[..|a|] == a;
  }

  lemma SnocStep<T>(a: seq<T>, b: seq<T>, y: T, x: T, n: nat)
    requires n > 0 && Count(b + [y], x) <= n && Count(b, x) <= (if y == x then n - 1 else n)
    requires var m := if y == x then n - 1 else n; RemoveLast(a + b, x, m) == RemoveLast(a, x, m - Count(b, x)) + Without(b, x)
    ensures RemoveLast(a + b + [y], x, n) == RemoveLast(a, x, n - Count(b + [y], x)) + Without(b + [y], x)
  {
    CountSnoc(b, y, x);
    RemoveLastSnoc(a + b, y, x, n);
  }

  lemma {:induction false} RemoveLastParts<T>(a: seq<T>, b: seq<T>, x: T, n: nat)
    requires Count(b, x) <= n
    ensures RemoveLast(a + b, x, n) == RemoveLast(a, x, n - Count(b, x)) + Without(b, x)
    decreases |b|
  {
    if b == [] {
      assert a + b == a;
    } else if n == 0 {
      NoneToRemove(b, x);
    } else {
      var c, y := b[..|b| - 1], b[|b| - 1];
      assert b == c + [y] && a + b == a + c + [y];
      CountSnoc(c, y, x);
      RemoveLastParts(a, c, x, if y == x then n - 1 else n);
      SnocStep(a, c, y, x, n);
    }
  }

  // ---------------------------------------------------------- the loop of the command

  /** What is left after k elements of s have been visited from either end and x removed. */
  function Left<T(==)>(s: seq<T>, x: T, forward: bool, k: nat): seq<T>
    requires k <= |s|
  {
    if forward then Without(s[..k], x) + s[k..] else s[..|s| - k] + Without(s[|s| - k..], x)
  }

  /** Where an iterator then stands: so many elements are on its head side. */
  function Place<T(==)>(s: seq<T>, x: T, forward: bool, k: nat): nat
    requires k <= |s|
  {
    if forward then |Without(s[..k], x)| else |s| - k
  }

  function Hits<T(==)>(s: seq<T>, x: T, forward: bool, k: nat): nat
    requires k <= |s|
  {
    if forward then Count(s[..k], x) else Count(s[|s| - k..], x)
  }

  /** After k elements of s have been visited from either end: those equal to x are gone. */
  predicate Progress<T(==)>(s: seq<T>, x: T, forward: bool, k: nat, content: seq<T>, pos: int, removed: int) {
    k <= |s| && (content, pos, removed) == (Left(s, x, forward, k), Place(s, x, forward, k), Hits(s, x, forward, k))
  }

  lemma ProgressStart<T>(s: seq<T>, x: T, forward: bool)
    ensures Progress(s, x, forward, 0, s, if forward then 0 else |s|, 0)
  {
    assert s[..0] == [] && s[|s|..] == [] && [] + s[0..] == s && s[..|s|] + [] == s;
  }

  /** The next element to visit, and whether there is one. */
  lemma ProgressNext<T>(s: seq<T>, x: T, forward: bool, k: nat, content: seq<T>, pos: int, removed: int)
    requires Progress(s, x, forward, k, content, pos, removed)
    ensures 0 <= pos <= |content|
    ensures (if forward then pos < |content| else pos > 0) <==> k < |s|
    ensures k < |s| ==> content[if forward then pos else pos - 1] == s[if forward then k else |s| - k - 1]
  {}

  lemma KeepForward<T>(s: seq<T>, x: T, k: nat)
    requires k < |s| && s[k] != x
    ensures Without(s[..k + 1], x) == Without(s[..k], x) + [s[k]] && Count(s[..k + 1], x) == Count(s[..k], x)
    ensures Without(s[..k], x) + s[k..] == Without(s[..k + 1], x) + s[k + 1..]
  {
    hide Without, Count;
    assert s[..k + 1] == s[..k] + [s[k]];
    CountSnoc(s[..k], s[k], x);
    assert s[k..] == [s[k]] + s[k + 1..];
  }

  lemma KeepBackward<T>(s: seq<T>, x: T, j: nat)
    requires j < |s| && s[j] != x
    ensures Count(s[j..], x) == Count(s[j + 1..], x)
    ensures s[..j] + Without(s[j..], x) == s[..j + 1] + Without(s[j + 1..], x)
  {
    assert s[j..] == [s[j]] + s[j + 1..];
    assert Without(s[j..], x) == [s[j]] + Without(s[j + 1..], x);
  }

  lemma ProgressKeep<T>(s: seq<T>, x: T, forward: bool, k: nat, content: seq<T>, pos: int, removed: int)
    requires Progress(s, x, forward, k, content, pos, removed) && k < |s|
    requires s[if forward then k else |s| - k - 1] != x
    ensures Progress(s, x, forward, k + 1, content, if forward then pos + 1 else pos - 1, removed)
  {
    if forward { KeepForward(s, x, k); } else { KeepBackward(s, x, |s| - k - 1); }
    hide Without, Count;
  }

  lemma DeleteForward<T>(s: seq<T>, x: T, k: nat)
    requires k < |s| && s[k] == x
    ensures Without(s[..k + 1], x) == Without(s[..k], x) && Count(s[..k + 1], x) == Count(s[..k], x) + 1
    ensures Removed(Without(s[..k], x) + s[k..], |Without(s[..k], x)|) == Without(s[..k], x) + s[k + 1..]
  {
    CountSnoc(s[..k], s[k], x);
    assert s[..k + 1] == s[..k] + [s[k]];
  }

  lemma DeleteBackward<T>(s: seq<T>, x: T, j: nat)
    requires j < |s| && s[j] == x
    ensures Without(s[j..], x) == Without(s[j + 1..], x) && Count(s[j..], x) == Count(s[j + 1..], x) + 1
    ensures Removed(s[..j + 1] + Without(s[j + 1..], x), j) == s[..j] + Without(s[j + 1..], x)
  {
    assert s[j..][1..] == s[j + 1..];
  }

  lemma ProgressDelete<T>(s: seq<T>, x: T, forward: bool, k: nat, content: seq<T>, pos: int, removed: int)
    requires Progress(s, x, forward, k, content, pos, removed) && k < |s|
    requires s[if forward then k else |s| - k - 1] == x
    ensures var g := if forward then pos else pos - 1;
      0 <= g < |content| && Progress(s, x, forward, k + 1, Removed(content, g), g, removed + 1)
  {
    if forward {
      DeleteForward(s, x, k);
    } else {
      DeleteBackward(s, x, |s| - k - 1);
    }
  }

  function RemoveSome<T(==)>(s: seq<T>, x: T, forward: bool, n: nat): seq<T> {
    if forward then RemoveFirst(s, x, n) else RemoveLast(s, x, n)
  }

  lemma DoneForward<T>(s: seq<T>, x: T, k: nat, n: nat)
    requires k <= |s| && (Count(s[..k], x) == n || (k == |s| && Count(s[..k], x) <= n))
    ensures Without(s[..k], x) + s[k..] == RemoveFirst(s, x, n) && Count(s[..k], x) == Min(n, Count(s, x))
  {
    assert s == s[..k] + s[k..];
    CountAppend(s[..k], s[k..], x);
    RemoveFirstParts(s[..k], s[k..], x, n);
  }

  lemma DoneBackward<T>(s: seq<T>, x: T, j: nat, n: nat)
    requires j <= |s| && (Count(s[j..], x) == n || (j == 0 && Count(s[j..], x) <= n))
    ensures s[..j] + Without(s[j..], x) == RemoveLast(s, x, n) && Count(s[j..], x) == Min(n, Count(s, x))
  {
    assert s == s[..j] + s[j..];
    CountAppend(s[..j], s[j..], x);
    RemoveLastParts(s[..j], s[j..], x, n);
  }

  /** Having visited everything, or removed as many as asked, is being done. */
  lemma ProgressDone<T>(s: seq<T>, x: T, forward: bool, k: nat, content: seq<T>, pos: int, removed: int, n: nat)
    requires Progress(s, x, forward, k, content, pos, removed)
    requires removed == n || (k == |s| && removed <= n)
    ensures content == RemoveSome(s, x, forward, n) && removed == Min(n, Count(s, x))
  {
    if forward {
      DoneForward(s, x, k, n);
    } else {
      DoneBackward(s, x, |s| - k, n);
    }
  }

  lemma HitsBound<T>(s: seq<T>, x: T, forward: bool, k: nat)
    requires k <= |s|
    ensures Hits(s, x, forward, k) <= k
  {
    CountBound(s[..k], x);
    CountBound(s[|s| - k..], x);
  }

  // ---------------------------------------------------------------- in plain terms

  /** So many occurrences of x are gone from s and nothing else; x occurs nowhere in front of
      (behind, when going backward) the part that is left as it was. */
  ghost predicate TakenOut<T>(s: seq<T>, x: T, forward: bool, content: seq<T>, removed: nat) {
    && removed <= multiset(s)[x] && multiset(content) == multiset(s)[x := multiset(s)[x] - removed]
    && (forward ==> exists k :: 0 <= k <= |content| && x !in content[..k]
                                && |content| - k <= |s| && content[k..] == s[|s| - |content| + k..])
    && (!forward ==> exists k :: 0 <= k <= |content| && k <= |s| && x !in content[k..] && content[..k] == s[..k])
  }

  lemma {:induction false} CountIs<T>(s: seq<T>, x: T)
    ensures Count(s, x) == multiset(s)[x]
    ensures multiset(Without(s, x)) == multiset(s)[x := 0] && x !in Without(s, x)
  {
    if s != [] {
      assert s == [s[0]] + s[1..];
      CountIs(s[1..], x);
    }
  }

  lemma NothingTaken<T>(x: T, forward: bool)
    ensures TakenOut([], x, forward, [], 0)
  {
    var none: seq<T> := [];
    assert x !in none[..0] && none[0..] == none && x !in none[0..] && none[..0] == none;
  }

  lemma PartTaken<T>(s: seq<T>, a: seq<T>, b: seq<T>, x: T, content: seq<T>, c: seq<T>)
    requires multiset(s) == multiset(a) + multiset(b) && multiset(content) == multiset(c) + multiset(b)
    requires c == Without(a, x)
    ensures Count(a, x) <= multiset(s)[x] && multiset(content) == multiset(s)[x := multiset(s)[x] - Count(a, x)]
  {
    hide Without, Count;
    CountIs(a, x);
  }

  lemma TakenForward<T>(s: seq<T>, x: T, k: nat)
    requires k <= |s|
    ensures TakenOut(s, x, true, Without(s[..k], x) + s[k..], Count(s[..k], x))
  {
    hide Without, Count;
    var a, b := s[..k], s[k..];
    var w := Without(a, x);
    var content := w + b;
    CountIs(a, x);
    assert s == a + b;
    PartTaken(s, a, b, x, content, w);
    assert content[..|w|] == w && content[|w|..] == b && |s| - |content| + |w| == k;
  }

  lemma TakenBackward<T>(s: seq<T>, x: T, j: nat)
    requires j <= |s|
    ensures TakenOut(s, x, false, s[..j] + Without(s[j..], x), Count(s[j..], x))
  {
    hide Without, Count;
    var a, b := s[..j], s[j..];
    var w := Without(b, x);
    var content := a + w;
    CountIs(b, x);
    assert s == a + b;
    PartTaken(s, b, a, x, content, w);
    assert content[j..] == w && content[..j] == s[..j];
  }

  /** What the loop of the command leaves. */
  lemma LoopTakesOut<T>(s: seq<T>, x: T, forward: bool, k: nat, content: seq<T>, pos: int, removed: nat)
    requires Progress(s, x, forward, k, content, pos, removed)
    ensures TakenOut(s, x, forward, content, removed)
  {
    hide Without, Count, TakenOut;
    if forward { TakenForward(s, x, k); } else { TakenBackward(s, x, |s| - k); }
  }
}
