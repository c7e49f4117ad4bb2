/**
 What a whole scan guarantees. A scan is a run of calls, each on whatever state the dictionary has
 by then: any number of additions, deletions, migration steps and resizes may lie in between, so a
 run lists the state found by each call and says nothing about how it came about.
 */
module ScanRuns {
  import opened Basics
  import opened Words
  import opened Cursor
  import opened Tables
  import opened Dicts

  /** One call: the state it finds and the cursor it is given. */
  datatype Call<K, V> = Call(s: DictState<K, V>, v: Word)

  /** The iteration goes on: a call returned the next one's cursor, which is not 0. */
  predicate Follows<K, V>(a: Call<K, V>, b: Call<K, V>) {
    b.v == ScanNext(a.s, a.v) && b.v != Zero()
  }

  predicate GoesOn<K, V>(run: seq<Call<K, V>>, i: int)
    requires 0 < i < |run|
  {
    Follows(run[i - 1], run[i])
  }

  /** From cursor 0, each call with the cursor the one before returned; not necessarily the end. */
  predicate CursorSteps<K, V>(run: seq<Call<K, V>>) {
    run != [] && run[0].v == Zero() && forall i :: 0 < i < |run| ==> GoesOn(run, i)
  }

  /** The cursor the last call returned. */
  function Returned<K, V>(run: seq<Call<K, V>>): Word
    requires run != []
  {
    ScanNext(run[|run| - 1].s, run[|run| - 1].v)
  }

  /** The same until 0 is returned. */
  predicate CursorRun<K, V>(run: seq<Call<K, V>>) {
    CursorSteps(run) && Returned(run) == Zero()
  }

  ghost predicate AllConsistent<K(!new), V>(run: seq<Call<K, V>>, hash: K -> Word) {
    forall i :: 0 <= i < |run| ==> Consistent(run[i].s, hash)
  }

  /** A whole scan of a dictionary that may have changed between any two calls. */
  ghost predicate FullScan<K(!new), V>(run: seq<Call<K, V>>, hash: K -> Word) {
    CursorRun(run) && AllConsistent(run, hash)
  }

  ghost predicate Present<K, V>(s: DictState<K, V>, hash: K -> Word, k: K) {
    Has(s.ht0, hash, k) || Has(s.ht1, hash, k)
  }

  /** The call reports the key. */
  ghost predicate Reports<K(!new), V(!new)>(c: Call<K, V>, hash: K -> Word, k: K)
    requires Consistent(c.s, hash)
  {
    exists val :: c.s.Size() > 0 && Emits(c.s, hash, c.v, Entry(k, val))
  }

  /** What a call needs of its cursor: while two tables are live, the expansions it owes must be
      among those it visits. */
  predicate CursorFits<K, V>(c: Call<K, V>)
    requires c.s.MinBits() <= c.s.MaxBits() <= WORD
  {
    c.s.Rehashing() ==> ExpansionsInOrder(c.v, c.s.MinBits(), c.s.MaxBits())
  }

  lemma BitsBounded<K(!new), V>(s: DictState<K, V>, hash: K -> Word)
    requires Consistent(s, hash)
    ensures s.MinBits() <= s.MaxBits() <= MAX_BITS
  {}

  /** The key is there at the call, and the cursor fits. */
  ghost predicate Kept<K(!new), V>(c: Call<K, V>, hash: K -> Word, k: K) {
    Consistent(c.s, hash) && Present(c.s, hash, k) && CursorFits(c)
  }

  /** The hashes a call leaves behind: at or after its cursor and before the one it returns. */
  predicate Passed(v: Word, next: Word, h: Word) {
    !Before(h, v) && (next == Zero() || Before(h, next))
  }

  lemma PresentNotEmpty<K(!new), V>(s: DictState<K, V>, hash: K -> Word, k: K)
    requires Consistent(s, hash) && Present(s, hash, k)
    ensures s.Size() > 0
  {
    var t := if Has(s.ht0, hash, k) then s.ht0 else s.ht1;
    TotalAtLeast(t.buckets, Index(hash(k), t.bits));
  }

  /** A call whose cursor fits reports every present key that it leaves behind. */
  lemma CallReports<K(!new), V(!new)>(c: Call<K, V>, hash: K -> Word, k: K)
    requires Consistent(c.s, hash) && Present(c.s, hash, k) && CursorFits(c)
    requires Passed(c.v, ScanNext(c.s, c.v), hash(k))
    ensures Reports(c, hash, k)
  {
    var s := c.s;
    PresentNotEmpty(s, hash, k);
    StepCovers(c.v, s.MinBits(), hash(k));
    HoldsHas(s.ht0, hash, k);
    HoldsHas(s.ht1, hash, k);
    var val :| Holds(s.ht0, hash, Entry(k, val)) || Holds(s.ht1, hash, Entry(k, val));
    if s.Rehashing() {
      OwedExpansionsReached(c.v, s.MinBits(), s.MaxBits(), hash(k));
    }
    assert Emits(s, hash, c.v, Entry(k, val));
  }

  /** The cursors of a run and the ones its calls return. */
  predicate Cursors(vs: seq<Word>, next: seq<Word>) {
    && |vs| == |next| > 0 && vs[0] == Zero() && next[|vs| - 1] == Zero()
    && forall i :: 0 < i < |vs| ==> next[i - 1] == vs[i]
  }

  /** Some call of the run leaves a given hash behind. */
  lemma {:induction false} PassedByOne(vs: seq<Word>, next: seq<Word>, h: Word, i: nat) returns (j: nat)
    requires Cursors(vs, next) && i < |vs| && !Before(h, vs[i])
    ensures i <= j < |vs| && Passed(vs[j], next[j], h)
    decreases |vs| - i
  {
    if Passed(vs[i], next[i], h) {
      j := i;
    } else {
      j := PassedByOne(vs, next, h, i + 1);
    }
  }

  lemma PassedInRun<K, V>(run: seq<Call<K, V>>, h: Word) returns (j: nat)
    requires CursorRun(run)
    ensures j < |run| && Passed(run[j].v, ScanNext(run[j].s, run[j].v), h)
  {
    var vs := seq(|run|, i requires 0 <= i < |run| => run[i].v);
    var next := seq(|run|, i requires 0 <= i < |run| => ScanNext(run[i].s, run[i].v));
    forall i | 0 < i < |run| ensures next[i - 1] == vs[i] {
      assert GoesOn(run, i);
    }
    assert !Before(h, Zero());
    j := PassedByOne(vs, next, h, 0);
  }

  /**
   Scan coverage: in a full scan whose every call has a fitting cursor, a key present at every
   call is reported by at least one of them.
   */
  lemma ScanCoverage<K(!new), V(!new)>(run: seq<Call<K, V>>, hash: K -> Word, k: K)
    requires FullScan(run, hash)
    requires forall i :: 0 <= i < |run| ==> Present(run[i].s, hash, k)
    requires forall i :: 0 <= i < |run| ==> CursorFits(run[i])
    ensures exists i :: 0 <= i < |run| && Reports(run[i], hash, k)
  {
    forall i | 0 <= i < |run| ensures Kept(run[i], hash, k) {}
    var j := KeptIsReported(run, hash, k);
  }

  lemma KeptIsReported<K(!new), V(!new)>(run: seq<Call<K, V>>, hash: K -> Word, k: K) returns (j: nat)
    requires CursorRun(run) && forall i :: 0 <= i < |run| ==> Kept(run[i], hash, k)
    ensures j < |run| && Consistent(run[j].s, hash) && Reports(run[j], hash, k)
  {
    j := PassedInRun(run, hash(k));
    assert Kept(run[j], hash, k);
    CallReports(run[j], hash, k);
  }

  /** No shrink starts inside the run, except to half the size. */
  ghost predicate NoDeepShrink<K(!new), V>(run: seq<Call<K, V>>) {
    forall i :: 0 < i < |run| ==> Shallow(run, i)
  }

  predicate Shallow<K, V>(run: seq<Call<K, V>>, i: int)
    requires 0 < i < |run|
  {
    || run[i].s.MinBits() >= run[i - 1].s.MinBits()
    || run[i].s.MaxBits() <= run[i].s.MinBits() + 1
  }

  /** The cursor of a call only uses the bits of the smaller table of the call before. */
  lemma CursorOfPrevious<K, V>(run: seq<Call<K, V>>, i: nat)
    requires CursorSteps(run) && i < |run| && (i > 0 ==> run[i - 1].s.MinBits() <= WORD)
    ensures forall b :: (if i == 0 then 0 else run[i - 1].s.MinBits()) <= b < WORD ==> !run[i].v[b]
  {
    if i > 0 { assert GoesOn(run, i); NextCursorFits(run[i - 1].v, run[i - 1].s.MinBits()); }
  }

  /**
   Whatever additions, deletions, migration steps, growths and halvings happen between the calls,
   and in whichever phase of a migration the scan starts, every key present throughout is
   reported. (Each of the dictionary's operations but `dictResize` keeps the smaller table's size
   from going down, as its contract says.)
   */
  lemma ScanCoverageWithoutDeepShrink<K(!new), V(!new)>(run: seq<Call<K, V>>, hash: K -> Word, k: K)
    requires FullScan(run, hash) && NoDeepShrink(run)
    requires forall i :: 0 <= i < |run| ==> Present(run[i].s, hash, k)
    ensures exists i :: 0 <= i < |run| && Reports(run[i], hash, k)
  {
    forall i | 0 <= i < |run| ensures CursorFits(run[i]) {
      if i > 0 { BitsBounded(run[i - 1].s, hash); }
      CursorOfPrevious(run, i);
      assert i > 0 ==> Shallow(run, i);
    }
    ScanCoverage(run, hash, k);
  }

  // ------------------------------------------------------- the exact condition

  /** Whatever two tables of 2^b0 and 2^b1 buckets hold, the call at cursor v reports every present
      key that it leaves behind. */
  ghost predicate AlwaysCovers(v: Word, b0: nat, b1: nat) {
    forall s: DictState<nat, nat>, hash: nat -> Word, k: nat ::
      Consistent(s, hash) && s.Rehashing() && s.MinBits() == b0 && s.MaxBits() == b1 &&
      Present(s, hash, k) && Passed(v, ScanNext(s, v), hash(k))
      ==> Reports(Call(s, v), hash, k)
  }

  /** A table with 2^bits buckets holding one entry, in bucket b. */
  function Singleton(bits: nat, b: nat, k: nat): Table<nat, nat> {
    Table(bits, seq(Pow2(bits), i => if i == b then [Entry(k, 0)] else []), 1)
  }

  lemma SingletonTable(bits: nat, hash: nat -> Word, k: nat)
    requires bits <= MAX_BITS
    ensures WellFormed(Singleton(bits, Index(hash(k), bits), k), hash)
    ensures Holds(Singleton(bits, Index(hash(k), bits), k), hash, Entry(k, 0))
  {
    MaskedValue(hash(k), bits);
    var b := Index(hash(k), bits);
    var empty := FreshTable<nat, nat>(bits).buckets;
    TotalZero(empty);
    TotalUpdate(empty, b, [Entry(k, 0)]);
    assert Singleton(bits, b, k).buckets == empty[b := [Entry(k, 0)]];
  }

  /** Every key has the same hash. */
  function Constant(h: Word): nat -> Word {
    _ => h
  }

  /** A dictionary that is being shrunk from 2^b1 to 2^b0 buckets and still holds all it has, one
      key, in the larger table. */
  function Shrinking(b0: nat, b1: nat, h: Word): DictState<nat, nat> {
    DictState(Singleton(b1, Index(h, b1), 0), FreshTable(b0), 0)
  }

  lemma ShrinkingState(b0: nat, b1: nat, h: Word)
    requires b0 < b1 <= MAX_BITS
    ensures Consistent(Shrinking(b0, b1, h), Constant(h))
    ensures Present(Shrinking(b0, b1, h), Constant(h), 0)
    ensures forall e :: !Holds(Shrinking(b0, b1, h).ht1, Constant(h), e)
  {
    SingletonTable(b1, Constant(h), 0);
    FreshTableFacts<nat, nat>(b0, Constant(h));
    HoldsHas(Shrinking(b0, b1, h).ht0, Constant(h), 0);
  }

  /** The scan's promise holds at a cursor, for all contents, exactly when the cursor fits. */
  lemma CoversExactlyInOrder(v: Word, b0: nat, b1: nat)
    requires b0 < b1 <= MAX_BITS
    ensures AlwaysCovers(v, b0, b1) <==> ExpansionsInOrder(v, b0, b1)
  {
    if ExpansionsInOrder(v, b0, b1) {
      forall s: DictState<nat, nat>, hash: nat -> Word, k: nat |
        Consistent(s, hash) && s.Rehashing() && s.MinBits() == b0 && s.MaxBits() == b1 &&
        Present(s, hash, k) && Passed(v, ScanNext(s, v), hash(k))
        ensures Reports(Call(s, v), hash, k)
      {
        CallReports(Call(s, v), hash, k);
      }
    } else {
      MissedKey(v, b0, b1);
    }
  }

  lemma MissedKey(v: Word, b0: nat, b1: nat)
    requires b0 < b1 <= MAX_BITS && !ExpansionsInOrder(v, b0, b1)
    ensures !AlwaysCovers(v, b0, b1)
  {
    var h := OwedExpansionMissed(v, b0, b1);
    var hash := Constant(h);
    var s := Shrinking(b0, b1, h);
    ShrinkingState(b0, b1, h);
    StepPasses(v, b0, h);
    assert !Before(h, v) by { assert FirstDiff(h, v) == FirstDiff(v, h); }
    assert Passed(v, ScanNext(s, v), hash(0));
    assert !Reports(Call(s, v), hash, 0);
  }

  lemma NextCursorIs(v: Word, k: nat, z: nat, next: Word)
    requires z < k <= WORD && !v[z] && forall i :: z < i < k ==> v[i]
    requires forall i :: 0 <= i < WORD ==> next[i] == (if i < z then v[i] else i == z)
    ensures NextCursor(v, k) == next
  {
    NextCursorBits(v, k);
    assert TopClear(v, k) == z;
    assert forall i :: 0 <= i < WORD ==> NextCursor(v, k)[i] == next[i];
  }

  /** With 16 buckets the cursor after 0 is 8; with 4 buckets it goes on with 2, 1, 3 and 0. The
      hash 4 is not visited at 0, and its expansion is owed at 8 but comes before it. */
  lemma QuarterCursors() returns (small: nat, big: nat, h: Word, c1: Word, c2: Word, c3: Word, c4: Word)
    ensures Pow2(small) == 4 && Pow2(big) == 16 && small < big <= MAX_BITS && LeastBits(4, small)
    ensures NextCursor(Zero(), big) == c1 && NextCursor(c1, small) == c2 && NextCursor(c2, small) == c3
    ensures NextCursor(c3, small) == c4 && NextCursor(c4, small) == Zero()
    ensures c1 != Zero() && c2 != Zero() && c3 != Zero() && c4 != Zero()
    ensures !Agree(h, Zero(), big) && Expansion(h, small, big) < Expansion(c1, small, big)
    ensures !Agree(h, c2, small) && !Agree(h, c3, small) && !Agree(h, c4, small)
  {
    hide NextCursor, TopClear, Value;
    small, big, h, c1, c2, c3, c4 := 2, 4, Bit(2), Bit(3), Bit(1), Bit(0), Mask(2);
    NextCursorIs(Zero(), 4, 3, c1);
    NextCursorIs(c1, 2, 1, c2);
    NextCursorIs(c2, 2, 0, c3);
    NextCursorIs(c3, 2, 1, c4);
    NextCursorBits(c4, 2);
    assert h[2] && c1[3] && c2[1] && c3[0] && c4[0];
    TopBitDecides(h[2..4], c1[2..4], 1);
  }

  /** The one key, still in the table being shrunk, is not reported at these cursors. */
  lemma NotReported(b0: nat, b1: nat, h: Word, v: Word)
    requires b0 < b1 <= MAX_BITS && (!Agree(h, v, b0) || Expansion(h, b0, b1) < Expansion(v, b0, b1))
    ensures Consistent(Shrinking(b0, b1, h), Constant(h)) && Present(Shrinking(b0, b1, h), Constant(h), 0)
    ensures !Reports(Call(Shrinking(b0, b1, h), v), Constant(h), 0)
  {
    ShrinkingState(b0, b1, h);
  }

  /** A run of five calls: one on the full table, then four while a shrink is under way. */
  lemma RunOfFive<K, V>(full: DictState<K, V>, shrinking: DictState<K, V>, c1: Word, c2: Word, c3: Word, c4: Word)
      returns (run: seq<Call<K, V>>)
    requires Follows(Call(full, Zero()), Call(shrinking, c1)) && Follows(Call(shrinking, c1), Call(shrinking, c2))
    requires Follows(Call(shrinking, c2), Call(shrinking, c3)) && Follows(Call(shrinking, c3), Call(shrinking, c4))
    requires ScanNext(shrinking, c4) == Zero()
    ensures CursorRun(run) && |run| == 5 && run[0] == Call(full, Zero()) && run[1] == Call(shrinking, c1)
    ensures run[2] == Call(shrinking, c2) && run[3] == Call(shrinking, c3) && run[4] == Call(shrinking, c4)
  {
    hide NextCursor;
    run := [Call(full, Zero()), Call(shrinking, c1), Call(shrinking, c2), Call(shrinking, c3), Call(shrinking, c4)];
  }

  /**
   The promise fails for a shrink to a quarter of the size: from 16 buckets to 4, a key with hash
   4 that is in the dictionary at every call is reported by none of the calls 0, 8, 2, 1, 3. All
   that happens is one `dictResize` after the first call.
   */
  lemma ShrinkToQuarterMissesKey() returns (run: seq<Call<nat, nat>>, hash: nat -> Word, k: nat)
    ensures FullScan(run, hash) && |run| == 5
    ensures |run[0].s.ht0.buckets| == 16 && |run[1].s.ht1.buckets| == 4 && Resized(run[0].s, run[1].s)
    ensures run[2].s == run[1].s && run[3].s == run[1].s && run[4].s == run[1].s
    ensures forall i :: 0 <= i < |run| ==> Present(run[i].s, hash, k) && !Reports(run[i], hash, k)
  {
    hide NextCursor, WellFormed, Index, Expansion, Agree;
    var small, big, h, c1, c2, c3, c4 := QuarterCursors();
    hash, k := Constant(h), 0;
    var full, shrinking := Whole(big, h), Shrinking(small, big, h);
    WholeState(big, h, Zero());
    NotReported(small, big, h, c1);
    NotReported(small, big, h, c2);
    NotReported(small, big, h, c3);
    NotReported(small, big, h, c4);
    run := RunOfFive(full, shrinking, c1, c2, c3, c4);
  }

  /** A dictionary of one table holding one key. */
  function Whole(bits: nat, h: Word): DictState<nat, nat> {
    DictState(Singleton(bits, Index(h, bits), 0), Reset(), -1)
  }

  lemma WholeState(bits: nat, h: Word, v: Word)
    requires bits <= MAX_BITS && !Agree(h, v, bits)
    ensures Consistent(Whole(bits, h), Constant(h)) && Present(Whole(bits, h), Constant(h), 0)
    ensures !Reports(Call(Whole(bits, h), v), Constant(h), 0)
  {
    SingletonTable(bits, Constant(h), 0);
    HoldsHas(Whole(bits, h).ht0, Constant(h), 0);
  }

  // ------------------------------------------------------- how long it takes

  /** The low k bits of a word, read backwards. */
  function Backwards(v: Word, k: nat): seq<bool>
    requires k <= WORD
  {
    seq(k, i requires 0 <= i < k => v[k - 1 - i])
  }

  lemma BackwardsCounts(v: Word, k: nat)
    requires k <= WORD
    ensures Backwards(NextCursor(v, k), k) == Increment(Backwards(v, k))
  {
    var x := Reverse(Or(v, Not(Mask(k))));
    IncrementDrop(x, WORD - k);
    assert x[WORD - k..] == Backwards(v, k);
    assert Backwards(NextCursor(v, k), k) == Increment(x)[WORD - k..];
  }

  lemma BackwardsZero(v: Word, k: nat)
    requires k <= WORD && forall i :: k <= i < WORD ==> !v[i]
    ensures Value(Backwards(v, k)) == 0 <==> v == Zero()
  {
    ValueZero(Backwards(v, k));
    assert forall j :: 0 <= j < k ==> Backwards(v, k)[k - 1 - j] == v[j];
  }

  /** While the smaller table keeps 2^b buckets, the i-th call is at the i-th reversed number. */
  lemma {:induction false} CallNumber<K, V>(run: seq<Call<K, V>>, b: nat, i: nat)
    requires CursorSteps(run) && i < |run| && b <= WORD
    requires forall j :: 0 <= j < |run| ==> run[j].s.MinBits() == b
    ensures Value(Backwards(run[i].v, b)) == i < Pow2(b)
  {
    hide NextCursor, Increment;
    ValueBound(Backwards(run[i].v, b));
    if i == 0 {
      BackwardsZero(run[0].v, b);
    } else {
      CallNumber(run, b, i - 1);
      var p := run[i - 1];
      assert GoesOn(run, i) && p.s.Size() > 0;
      BackwardsCounts(p.v, b);
      IncrementValue(Backwards(p.v, b));
      NextCursorFits(p.v, b);
      BackwardsZero(run[i].v, b);
    }
  }

  /** Calls on a dictionary of fixed size come to an end: there are at most as many as the smaller
      table has buckets, and unless the dictionary is empty the one that returns 0 is exactly the
      last of these. */
  lemma ScanLength<K, V>(run: seq<Call<K, V>>, b: nat)
    requires CursorSteps(run) && b <= WORD
    requires forall j :: 0 <= j < |run| ==> run[j].s.MinBits() == b
    ensures |run| <= Pow2(b)
    ensures run[|run| - 1].s.Size() > 0 ==> (Returned(run) == Zero() <==> |run| == Pow2(b))
    ensures run[|run| - 1].s.Size() == 0 ==> Returned(run) == Zero()
  {
    hide NextCursor, Increment;
    var n := |run| - 1;
    CallNumber(run, b, n);
    if run[n].s.Size() > 0 {
      BackwardsCounts(run[n].v, b);
      IncrementValue(Backwards(run[n].v, b));
      NextCursorFits(run[n].v, b);
      BackwardsZero(NextCursor(run[n].v, b), b);
    }
  }

  /** A cursor further on in the scan order is a larger reversed number. */
  lemma BeforeIsLess(a: Word, b: Word, k: nat)
    requires k <= WORD && Before(a, b) && forall i :: k <= i < WORD ==> !a[i] && !b[i]
    ensures Value(Backwards(a, k)) < Value(Backwards(b, k))
  {
    hide Value;
    var d := FirstDiff(a, b);
    TopBitDecides(Backwards(a, k), Backwards(b, k), k - 1 - d);
  }

  /** The i-th call is at the i-th reversed number or beyond, whatever happens to the tables. */
  lemma {:induction false} CallReaches<K, V>(run: seq<Call<K, V>>, b: nat, i: nat)
    requires CursorSteps(run) && i < |run| && b <= WORD
    requires forall j :: 0 <= j < |run| ==> run[j].s.MinBits() <= b
    ensures Value(Backwards(run[i].v, b)) >= i && forall j :: b <= j < WORD ==> !run[i].v[j]
  {
    hide NextCursor, Value, Backwards, Before;
    if i > 0 {
      CallReaches(run, b, i - 1);
      var p := run[i - 1];
      assert GoesOn(run, i);
      NextCursorAdvances(p.v, p.s.MinBits());
      NextCursorFits(p.v, p.s.MinBits());
      BeforeIsLess(p.v, run[i].v, b);
    }
  }

  /** No scan goes on for ever: whatever is added, deleted, migrated, grown or shrunk in between,
      there are at most as many calls as the smaller table ever has buckets. */
  lemma ScanEnds<K, V>(run: seq<Call<K, V>>, b: nat)
    requires CursorSteps(run) && b <= WORD
    requires forall j :: 0 <= j < |run| ==> run[j].s.MinBits() <= b
    ensures |run| <= Pow2(b)
    ensures |run| == Pow2(b) ==> Returned(run) == Zero()
  {
    hide NextCursor, Value, Before;
    var last := run[|run| - 1];
    CallReaches(run, b, |run| - 1);
    ValueBound(Backwards(last.v, b));
    if Returned(run) != Zero() {
      NextCursorAdvances(last.v, last.s.MinBits());
      NextCursorFits(last.v, last.s.MinBits());
      BeforeIsLess(last.v, Returned(run), b);
      ValueBound(Backwards(Returned(run), b));
    }
  }

  // ------------------------------------------------------ how often a key is reported

  /** How far a word is in the scan order. */
  function Rank(v: Word): (r: nat)
    ensures r < Pow2(WORD)
  {
    ValueBound(Backwards(v, WORD));
    Value(Backwards(v, WORD))
  }

  lemma RankOrders(a: Word, b: Word)
    ensures Before(a, b) <==> Rank(a) < Rank(b)
  {
    hide Value, Backwards;
    if Before(a, b) {
      BeforeIsLess(a, b, WORD);
    } else if a != b {
      assert FirstDiff(b, a) == FirstDiff(a, b);
      BeforeIsLess(b, a, WORD);
    }
  }

  /** The cursor uses no bit beyond those of a table with 2^b buckets. */
  predicate Narrow(v: Word, b: nat) {
    forall i :: b <= i < WORD ==> !v[i]
  }

  /** A call whose cursor is no wider than its smaller table reports only keys that it leaves
      behind: none that an earlier cursor has left behind already. */
  lemma ReportsOnlyPassed<K(!new), V(!new)>(c: Call<K, V>, hash: K -> Word, k: K)
    requires Consistent(c.s, hash) && Narrow(c.v, c.s.MinBits()) && Reports(c, hash, k)
    ensures Passed(c.v, ScanNext(c.s, c.v), hash(k))
  {
    hide NextCursor, WellFormed, Expansion, Holds;
    BitsBounded(c.s, hash);
    StepPasses(c.v, c.s.MinBits(), hash(k));
  }

  /** The smaller table has not become smaller since the call before. */
  predicate Unshrunk<K, V>(run: seq<Call<K, V>>, i: int)
    requires 0 < i < |run|
  {
    run[i].s.MinBits() >= run[i - 1].s.MinBits()
  }

  /** No shrink starts inside the run. */
  predicate NoShrink<K, V>(run: seq<Call<K, V>>) {
    forall i :: 0 < i < |run| ==> Unshrunk(run, i)
  }

  lemma NarrowCursor<K(!new), V>(run: seq<Call<K, V>>, hash: K -> Word, i: nat)
    requires CursorSteps(run) && AllConsistent(run, hash) && NoShrink(run) && i < |run|
    ensures Narrow(run[i].v, run[i].s.MinBits())
  {
    if i > 0 {
      assert Unshrunk(run, i);
      BitsBounded(run[i - 1].s, hash);
    }
    CursorOfPrevious(run, i);
  }

  /** Cursors only move on. */
  lemma {:induction false} CursorsRise<K(!new), V>(run: seq<Call<K, V>>, hash: K -> Word, i: nat, j: nat)
    requires CursorSteps(run) && AllConsistent(run, hash) && i <= j < |run|
    ensures Rank(run[i].v) <= Rank(run[j].v)
    decreases j
  {
    hide NextCursor, Rank, Consistent;
    if i < j {
      CursorsRise(run, hash, i, j - 1);
      assert GoesOn(run, j);
      BitsBounded(run[j - 1].s, hash);
      NextCursorAdvances(run[j - 1].v, run[j - 1].s.MinBits());
      RankOrders(run[j - 1].v, run[j].v);
    }
  }

  /** What a call leaves behind lies behind every later cursor. */
  lemma StaysBehindLater(v: Word, next: Word, later: Word, h: Word)
    requires Passed(v, next, h) && next != Zero() && Rank(next) <= Rank(later)
    ensures Before(h, later)
  {
    hide Before, Rank;
    RankOrders(h, next);
    RankOrders(h, later);
  }

  /**
   Whatever additions, deletions, migration steps and growths happen between the calls, and all
   the more if nothing happens, no two calls report the same key, unless a shrink starts.
   */
  lemma ReportedAtMostOnce<K(!new), V(!new)>(run: seq<Call<K, V>>, hash: K -> Word, k: K, i: nat, j: nat)
    requires CursorSteps(run) && AllConsistent(run, hash) && NoShrink(run) && i <= j < |run|
    requires Reports(run[i], hash, k) && Reports(run[j], hash, k)
    ensures i == j
  {
    hide ScanNext, Rank, Consistent, Reports, NoShrink, Before;
    NarrowCursor(run, hash, i);
    NarrowCursor(run, hash, j);
    ReportsOnlyPassed(run[i], hash, k);
    ReportsOnlyPassed(run[j], hash, k);
    if i < j {
      assert GoesOn(run, i + 1);
      CursorsRise(run, hash, i + 1, j);
      StaysBehindLater(run[i].v, run[i + 1].v, run[j].v, hash(k));
    }
  }

  /** A full scan without a shrink reports every key that is there throughout exactly once. */
  lemma ReportedExactlyOnce<K(!new), V(!new)>(run: seq<Call<K, V>>, hash: K -> Word, k: K) returns (i: nat)
    requires FullScan(run, hash) && NoShrink(run)
    requires forall i :: 0 <= i < |run| ==> Present(run[i].s, hash, k)
    ensures i < |run| && Reports(run[i], hash, k)
    ensures forall j :: 0 <= j < |run| && Reports(run[j], hash, k) ==> j == i
  {
    hide Consistent, Reports, Present;
    forall j | 0 < j < |run| ensures Shallow(run, j) {
      assert Unshrunk(run, j);
    }
    ScanCoverageWithoutDeepShrink(run, hash, k);
    i :| 0 <= i < |run| && Reports(run[i], hash, k);
    forall j | 0 <= j < |run| && Reports(run[j], hash, k) ensures j == i {
      if i <= j { ReportedAtMostOnce(run, hash, k, i, j); } else { ReportedAtMostOnce(run, hash, k, j, i); }
    }
  }

  /** Whatever a dictionary whose smaller table has 2^b buckets holds, the call at cursor v reports
      no key that lies behind the cursor. */
  ghost predicate NeverLooksBack(v: Word, b: nat) {
    forall s: DictState<nat, nat>, hash: nat -> Word, k: nat ::
      Consistent(s, hash) && s.MinBits() == b && Reports(Call(s, v), hash, k) ==> !Before(hash(k), v)
  }

  /** Word v with its bits from b on cleared. */
  function Narrowed(v: Word, b: nat): Word {
    seq(WORD, i requires 0 <= i < WORD => i < b && v[i])
  }

  /** The call may report a key once more exactly when the cursor is wider than the table: it comes
      from a larger one. */
  lemma LooksBackExactlyWhenWide(v: Word, b: nat)
    requires b <= MAX_BITS
    ensures NeverLooksBack(v, b) <==> Narrow(v, b)
  {
    if Narrow(v, b) {
      forall s: DictState<nat, nat>, hash: nat -> Word, k: nat |
        Consistent(s, hash) && s.MinBits() == b && Reports(Call(s, v), hash, k)
        ensures !Before(hash(k), v)
      {
        ReportsOnlyPassed(Call(s, v), hash, k);
      }
    } else {
      var h := Narrowed(v, b);
      WholeReports(b, h, v);
      assert h[FirstDiff(h, v)] != v[FirstDiff(h, v)];
      assert Reports(Call(Whole(b, h), v), Constant(h), 0);
    }
  }

  lemma WholeReports(bits: nat, h: Word, v: Word)
    requires bits <= MAX_BITS && Agree(h, v, bits)
    ensures Consistent(Whole(bits, h), Constant(h)) && Present(Whole(bits, h), Constant(h), 0)
    ensures Reports(Call(Whole(bits, h), v), Constant(h), 0)
  {
    SingletonTable(bits, Constant(h), 0);
    HoldsHas(Whole(bits, h).ht0, Constant(h), 0);
    assert Emits(Whole(bits, h), Constant(h), v, Entry(0, 0));
  }

  /** With a shrink a key can be reported twice: at cursor 0 of 8 buckets, and at the next cursor,
      4, of 4 buckets. */
  lemma ShrinkReportsTwice() returns (run: seq<Call<nat, nat>>, hash: nat -> Word, k: nat)
    ensures CursorSteps(run) && AllConsistent(run, hash) && |run| == 2
    ensures |run[0].s.ht0.buckets| == 8 && |run[1].s.ht0.buckets| == 4
    ensures Reports(run[0], hash, k) && Reports(run[1], hash, k)
  {
    hide NextCursor, WellFormed, Index, Agree, Reports;
    hash, k := Constant(Zero()), 0;
    assert Agree(Zero(), Bit(2), 2) by { AgreeBelow(2); }
    WholeReports(3, Zero(), Zero());
    WholeReports(2, Zero(), Bit(2));
    NextCursorIs(Zero(), 3, 2, Bit(2));
    assert Bit(2)[2];
    run := [Call(Whole(3, Zero()), Zero()), Call(Whole(2, Zero()), Bit(2))];
    assert Follows(run[0], run[1]);
    assert GoesOn(run, 1);
  }

  lemma AgreeBelow(b: nat)
    requires b < WORD
    ensures Agree(Zero(), Bit(b), b) && Agree(Zero(), Zero(), b)
  {}
}
