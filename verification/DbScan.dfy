/**
 SCAN over the internal databases. A logical database is split into `dbinum` internal ones; a key
 lives in the one its checksum selects. The command walks them in order and keeps, between
 commands, the number of the one it is in; the cursor restarts at 0 in each.
 */
module KeyScan {
  import opened Basics
  import opened Words
  import opened Cursor
  import opened Tables
  import opened Dicts
  import opened ScanRuns

  /** `(hash_crc16(key) & 0x3FFF) % dbinum`: the internal database of a key. */
  function Route(crc16: nat, dbinum: nat): (idx: nat)
    requires dbinum > 0
    ensures idx < dbinum
  {
    (crc16 % 0x4000) % dbinum
  }

  /** One `dictScan` call made on behalf of a SCAN command: on which internal database, and the
      call. */
  datatype Step<K, V> = Step(idx: nat, call: Call<K, V>)

  /** Where the iteration stands: internal database and cursor; At(n, 0) is the end. */
  datatype Standing = At(idx: int, cursor: Word)

  /** A database that returned cursor 0 is followed by the next one. */
  function Onward(idx: int, cursor: Word): Standing {
    if cursor != Zero() then At(idx, cursor) else At(idx + 1, Zero())
  }

  function After<K, V>(a: Step<K, V>): Standing {
    Onward(a.idx, ScanNext(a.call.s, a.call.v))
  }

  predicate Leads<K, V>(a: Step<K, V>, b: Step<K, V>) {
    After(a) == At(b.idx, b.call.v)
  }

  predicate LeadsTo<K, V>(steps: seq<Step<K, V>>, i: int)
    requires 0 < i < |steps|
  {
    Leads(steps[i - 1], steps[i])
  }

  /** Steps that lead from one standing to another among n internal databases. */
  predicate Path<K, V>(steps: seq<Step<K, V>>, n: nat, start: Standing, end: Standing) {
    && steps != []
    && At(steps[0].idx, steps[0].call.v) == start
    && After(steps[|steps| - 1]) == end
    && (forall i :: 0 <= i < |steps| ==> steps[i].idx < n)
    && (forall i :: 0 < i < |steps| ==> LeadsTo(steps, i))
  }

  lemma PathExtend<K, V>(a: seq<Step<K, V>>, b: seq<Step<K, V>>, n: nat, start: Standing, mid: Standing, end: Standing)
    requires Path(a, n, start, mid) && Path(b, n, mid, end)
    ensures Path(a + b, n, start, end)
  {
    hide NextCursor;
    var c := a + b;
    assert Leads(a[|a| - 1], b[0]);
    forall i | 0 < i < |c| ensures LeadsTo(c, i) {
      if i < |a| {
        assert LeadsTo(a, i);
      } else if i == |a| {
        assert c[i - 1] == a[|a| - 1] && c[i] == b[0];
      } else {
        assert LeadsTo(b, i - |a|);
      }
    }
  }

  /** Every call met a dictionary that keeps its invariant. */
  ghost predicate Sound<K(!new), V>(steps: seq<Step<K, V>>, hash: K -> Word) {
    forall i :: 0 <= i < |steps| ==> Consistent(steps[i].call.s, hash)
  }

  /** The steps were made on these databases as they are. */
  ghost predicate Found<K(!new), V(!new)>(steps: seq<Step<K, V>>, dbs: seq<Dict<K, V>>)
    reads dbs
  {
    forall i :: 0 <= i < |steps| ==> steps[i].idx < |dbs| && steps[i].call.s == dbs[steps[i].idx].View()
  }

  /** Every key reported by one of the steps. */
  ghost predicate Reported<K(!new), V(!new)>(steps: seq<Step<K, V>>, hash: K -> Word, k: K)
    requires Sound(steps, hash)
  {
    exists i :: 0 <= i < |steps| && Reports(steps[i].call, hash, k)
  }

  /** How many of the steps report a key. */
  ghost function Times<K(!new), V(!new)>(steps: seq<Step<K, V>>, hash: K -> Word, k: K): nat
    requires Sound(steps, hash)
    decreases |steps|
  {
    var m := |steps| - 1;
    if steps == [] then 0 else Times(steps[..m], hash, k) + if Reports(steps[m].call, hash, k) then 1 else 0
  }

  lemma {:induction false} TimesReported<K(!new), V(!new)>(steps: seq<Step<K, V>>, hash: K -> Word, k: K)
    requires Sound(steps, hash)
    ensures Reported(steps, hash, k) <==> Times(steps, hash, k) > 0
    decreases |steps|
  {
    hide Consistent, Reports;
    if steps != [] {
      var init := steps[..|steps| - 1];
      TimesReported(init, hash, k);
      if Reported(init, hash, k) {
        var i :| 0 <= i < |init| && Reports(init[i].call, hash, k);
        assert Reports(steps[i].call, hash, k);
      } else {
        assert steps == init + [steps[|init|]];
      }
    }
  }

  lemma {:induction false} TimesAdd<K(!new), V(!new)>(a: seq<Step<K, V>>, b: seq<Step<K, V>>, hash: K -> Word, k: K)
    requires Sound(a, hash) && Sound(b, hash)
    ensures Sound(a + b, hash) && Times(a + b, hash, k) == Times(a, hash, k) + Times(b, hash, k)
    decreases |b|
  {
    hide Consistent, Reports;
    if b == [] {
      assert a + b == a;
    } else {
      TimesAdd(a, b[..|b| - 1], hash, k);
      assert (a + b)[..|a + b| - 1] == a + b[..|b| - 1];
    }
  }

  /** The keys are those there were before, and each key once more for every step that reports it. */
  ghost predicate Collected<K(!new), V(!new)>(keys: seq<K>, have: seq<K>, steps: seq<Step<K, V>>, hash: K -> Word) {
    Sound(steps, hash) && forall k :: multiset(keys)[k] == multiset(have)[k] + Times(steps, hash, k)
  }

  lemma CollectedMore<K(!new), V(!new)>(keys: seq<K>, mid: seq<K>, have: seq<K>, a: seq<Step<K, V>>, b: seq<Step<K, V>>,
                                        hash: K -> Word)
    requires Collected(mid, have, a, hash) && Collected(keys, mid, b, hash)
    ensures Collected(keys, have, a + b, hash)
  {
    hide Consistent, Times;
    forall k ensures Times(a + b, hash, k) == Times(a, hash, k) + Times(b, hash, k) {
      TimesAdd(a, b, hash, k);
    }
  }

  /** Before the last step there were fewer than `count` keys. */
  ghost predicate LastNeeded<K(!new), V(!new)>(keys: seq<K>, have: seq<K>, steps: seq<Step<K, V>>, hash: K -> Word,
                                               count: nat)
    requires steps != []
  {
    var m := |steps| - 1;
    exists mid :: |mid| < count && Collected(mid, have, steps[..m], hash) && Collected(keys, mid, steps[m..], hash)
  }

  lemma StepNeeded<K(!new), V(!new)>(keys: seq<K>, mid: seq<K>, have: seq<K>, steps: seq<Step<K, V>>, step: Step<K, V>,
                                     hash: K -> Word, count: nat)
    requires Collected(mid, have, steps, hash) && Collected(keys, mid, [step], hash) && |mid| < count
    ensures LastNeeded(keys, have, steps + [step], hash, count)
  {
    hide Collected;
    var all := steps + [step];
    assert all[..|all| - 1] == steps && all[|all| - 1..] == [step];
  }

  /** The keys of a list of entries. */
  function KeysIn<K, V>(entries: seq<Entry<K, V>>): seq<K> {
    seq(|entries|, i requires 0 <= i < |entries| => entries[i].key)
  }

  /** A list without repetitions holds each of its elements once. */
  lemma {:induction false} DistinctCount<K>(keys: seq<K>, k: K)
    requires forall i, j :: 0 <= i < j < |keys| ==> keys[i] != keys[j]
    ensures multiset(keys)[k] == if k in keys then 1 else 0
  {
    if keys != [] {
      var m := |keys| - 1;
      assert keys == keys[..m] + [keys[m]];
      DistinctCount(keys[..m], k);
    }
  }

  lemma KeyReported<K(!new), V(!new)>(c: Call<K, V>, hash: K -> Word, emitted: seq<Entry<K, V>>, k: K)
    requires Consistent(c.s, hash)
    requires forall e :: e in emitted <==> c.s.Size() > 0 && Emits(c.s, hash, c.v, e)
    ensures k in KeysIn(emitted) <==> Reports(c, hash, k)
  {
    hide Emits, WellFormed;
    BitsBounded(c.s, hash);
    if k in KeysIn(emitted) {
      var i :| 0 <= i < |emitted| && KeysIn(emitted)[i] == k;
      assert emitted[i] == Entry(k, emitted[i].val) && emitted[i] in emitted;
    }
    if Reports(c, hash, k) {
      var val :| c.s.Size() > 0 && Emits(c.s, hash, c.v, Entry(k, val));
      var i :| 0 <= i < |emitted| && emitted[i] == Entry(k, val);
      assert KeysIn(emitted)[i] == k;
    }
  }

  /** One call adds each key it reports once. */
  lemma CollectedKeys<K(!new), V(!new)>(step: Step<K, V>, hash: K -> Word, emitted: seq<Entry<K, V>>, have: seq<K>,
                                        keys: seq<K>)
    requires Consistent(step.call.s, hash) && keys == have + KeysIn(emitted)
    requires forall e :: e in emitted <==> step.call.s.Size() > 0 && Emits(step.call.s, hash, step.call.v, e)
    requires forall i, j :: 0 <= i < j < |emitted| ==> emitted[i].key != emitted[j].key
    ensures Collected(keys, have, [step], hash)
  {
    hide Consistent, Emits, Reports;
    forall k ensures multiset(keys)[k] == multiset(have)[k] + Times([step], hash, k) {
      KeyReported(step.call, hash, emitted, k);
      DistinctCount(KeysIn(emitted), k);
      assert [step][..0] == [];
    }
  }

  // ---------------------------------------------------------- the command

  /** One SCAN command: the `dictScan` calls it made, the internal database it ended in, the cursor
      it returned, the keys its filter drops (those that `checkIfExpired` finds expired in that
      database at that time), and the keys it returned. */
  datatype Command<!K, V> =
    Command(steps: seq<Step<K, V>>, last: nat, next: Word, dropped: K -> bool, reply: seq<K>)

  /** The reply is what the calls reported, filtered: it holds a key once for each call that
      reported it, unless the filter drops it. */
  ghost predicate Answered<K(!new), V(!new)>(c: Command<K, V>, hash: K -> Word) {
    && Sound(c.steps, hash)
    && forall k :: multiset(c.reply)[k] == if c.dropped(k) then 0 else Times(c.steps, hash, k)
  }

  lemma AnswerHolds<K(!new), V(!new)>(c: Command<K, V>, hash: K -> Word, k: K)
    requires Answered(c, hash)
    ensures k in c.reply <==> Reported(c.steps, hash, k) && !c.dropped(k)
  {
    hide Reported, Times;
    TimesReported(c.steps, hash, k);
    assert k in c.reply <==> multiset(c.reply)[k] > 0;
  }

  class Client {
    /** -1 when no scan is under way. */
    var scanid: int

    /** The inner loop of the command: `dictScan` until the database is done, enough keys are
        collected, or the allowance of count * 10 further calls is used up, and no longer. */
    static method ScanDb<K(==, !new), V(==, !new)>(d: Dict<K, V>, ghost n: nat, idx: nat, cursor: Word, count: nat, have: seq<K>)
        returns (next: Word, keys: seq<K>, ghost steps: seq<Step<K, V>>)
      requires d.Valid() && idx < n
      ensures Path(steps, n, At(idx, cursor), Onward(idx, next)) && Collected(keys, have, steps, d.hash)
      ensures forall i :: 0 <= i < |steps| ==> steps[i].idx == idx && steps[i].call.s == d.View()
      ensures |steps| <= 10 * count + 1 && (next != Zero() ==> |keys| >= count || |steps| == 10 * count + 1)
      ensures |steps| > 1 ==> LastNeeded(keys, have, steps, d.hash, count)
    {
      hide NextCursor, Consistent, Collected, LastNeeded;
      var maxIterations: int := count * 10;
      next, keys := ScanOnce(d, idx, cursor, have);
      steps := [Step(idx, Call(d.View(), cursor))];
      while next != Zero() && maxIterations != 0 && |keys| < count
        invariant maxIterations >= 0 && |steps| == 10 * count + 1 - maxIterations
        invariant |steps| > 1 ==> LastNeeded(keys, have, steps, d.hash, count)
        invariant Path(steps, n, At(idx, cursor), Onward(idx, next)) && Collected(keys, have, steps, d.hash)
        invariant forall i :: 0 <= i < |steps| ==> steps[i].idx == idx && steps[i].call.s == d.View()
        decreases maxIterations
      {
        maxIterations := maxIterations - 1;
        ghost var step := Step(idx, Call(d.View(), next));
        ghost var before, mid := next, keys;
        next, keys := ScanOnce(d, idx, next, keys);
        PathExtend(steps, [step], n, At(idx, cursor), At(idx, before), Onward(idx, next));
        CollectedMore(keys, mid, have, steps, [step], d.hash);
        StepNeeded(keys, mid, have, steps, step, d.hash, count);
        steps := steps + [step];
      }
    }

    /** One call with the callback that collects keys. */
    static method ScanOnce<K(==, !new), V(==, !new)>(d: Dict<K, V>, ghost idx: nat, cursor: Word, have: seq<K>)
        returns (next: Word, keys: seq<K>)
      requires d.Valid()
      ensures next == ScanNext(d.View(), cursor)
      ensures Collected(keys, have, [Step(idx, Call(d.View(), cursor))], d.hash)
    {
      hide Consistent, Represents, ScanNext, Emits;
      var emitted;
      next, emitted := d.Scan(cursor);
      keys := CollectKeys(emitted, have);
      CollectedKeys(Step(idx, Call(d.View(), cursor)), d.hash, emitted, have, keys);
    }

    /** `scanCallback` on each entry. */
    static method CollectKeys<K, V>(emitted: seq<Entry<K, V>>, have: seq<K>) returns (keys: seq<K>)
      ensures keys == have + KeysIn(emitted)
    {
      keys := have;
      for i := 0 to |emitted|
        invariant keys == have + KeysIn(emitted[..i])
      {
        keys := keys + [emitted[i].key];
      }
      assert emitted[..|emitted|] == emitted;
    }

    /** From one internal database to the next while they end, collecting keys. */
    static method ScanDbs<K(==, !new), V(==, !new)>(dbs: seq<Dict<K, V>>, hash: K -> Word, first: nat, cursor: Word, count: nat)
        returns (idx: nat, next: Word, keys: seq<K>, ghost steps: seq<Step<K, V>>)
      requires first < |dbs|
      requires forall i :: 0 <= i < |dbs| ==> dbs[i].Valid() && dbs[i].hash == hash
      ensures idx < |dbs| && (next == Zero() ==> idx == |dbs| - 1)
      ensures Path(steps, |dbs|, At(first, cursor), Onward(idx, next)) && Found(steps, dbs)
      ensures Collected(keys, [], steps, hash) && (next != Zero() ==> |keys| >= count || |steps| > 10 * count)
    {
      hide ScanNext, Consistent, Collected;
      idx := first;
      next, keys, steps := ScanDb(dbs[idx], |dbs|, idx, cursor, count, []);
      while next == Zero() && idx < |dbs| - 1
        invariant 0 <= idx < |dbs|
        invariant Path(steps, |dbs|, At(first, cursor), Onward(idx, next)) && Found(steps, dbs)
        invariant Collected(keys, [], steps, hash) && (next != Zero() ==> |keys| >= count || |steps| > 10 * count)
        decreases |dbs| - idx
      {
        idx := idx + 1;
        ghost var more, mid := [], keys;
        next, keys, more := ScanDb(dbs[idx], |dbs|, idx, Zero(), count, keys);
        PathExtend(steps, more, |dbs|, At(first, cursor), At(idx, Zero()), Onward(idx, next));
        CollectedMore(keys, mid, [], steps, more, hash);
        steps := steps + more;
      }
    }

    /** Step 3 of the command: expired keys are dropped. */
    static method Filter<K(==, !new)>(keys: seq<K>, db: nat, expired: (nat, K) -> bool) returns (reply: seq<K>)
      ensures forall k :: multiset(reply)[k] == if expired(db, k) then 0 else multiset(keys)[k]
    {
      reply := [];
      for i := 0 to |keys|
        invariant forall k :: multiset(reply)[k] == if expired(db, k) then 0 else multiset(keys[..i])[k]
      {
        assert keys[..i + 1] == keys[..i] + [keys[i]];
        if !expired(db, keys[i]) { reply := reply + [keys[i]]; }
      }
      assert keys[..|keys|] == keys;
    }

    /**
     The key path of `scanGenericCommand`: go on in the internal database of the last command, or
     start in the first one for cursor 0; each database that ends is followed by the next one, so
     that cursor 0 is only returned, with `scanid` reset, after the last. The keys collected are
     filtered by the expiry table of the database the command ended in.
     */
    method Scan<K(==, !new), V(==, !new)>(dbs: seq<Dict<K, V>>, hash: K -> Word, cursor: Word, count: nat,
                                          expired: (nat, K) -> bool)
        returns (next: Word, reply: seq<K>, ghost steps: seq<Step<K, V>>, ghost last: nat)
      requires dbs != [] && -1 <= scanid < |dbs|
      requires forall i :: 0 <= i < |dbs| ==> dbs[i].Valid() && dbs[i].hash == hash
      modifies this
      ensures Path(steps, |dbs|, At(if old(scanid) == -1 || cursor == Zero() then 0 else old(scanid), cursor),
                   Onward(last, next)) && Found(steps, dbs)
      ensures last < |dbs| && scanid == if next == Zero() then -1 else last
      ensures next == Zero() ==> last == |dbs| - 1
      ensures Answered(Command(steps, last, next, k => expired(last, k), reply), hash)
    {
      hide Path, Consistent, Times;
      if scanid == -1 || cursor == Zero() { scanid := 0; }
      var keys, idx;
      idx, next, keys, steps := ScanDbs(dbs, hash, scanid, cursor, count);
      last := idx;
      reply := Filter(keys, idx, expired);
      scanid := if next == Zero() then -1 else idx;
    }
  }

  // ------------------------------------------------------- the client's loop

  function AllSteps<K, V>(cmds: seq<Command<K, V>>): seq<Step<K, V>> {
    if cmds == [] then [] else cmds[0].steps + AllSteps(cmds[1..])
  }

  /** A client's whole iteration: from cursor 0, each command with the cursor the one before
      returned, until the last database returns 0. The databases may change between any two
      `dictScan` calls; `ScanMore` is one command of such an iteration, `ScanAll` a whole one. */
  ghost predicate ClientLoop<K(!new), V(!new)>(cmds: seq<Command<K, V>>, hash: K -> Word, n: nat) {
    && Path(AllSteps(cmds), n, At(0, Zero()), At(n, Zero()))
    && forall j :: 0 <= j < |cmds| ==> Answered(cmds[j], hash)
  }

  lemma {:induction false} OneMoreCommand<K, V>(cmds: seq<Command<K, V>>, c: Command<K, V>)
    ensures AllSteps(cmds + [c]) == AllSteps(cmds) + c.steps
  {
    if cmds == [] {
      assert AllSteps([c]) == c.steps + [];
    } else {
      OneMoreCommand(cmds[1..], c);
      assert (cmds + [c])[1..] == cmds[1..] + [c];
    }
  }

  lemma {:induction false} AllSound<K(!new), V(!new)>(cmds: seq<Command<K, V>>, hash: K -> Word)
    requires forall j :: 0 <= j < |cmds| ==> Answered(cmds[j], hash)
    ensures Sound(AllSteps(cmds), hash)
  {
    hide Consistent, Reported;
    if cmds != [] {
      AllSound(cmds[1..], hash);
      assert Answered(cmds[0], hash);
    }
  }

  /** A key reported by some call of the loop is in some reply, if that reply's filter keeps it. */
  lemma {:induction false} ReportedIsReplied<K(!new), V(!new)>(cmds: seq<Command<K, V>>, hash: K -> Word, k: K, i: nat)
      returns (j: nat)
    requires forall j :: 0 <= j < |cmds| ==> Answered(cmds[j], hash) && !cmds[j].dropped(k)
    requires i < |AllSteps(cmds)| && Consistent(AllSteps(cmds)[i].call.s, hash) && Reports(AllSteps(cmds)[i].call, hash, k)
    ensures j < |cmds| && k in cmds[j].reply
    decreases |cmds|
  {
    hide Consistent, Reports, Path;
    var m := |cmds[0].steps|;
    if i < m {
      assert Reports(cmds[0].steps[i].call, hash, k);
      AnswerHolds(cmds[0], hash, k);
      j := 0;
    } else {
      assert AllSteps(cmds)[i] == AllSteps(cmds[1..])[i - m];
      j := ReportedIsReplied(cmds[1..], hash, k, i - m);
      j := j + 1;
    }
  }

  /** The calls on one internal database, from the first one on it to the one that ends it. */
  lemma {:induction false} ReachesDb<K, V>(steps: seq<Step<K, V>>, n: nat, r: nat, i: nat) returns (a: nat)
    requires Path(steps, n, At(0, Zero()), At(n, Zero())) && r < n
    requires i < |steps| && steps[i].idx <= r
    requires steps[i].idx == r ==> steps[i].call.v == Zero()
    ensures i <= a < |steps| && steps[a].idx == r && steps[a].call.v == Zero()
    decreases |steps| - i
  {
    hide NextCursor;
    if steps[i].idx == r {
      a := i;
    } else {
      StepAfter(steps, n, i);
      a := ReachesDb(steps, n, r, i + 1);
    }
  }

  /** A call that does not end the last database is followed by the one it leads to. */
  lemma StepAfter<K, V>(steps: seq<Step<K, V>>, n: nat, i: nat)
    requires Path(steps, n, At(0, Zero()), At(n, Zero())) && i < |steps|
    requires After(steps[i]) != At(n, Zero())
    ensures i + 1 < |steps| && After(steps[i]) == At(steps[i + 1].idx, steps[i + 1].call.v)
  {
    assert i + 1 < |steps| ==> LeadsTo(steps, i + 1);
  }

  /** The end of an internal database's scan. */
  lemma {:induction false} DbEnds<K, V>(steps: seq<Step<K, V>>, n: nat, a: nat, i: nat) returns (b: nat)
    requires Path(steps, n, At(0, Zero()), At(n, Zero()))
    requires a <= i < |steps|
    requires forall j :: a <= j <= i ==> steps[j].idx == steps[a].idx
    requires forall j :: a < j <= i ==> steps[j].call.v != Zero()
    ensures i <= b < |steps| && ScanNext(steps[b].call.s, steps[b].call.v) == Zero()
    ensures forall j :: a <= j <= b ==> steps[j].idx == steps[a].idx
    ensures forall j :: a < j <= b ==> steps[j].call.v != Zero()
    decreases |steps| - i
  {
    hide NextCursor;
    if ScanNext(steps[i].call.s, steps[i].call.v) == Zero() {
      b := i;
    } else {
      StepAfter(steps, n, i);
      b := DbEnds(steps, n, a, i + 1);
    }
  }

  /** The calls a..b of the loop, as one run. */
  function CallsOf<K, V>(steps: seq<Step<K, V>>, a: nat, b: nat): (run: seq<Call<K, V>>)
    requires a <= b < |steps|
    ensures |run| == b + 1 - a && forall i :: 0 <= i < |run| ==> run[i] == steps[a + i].call
  {
    seq(b + 1 - a, i requires 0 <= i < b + 1 - a => steps[a + i].call)
  }

  lemma PathFollows<K, V>(steps: seq<Step<K, V>>, n: nat, j: nat)
    requires Path(steps, n, At(0, Zero()), At(n, Zero())) && 0 < j < |steps|
    requires steps[j].idx == steps[j - 1].idx && steps[j].call.v != Zero()
    ensures Follows(steps[j - 1].call, steps[j].call)
  {
    assert LeadsTo(steps, j);
  }

  /** Every internal database is scanned in full by the calls of the loop. */
  lemma DbFullScan<K, V>(steps: seq<Step<K, V>>, n: nat, r: nat) returns (a: nat, b: nat)
    requires Path(steps, n, At(0, Zero()), At(n, Zero())) && r < n
    ensures a <= b < |steps| && forall i :: a <= i <= b ==> steps[i].idx == r
    ensures CursorRun(CallsOf(steps, a, b))
  {
    hide NextCursor;
    a := ReachesDb(steps, n, r, 0);
    b := DbEnds(steps, n, a, a);
    var run := CallsOf(steps, a, b);
    forall i | 0 < i < |run| ensures GoesOn(run, i) {
      PathFollows(steps, n, a + i);
    }
  }

  /** A key present in its internal database at every call there is reported by one of them. */
  lemma LoopReports<K(!new), V(!new)>(steps: seq<Step<K, V>>, hash: K -> Word, n: nat, r: nat, k: K) returns (i: nat)
    requires Path(steps, n, At(0, Zero()), At(n, Zero())) && r < n
    requires forall i :: 0 <= i < |steps| && steps[i].idx == r ==> Kept(steps[i].call, hash, k)
    ensures i < |steps| && Consistent(steps[i].call.s, hash) && Reports(steps[i].call, hash, k)
  {
    var a, b := DbFullScan(steps, n, r);
    i := RunReports(steps, hash, a, b, k);
  }

  lemma RunReports<K(!new), V(!new)>(steps: seq<Step<K, V>>, hash: K -> Word, a: nat, b: nat, k: K) returns (i: nat)
    requires a <= b < |steps| && CursorRun(CallsOf(steps, a, b))
    requires forall j :: a <= j <= b ==> Kept(steps[j].call, hash, k)
    ensures i < |steps| && Consistent(steps[i].call.s, hash) && Reports(steps[i].call, hash, k)
  {
    hide CursorRun, Consistent, Reports;
    var run := CallsOf(steps, a, b);
    forall j | 0 <= j < |run| ensures Kept(run[j], hash, k) {
      assert Kept(steps[a + j].call, hash, k);
    }
    var j := KeptIsReported(run, hash, k);
    i := a + j;
  }

  /**
   A client's full SCAN loop returns every key that is in its internal database at every call
   there and never expired, as long as no call meets a cursor that does not fit.
   */
  lemma ScanReturnsEveryKey<K(!new), V(!new)>(cmds: seq<Command<K, V>>, hash: K -> Word, n: nat,
                                              crc16: K -> nat, k: K)
    requires n > 0 && ClientLoop(cmds, hash, n)
    requires forall i :: 0 <= i < |AllSteps(cmds)| && AllSteps(cmds)[i].idx == Route(crc16(k), n) ==>
               Kept(AllSteps(cmds)[i].call, hash, k)
    requires forall j :: 0 <= j < |cmds| ==> !cmds[j].dropped(k)
    ensures exists j :: 0 <= j < |cmds| && k in cmds[j].reply
  {
    hide Path, Kept, Answered;
    var i := LoopReports(AllSteps(cmds), hash, n, Route(crc16(k), n), k);
    var j := ReportedIsReplied(cmds, hash, k, i);
  }

  /** From one call to the next on the same database, no shrink to less than half has begun. */
  predicate ShallowStep<K, V>(steps: seq<Step<K, V>>, i: int)
    requires 0 < i < |steps|
  {
    steps[i - 1].idx == steps[i].idx ==> Shallow([steps[i - 1].call, steps[i].call], 1)
  }

  /**
   The same for any loop in which the key's table is never shrunk to a quarter or less between two
   calls: additions, deletions, migration steps, growth and halving do not matter.
   */
  lemma ScanReturnsEveryKeyUnlessShrunk<K(!new), V(!new)>(cmds: seq<Command<K, V>>, hash: K -> Word, n: nat,
                                                          crc16: K -> nat, k: K)
    requires n > 0 && ClientLoop(cmds, hash, n)
    requires var steps, r := AllSteps(cmds), Route(crc16(k), n);
      && (forall i :: 0 <= i < |steps| && steps[i].idx == r ==> Present(steps[i].call.s, hash, k))
      && (forall i :: 0 < i < |steps| && steps[i].idx == r ==> ShallowStep(steps, i))
    requires forall j :: 0 <= j < |cmds| ==> !cmds[j].dropped(k)
    ensures exists j :: 0 <= j < |cmds| && k in cmds[j].reply
  {
    hide Path, Present, Answered, Consistent, Reports;
    var steps := AllSteps(cmds);
    AllSound(cmds, hash);
    var a, b := DbFullScan(steps, n, Route(crc16(k), n));
    var i := UnshrunkRunReports(steps, hash, a, b, k);
    var j := ReportedIsReplied(cmds, hash, k, i);
  }

  lemma UnshrunkRunReports<K(!new), V(!new)>(steps: seq<Step<K, V>>, hash: K -> Word, a: nat, b: nat, k: K)
      returns (i: nat)
    requires a <= b < |steps| && CursorRun(CallsOf(steps, a, b)) && Sound(steps, hash)
    requires forall j :: a <= j <= b ==> Present(steps[j].call.s, hash, k)
    requires forall j :: a <= j <= b ==> steps[j].idx == steps[a].idx
    requires forall j :: a < j <= b ==> ShallowStep(steps, j)
    ensures i < |steps| && Consistent(steps[i].call.s, hash) && Reports(steps[i].call, hash, k)
  {
    hide CursorRun, Consistent, Reports, Present;
    var run := CallsOf(steps, a, b);
    forall j | 0 < j < |run| ensures Shallow(run, j) {
      assert ShallowStep(steps, a + j);
    }
    ScanCoverageWithoutDeepShrink(run, hash, k);
    var j :| 0 <= j < |run| && Reports(run[j], hash, k);
    i := a + j;
  }

  // --------------------------------------------- how often a key is returned

  /** From one call to the next on the same database, no shrink has begun. */
  predicate UnshrunkStep<K, V>(steps: seq<Step<K, V>>, i: int)
    requires 0 < i < |steps|
  {
    steps[i - 1].idx == steps[i].idx ==> Unshrunk([steps[i - 1].call, steps[i].call], 1)
  }

  /** Then every cursor is one of the table it is used on. */
  lemma NarrowStep<K(!new), V>(steps: seq<Step<K, V>>, hash: K -> Word, n: nat, end: Standing, i: nat)
    requires Path(steps, n, At(0, Zero()), end) && Sound(steps, hash) && i < |steps|
    requires i > 0 ==> UnshrunkStep(steps, i)
    ensures Narrow(steps[i].call.v, steps[i].call.s.MinBits())
  {
    hide NextCursor, Consistent;
    if i > 0 {
      assert LeadsTo(steps, i);
      var p := steps[i - 1].call;
      BitsBounded(p.s, hash);
      NextCursorFits(p.v, p.s.MinBits());
    }
  }

  /** Where a call leaves off is not beyond where any later call stands. */
  lemma {:induction false} StandingsRise<K(!new), V>(steps: seq<Step<K, V>>, hash: K -> Word, n: nat, start: Standing,
                                                     end: Standing, i: nat, j: nat)
    requires Path(steps, n, start, end) && Sound(steps, hash) && i < j < |steps|
    ensures var s := At(steps[j].idx, steps[j].call.v); After(steps[i]) == s || Further(After(steps[i]), s)
    decreases j
  {
    hide ScanNext, Rank, Consistent;
    assert LeadsTo(steps, j);
    if i + 1 < j {
      StandingsRise(steps, hash, n, start, end, i, j - 1);
      StepFurther(steps[j - 1], hash);
    }
  }

  /** No two calls of a loop on the same database report the same key, unless a shrink starts. */
  lemma ReportedByOneStep<K(!new), V(!new)>(steps: seq<Step<K, V>>, hash: K -> Word, n: nat, end: Standing, k: K,
                                            i: nat, j: nat)
    requires Path(steps, n, At(0, Zero()), end) && Sound(steps, hash) && i <= j < |steps|
    requires i > 0 ==> UnshrunkStep(steps, i)
    requires j > 0 ==> UnshrunkStep(steps, j)
    requires steps[i].idx == steps[j].idx && Reports(steps[i].call, hash, k) && Reports(steps[j].call, hash, k)
    ensures i == j
  {
    hide ScanNext, Rank, Consistent, Reports, Before, Path;
    NarrowStep(steps, hash, n, end, i);
    NarrowStep(steps, hash, n, end, j);
    ReportsOnlyPassed(steps[i].call, hash, k);
    ReportsOnlyPassed(steps[j].call, hash, k);
    if i < j {
      StandingsRise(steps, hash, n, At(0, Zero()), end, i, j);
      var a := steps[i].call;
      StaysBehindLater(a.v, ScanNext(a.s, a.v), steps[j].call.v, hash(k));
    }
  }

  lemma {:induction false} TimesAtMostOne<K(!new), V(!new)>(steps: seq<Step<K, V>>, hash: K -> Word, k: K)
    requires Sound(steps, hash)
    requires forall i, j :: 0 <= i <= j < |steps| && Reports(steps[i].call, hash, k) && Reports(steps[j].call, hash, k)
                            ==> i == j
    ensures Times(steps, hash, k) <= 1
    decreases |steps|
  {
    hide Consistent, Reports;
    if steps != [] {
      var init := steps[..|steps| - 1];
      assert forall i :: 0 <= i < |init| ==> init[i] == steps[i];
      TimesAtMostOne(init, hash, k);
      TimesReported(init, hash, k);
    }
  }

  function Replies<K, V>(cmds: seq<Command<K, V>>): seq<seq<K>> {
    seq(|cmds|, j requires 0 <= j < |cmds| => cmds[j].reply)
  }

  /** How often the replies hold a key, all together. */
  ghost function Occurrences<K>(replies: seq<seq<K>>, k: K): nat
    decreases |replies|
  {
    var m := |replies| - 1;
    if replies == [] then 0 else Occurrences(replies[..m], k) + multiset(replies[m])[k]
  }

  /** Each call that reports a key puts it into a reply once, unless the reply's filter drops it. */
  lemma {:induction false} RepliesCount<K(!new), V(!new)>(cmds: seq<Command<K, V>>, hash: K -> Word, k: K)
    requires forall j :: 0 <= j < |cmds| ==> Answered(cmds[j], hash)
    ensures Sound(AllSteps(cmds), hash) && Occurrences(Replies(cmds), k) <= Times(AllSteps(cmds), hash, k)
    ensures (forall j :: 0 <= j < |cmds| ==> !cmds[j].dropped(k)) ==>
              Occurrences(Replies(cmds), k) == Times(AllSteps(cmds), hash, k)
    decreases |cmds|
  {
    hide Consistent, Times, AllSteps;
    if cmds == [] {
      NoSteps<K, V>(hash, k);
    } else {
      var m := |cmds| - 1;
      RepliesCount(cmds[..m], hash, k);
      assert cmds == cmds[..m] + [cmds[m]] && Replies(cmds)[..m] == Replies(cmds[..m]);
      OneMoreCommand(cmds[..m], cmds[m]);
      assert Answered(cmds[m], hash);
      TimesAdd(AllSteps(cmds[..m]), cmds[m].steps, hash, k);
    }
  }

  lemma NoSteps<K(!new), V(!new)>(hash: K -> Word, k: K)
    ensures AllSteps<K, V>([]) == [] && Sound<K, V>([], hash) && Times<K, V>([], hash, k) == 0
  {}

  lemma ReportsPresent<K(!new), V(!new)>(c: Call<K, V>, hash: K -> Word, k: K)
    requires Consistent(c.s, hash) && Reports(c, hash, k)
    ensures Present(c.s, hash, k)
  {
    hide WellFormed, Agree, Expansion, Has, Holds;
    HoldsHas(c.s.ht0, hash, k);
    HoldsHas(c.s.ht1, hash, k);
  }

  /**
   A client's full SCAN loop returns a key at most once, if it is never found in another internal
   database than its own and no shrink of that one starts between two calls there. Additions,
   deletions, migration steps and growth do not matter, nor where one command ends and the next
   one starts.
   */
  lemma ScanReturnsKeyAtMostOnce<K(!new), V(!new)>(cmds: seq<Command<K, V>>, hash: K -> Word, n: nat,
                                                   crc16: K -> nat, k: K)
    requires n > 0 && ClientLoop(cmds, hash, n)
    requires var steps, r := AllSteps(cmds), Route(crc16(k), n);
      && (forall i :: 0 <= i < |steps| && Present(steps[i].call.s, hash, k) ==> steps[i].idx == r)
      && (forall i :: 0 < i < |steps| && steps[i].idx == r ==> UnshrunkStep(steps, i))
    ensures Occurrences(Replies(cmds), k) <= 1
  {
    hide Path, Consistent, Reports, Present, Answered, Times, AllSteps, Occurrences, UnshrunkStep;
    var steps := AllSteps(cmds);
    RepliesCount(cmds, hash, k);
    forall i, j | 0 <= i <= j < |steps| && Reports(steps[i].call, hash, k) && Reports(steps[j].call, hash, k)
      ensures i == j
    {
      ReportsPresent(steps[i].call, hash, k);
      ReportsPresent(steps[j].call, hash, k);
      ReportedByOneStep(steps, hash, n, At(n, Zero()), k, i, j);
    }
    TimesAtMostOne(steps, hash, k);
  }

  // --------------------------------------------------------- running the loop

  /** Progress: a later database, or a later cursor in the same one. */
  predicate Further(a: Standing, b: Standing) {
    a.idx < b.idx || (a.idx == b.idx && Rank(a.cursor) < Rank(b.cursor))
  }

  lemma StepFurther<K(!new), V>(step: Step<K, V>, hash: K -> Word)
    requires Consistent(step.call.s, hash)
    ensures Further(At(step.idx, step.call.v), After(step))
  {
    hide NextCursor, Backwards, Before, Value;
    var s, v := step.call.s, step.call.v;
    BitsBounded(s, hash);
    NextCursorAdvances(v, s.MinBits());
    if ScanNext(s, v) != Zero() { BeforeIsLess(v, ScanNext(s, v), WORD); }
  }

  lemma {:induction false} PathFurther<K(!new), V>(steps: seq<Step<K, V>>, hash: K -> Word, n: nat,
                                                   start: Standing, end: Standing)
    requires Path(steps, n, start, end) && Sound(steps, hash)
    ensures Further(start, end)
    decreases |steps|
  {
    hide ScanNext, Rank, Consistent;
    var m := |steps| - 1;
    StepFurther(steps[m], hash);
    if m > 0 {
      assert LeadsTo(steps, m);
      forall i | 0 < i < m ensures LeadsTo(steps[..m], i) {
        assert LeadsTo(steps, i);
      }
      PathFurther(steps[..m], hash, n, start, At(steps[m].idx, steps[m].call.v));
    }
  }

  /** What a loop has done so far: its commands lead from the start to where it stands. */
  ghost predicate Underway<K(!new), V(!new)>(cmds: seq<Command<K, V>>, hash: K -> Word, n: nat, st: Standing) {
    && (if cmds == [] then st == At(0, Zero()) else Path(AllSteps(cmds), n, At(0, Zero()), st))
    && forall j :: 0 <= j < |cmds| ==> Answered(cmds[j], hash)
  }

  lemma OneMoreUnderway<K(!new), V(!new)>(cmds: seq<Command<K, V>>, hash: K -> Word, n: nat, st: Standing,
                                          c: Command<K, V>)
    requires Underway(cmds, hash, n, st) && Answered(c, hash)
    requires Path(c.steps, n, st, Onward(c.last, c.next))
    ensures Underway(cmds + [c], hash, n, Onward(c.last, c.next)) && AllSteps(cmds + [c]) == AllSteps(cmds) + c.steps
  {
    hide Answered;
    OneMoreCommand(cmds, c);
    if cmds == [] {
      assert AllSteps(cmds) + c.steps == c.steps;
    } else {
      PathExtend(AllSteps(cmds), c.steps, n, At(0, Zero()), st, Onward(c.last, c.next));
    }
  }

  /** One more SCAN command of a client's loop. */
  method ScanMore<K(==, !new), V(==, !new)>(client: Client, dbs: seq<Dict<K, V>>, hash: K -> Word, cursor: Word, count: nat,
                                            expired: (nat, K) -> bool, ghost cmds: seq<Command<K, V>>)
      returns (next: Word, reply: seq<K>, ghost c: Command<K, V>)
    requires dbs != [] && -1 <= client.scanid < |dbs| && (cursor == Zero() || client.scanid >= 0)
    requires forall i :: 0 <= i < |dbs| ==> dbs[i].Valid() && dbs[i].hash == hash
    requires Underway(cmds, hash, |dbs|, At(if cursor == Zero() then 0 else client.scanid, cursor))
    modifies client
    ensures Underway(cmds + [c], hash, |dbs|, Onward(c.last, next)) && AllSteps(cmds + [c]) == AllSteps(cmds) + c.steps
    ensures c.next == next && c.reply == reply && c.last < |dbs| && Found(c.steps, dbs)
    ensures forall k :: c.dropped(k) == expired(c.last, k)
    ensures if next == Zero() then client.scanid == -1 && c.last == |dbs| - 1 else client.scanid == c.last
    ensures Further(At(if cursor == Zero() then 0 else old(client.scanid), cursor), Onward(c.last, next))
  {
    hide Consistent, Reported, Further, ScanNext;
    ghost var st := At(if cursor == Zero() then 0 else client.scanid, cursor);
    ghost var steps, last;
    next, reply, steps, last := client.Scan(dbs, hash, cursor, count, expired);
    c := Command(steps, last, next, k => expired(last, k), reply);
    OneMoreUnderway(cmds, hash, |dbs|, st, c);
    PathFurther(steps, hash, |dbs|, st, Onward(last, next));
  }

  /** Every key lives in the internal database it is routed to. */
  ghost predicate Routed<K(!new), V(!new)>(dbs: seq<Dict<K, V>>, crc16: K -> nat)
    requires dbs != []
    reads dbs
  {
    forall i, k :: 0 <= i < |dbs| && k in dbs[i].contents ==> i == Route(crc16(k), |dbs|)
  }

  /** Some reply holds the key. */
  predicate InSome<K(==)>(replies: seq<seq<K>>, k: K) {
    exists j :: 0 <= j < |replies| && k in replies[j]
  }

  /**
   A whole SCAN loop on databases that nobody changes meanwhile, in whichever phase of a migration
   they are: it ends, and the replies hold every key that has not expired. If every key lives where
   it is routed to, the replies hold each such key exactly once, and nothing else more than once.
   */
  method ScanAll<K(==, !new), V(==, !new)>(client: Client, dbs: seq<Dict<K, V>>, hash: K -> Word, count: nat,
                                           expired: (nat, K) -> bool, ghost crc16: K -> nat)
      returns (replies: seq<seq<K>>, ghost cmds: seq<Command<K, V>>)
    requires dbs != [] && -1 <= client.scanid < |dbs|
    requires forall i :: 0 <= i < |dbs| ==> dbs[i].Valid() && dbs[i].hash == hash
    modifies client
    ensures client.scanid == -1 && ClientLoop(cmds, hash, |dbs|)
    ensures replies == Replies(cmds)
    ensures forall k :: k in dbs[Route(crc16(k), |dbs|)].contents && (forall db :: !expired(db, k)) ==> InSome(replies, k)
    ensures Routed(dbs, crc16) ==> forall k ::
              Occurrences(replies, k) <= if k in dbs[Route(crc16(k), |dbs|)].contents then 1 else 0
    ensures Routed(dbs, crc16) ==> forall k :: (forall db :: !expired(db, k)) ==>
              Occurrences(replies, k) == if k in dbs[Route(crc16(k), |dbs|)].contents then 1 else 0
  {
    hide Path, Consistent, Represents, Answered, Route, Routed, Occurrences;
    var n, cursor, reply := |dbs|, Zero(), [];
    ghost var c;
    replies, cmds := [], [];
    cursor, reply, c := ScanMore(client, dbs, hash, cursor, count, expired, cmds);
    replies, cmds := replies + [reply], cmds + [c];
    ghost var st := Onward(c.last, cursor);
    while cursor != Zero()
      invariant cmds != [] && Underway(cmds, hash, n, st) && Found(AllSteps(cmds), dbs)
      invariant st == if cursor != Zero() then At(client.scanid, cursor) else At(n, Zero())
      invariant if cursor == Zero() then client.scanid == -1 else 0 <= client.scanid < n
      invariant replies == Replies(cmds)
      invariant forall j, k :: 0 <= j < |cmds| && (forall db :: !expired(db, k)) ==> !cmds[j].dropped(k)
      decreases n - st.idx, Pow2(WORD) - Rank(st.cursor)
    {
      cursor, reply, c := ScanMore(client, dbs, hash, cursor, count, expired, cmds);
      replies, cmds := replies + [reply], cmds + [c];
      st := Onward(c.last, cursor);
    }
    AllReturned(cmds, dbs, hash, expired, crc16);
    if Routed(dbs, crc16) { AllReturnedOnce(cmds, dbs, hash, expired, crc16); }
  }

  lemma AllReturned<K(!new), V(!new)>(cmds: seq<Command<K, V>>, dbs: seq<Dict<K, V>>, hash: K -> Word,
                                      expired: (nat, K) -> bool, crc16: K -> nat)
    requires dbs != [] && ClientLoop(cmds, hash, |dbs|) && Found(AllSteps(cmds), dbs)
    requires forall i :: 0 <= i < |dbs| ==> dbs[i].Valid() && dbs[i].hash == hash
    requires forall j, k :: 0 <= j < |cmds| && (forall db :: !expired(db, k)) ==> !cmds[j].dropped(k)
    ensures forall k :: k in dbs[Route(crc16(k), |dbs|)].contents && (forall db :: !expired(db, k)) ==>
              InSome(Replies(cmds), k)
  {
    hide Path, Consistent, Represents, Answered, Route;
    forall k | k in dbs[Route(crc16(k), |dbs|)].contents && (forall db :: !expired(db, k))
      ensures InSome(Replies(cmds), k)
    {
      UnchangedReturned(cmds, dbs, hash, crc16, k);
      var j :| 0 <= j < |cmds| && k in cmds[j].reply;
      assert k in Replies(cmds)[j];
    }
  }

  lemma AllReturnedOnce<K(!new), V(!new)>(cmds: seq<Command<K, V>>, dbs: seq<Dict<K, V>>, hash: K -> Word,
                                          expired: (nat, K) -> bool, crc16: K -> nat)
    requires dbs != [] && ClientLoop(cmds, hash, |dbs|) && Found(AllSteps(cmds), dbs) && Routed(dbs, crc16)
    requires forall i :: 0 <= i < |dbs| ==> dbs[i].Valid() && dbs[i].hash == hash
    requires forall j, k :: 0 <= j < |cmds| && (forall db :: !expired(db, k)) ==> !cmds[j].dropped(k)
    ensures forall k :: Occurrences(Replies(cmds), k) <= if k in dbs[Route(crc16(k), |dbs|)].contents then 1 else 0
    ensures forall k :: (forall db :: !expired(db, k)) ==>
              Occurrences(Replies(cmds), k) == if k in dbs[Route(crc16(k), |dbs|)].contents then 1 else 0
  {
    hide Path, Consistent, Represents, Answered, Route, Routed, Occurrences, AllSteps, Found;
    forall k
      ensures Occurrences(Replies(cmds), k) <= if k in dbs[Route(crc16(k), |dbs|)].contents then 1 else 0
      ensures (forall db :: !expired(db, k)) ==>
                Occurrences(Replies(cmds), k) == if k in dbs[Route(crc16(k), |dbs|)].contents then 1 else 0
    {
      UnchangedOnce(cmds, dbs, hash, crc16, k);
      if k in dbs[Route(crc16(k), |dbs|)].contents && forall db :: !expired(db, k) {
        UnchangedReturned(cmds, dbs, hash, crc16, k);
        var j :| 0 <= j < |cmds| && k in cmds[j].reply;
        OccursIn(Replies(cmds), k, j);
      }
    }
  }

  lemma {:induction false} OccursIn<K>(replies: seq<seq<K>>, k: K, j: nat)
    requires j < |replies| && k in replies[j]
    ensures Occurrences(replies, k) > 0
    decreases |replies|
  {
    if j < |replies| - 1 {
      OccursIn(replies[..|replies| - 1], k, j);
    } else {
      assert multiset(replies[j])[k] > 0;
    }
  }

  /** On databases as they are, a call finds only keys of the database it is made on. */
  lemma FoundWhere<K(!new), V(!new)>(steps: seq<Step<K, V>>, dbs: seq<Dict<K, V>>, hash: K -> Word, crc16: K -> nat,
                                     k: K, i: nat)
    requires dbs != [] && Found(steps, dbs) && Routed(dbs, crc16) && i < |steps|
    requires forall j :: 0 <= j < |dbs| ==> dbs[j].Valid() && dbs[j].hash == hash
    requires Present(steps[i].call.s, hash, k)
    ensures steps[i].idx == Route(crc16(k), |dbs|) && k in dbs[steps[i].idx].contents
  {
    hide Consistent, Represents, Has, Route;
    var d := dbs[steps[i].idx];
    KeysOf(d.View(), hash, d.contents, k);
  }

  lemma UnchangedOnce<K(!new), V(!new)>(cmds: seq<Command<K, V>>, dbs: seq<Dict<K, V>>, hash: K -> Word,
                                        crc16: K -> nat, k: K)
    requires dbs != [] && ClientLoop(cmds, hash, |dbs|) && Found(AllSteps(cmds), dbs) && Routed(dbs, crc16)
    requires forall i :: 0 <= i < |dbs| ==> dbs[i].Valid() && dbs[i].hash == hash
    ensures Occurrences(Replies(cmds), k) <= if k in dbs[Route(crc16(k), |dbs|)].contents then 1 else 0
  {
    hide Path, Consistent, Represents, Answered, Route, Routed, Occurrences, AllSteps, Present, Reports, Times;
    var steps := AllSteps(cmds);
    RepliesCount(cmds, hash, k);
    TimesReported(steps, hash, k);
    forall i | 0 <= i < |steps| && Present(steps[i].call.s, hash, k)
      ensures steps[i].idx == Route(crc16(k), |dbs|) && k in dbs[Route(crc16(k), |dbs|)].contents
    {
      FoundWhere(steps, dbs, hash, crc16, k, i);
    }
    if Reported(steps, hash, k) {
      var i :| 0 <= i < |steps| && Reports(steps[i].call, hash, k);
      ReportsPresent(steps[i].call, hash, k);
      UnchangedUnshrunk(steps, dbs);
      ScanReturnsKeyAtMostOnce(cmds, hash, |dbs|, crc16, k);
    }
  }

  lemma UnchangedUnshrunk<K(!new), V(!new)>(steps: seq<Step<K, V>>, dbs: seq<Dict<K, V>>)
    requires Found(steps, dbs)
    ensures forall i :: 0 < i < |steps| ==> UnshrunkStep(steps, i)
  {
    forall i | 0 < i < |steps|
      ensures UnshrunkStep(steps, i)
    {
      assert steps[i - 1].call.s == dbs[steps[i - 1].idx].View() && steps[i].call.s == dbs[steps[i].idx].View();
    }
  }

  lemma UnchangedShallow<K(!new), V(!new)>(steps: seq<Step<K, V>>, dbs: seq<Dict<K, V>>)
    requires Found(steps, dbs)
    ensures forall i :: 0 < i < |steps| ==> ShallowStep(steps, i)
  {
    forall i | 0 < i < |steps|
      ensures ShallowStep(steps, i)
    {
      assert steps[i - 1].call.s == dbs[steps[i - 1].idx].View() && steps[i].call.s == dbs[steps[i].idx].View();
    }
  }

  lemma UnchangedPresent<K(!new), V(!new)>(steps: seq<Step<K, V>>, dbs: seq<Dict<K, V>>, hash: K -> Word, r: nat, k: K)
    requires Found(steps, dbs) && r < |dbs| && dbs[r].Valid() && dbs[r].hash == hash && k in dbs[r].contents
    ensures forall i :: 0 <= i < |steps| && steps[i].idx == r ==> Present(steps[i].call.s, hash, k)
  {
    hide Consistent, Has, Represents;
    KeysOf(dbs[r].View(), hash, dbs[r].contents, k);
  }

  lemma UnchangedReturned<K(!new), V(!new)>(cmds: seq<Command<K, V>>, dbs: seq<Dict<K, V>>, hash: K -> Word,
                                            crc16: K -> nat, k: K)
    requires dbs != [] && ClientLoop(cmds, hash, |dbs|) && Found(AllSteps(cmds), dbs)
    requires forall i :: 0 <= i < |dbs| ==> dbs[i].Valid() && dbs[i].hash == hash
    requires k in dbs[Route(crc16(k), |dbs|)].contents && forall j :: 0 <= j < |cmds| ==> !cmds[j].dropped(k)
    ensures exists j :: 0 <= j < |cmds| && k in cmds[j].reply
  {
    hide *;
    var n, r, steps := |dbs|, Route(crc16(k), |dbs|), AllSteps(cmds);
    UnchangedShallow(steps, dbs);
    UnchangedPresent(steps, dbs, hash, r, k);
    ScanReturnsEveryKeyUnlessShrunk(cmds, hash, n, crc16, k);
  }

  // ------------------------------------------------------------ expired keys

  /** Expiry times are kept in the database a key lives in: no other one finds it expired. */
  ghost predicate OwnExpiry<K(!new)>(expired: (nat, K) -> bool, crc16: K -> nat, n: nat)
    requires n > 0
  {
    forall db, k :: expired(db, k) ==> db == Route(crc16(k), n)
  }

  /**
   The command filters all it collected with the expiry table of the database it ended in. So an
   expired key is kept out of the reply if and only if the command ended in the key's own database.
   */
  lemma ExpiredFiltered<K(!new), V(!new)>(c: Command<K, V>, hash: K -> Word, n: nat, expired: (nat, K) -> bool,
                                          crc16: K -> nat, k: K)
    requires n > 0 && Answered(c, hash) && OwnExpiry(expired, crc16, n)
    requires forall x :: c.dropped(x) == expired(c.last, x)
    requires Reported(c.steps, hash, k) && expired(Route(crc16(k), n), k)
    ensures k !in c.reply <==> c.last == Route(crc16(k), n)
  {
    hide Reported, Route, Answered;
    AnswerHolds(c, hash, k);
  }

  /** The word of 64 ones: in every table it stands for the last bucket a scan visits. */
  function Ones(): Word {
    Not(Zero())
  }

  lemma LastBucket<K(!new), V(!new)>(s: DictState<K, V>, hash: K -> Word, m: map<K, V>, k: K)
    requires Consistent(s, hash) && Represents(s, hash, m) && k in m && hash(k) == Ones()
    ensures ScanNext(s, Ones()) == Zero() && Reports(Call(s, Ones()), hash, k)
  {
    hide NextCursor, Index, WellFormed;
    BitsBounded(s, hash);
    KeysOf(s, hash, m, k);
    PresentNotEmpty(s, hash, k);
    NextCursorZero(Ones(), s.MinBits());
    assert Emits(s, hash, Ones(), Entry(k, m[k]));
  }

  /** A command that takes the last bucket of the first database and goes on to the second. */
  lemma EndsInSecond<K(!new), V(!new)>(steps: seq<Step<K, V>>, last: nat, next: Word)
    requires Path(steps, 2, At(0, Ones()), Onward(last, next)) && ScanNext(steps[0].call.s, Ones()) == Zero()
    requires last < 2 && (next == Zero() ==> last == 1)
    ensures last == 1
  {
    hide ScanNext;
    if |steps| > 1 {
      assert LeadsTo(steps, 1);
      StaysBehind(steps, 1);
    }
  }

  lemma {:induction false} StaysBehind<K, V>(steps: seq<Step<K, V>>, i: nat)
    requires 0 < i < |steps| && steps[i].idx >= 1 && forall j :: 0 < j < |steps| ==> LeadsTo(steps, j)
    ensures steps[|steps| - 1].idx >= 1
    decreases |steps| - i
  {
    hide ScanNext;
    if i + 1 < |steps| {
      assert LeadsTo(steps, i + 1);
      StaysBehind(steps, i + 1);
    }
  }

  /** A SCAN command at the last bucket of the first of two databases replies with a key that is
      there, whatever the first database's expiry table says. */
  method ScanLastBucket<K(==, !new), V(==, !new)>(client: Client, dbs: seq<Dict<K, V>>, hash: K -> Word, k: K,
                                                  expired: (nat, K) -> bool) returns (reply: seq<K>)
    requires |dbs| == 2 && forall i :: 0 <= i < |dbs| ==> dbs[i].Valid() && dbs[i].hash == hash
    requires k in dbs[0].contents && hash(k) == Ones() && !expired(1, k) && client.scanid == 0
    modifies client
    ensures k in reply
  {
    hide Path, Consistent, Represents, Reports, Ones, ScanNext;
    LastBucket(dbs[0].View(), hash, dbs[0].contents, k);
    ghost var steps, last;
    var next;
    next, reply, steps, last := client.Scan(dbs, hash, Ones(), 1, expired);
    StartOf(steps, 2, At(0, Ones()), Onward(last, next));
    EndsInSecond(steps, last, next);
    assert Reports(steps[0].call, hash, k);
    AnswerHolds(Command(steps, last, next, x => expired(last, x), reply), hash, k);
  }

  method Database<K(==, !new), V(==, !new)>(hash: K -> Word, k: K, v: V) returns (d: Dict<K, V>)
    ensures d.Valid() && d.hash == hash && k in d.contents && fresh(d)
  {
    hide Consistent, Represents;
    d := new Dict<K, V>(hash, true);
    var added := d.Add(k, v);
  }

  /** An input for which an expired key is returned: its database is the first of two, and the
      command starts at the last bucket there. */
  method ExpiredReturned(client: Client) returns (reply: seq<nat>, expired: (nat, nat) -> bool, ghost crc16: nat -> nat)
    modifies client
    ensures OwnExpiry(expired, crc16, 2) && expired(Route(crc16(0), 2), 0) && 0 in reply
  {
    hide Consistent, Represents, Ones;
    var hash := (k: nat) => Ones();
    expired, crc16 := (db, k) => db == 0, k => 0;
    var first := Database(hash, 0, 0);
    var second := Database(hash, 1, 0);
    client.scanid := 0;
    reply := ScanLastBucket(client, [first, second], hash, 0, expired);
  }

  lemma StartOf<K, V>(steps: seq<Step<K, V>>, n: nat, start: Standing, end: Standing)
    requires Path(steps, n, start, end)
    ensures steps != [] && At(steps[0].idx, steps[0].call.v) == start
  {}
}
