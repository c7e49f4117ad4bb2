/**
 The dictionary: two hash tables, of which the second is only in use while entries migrate a few
 buckets at a time from the first to it.
 */
module Dicts {
  import opened Basics
  import opened Words
  import opened Cursor
  import opened Tables

  /** The two tables and the migration index: -1 when no rehashing is in progress. */
  datatype DictState<K, V> = DictState(ht0: Table<K, V>, ht1: Table<K, V>, rehashidx: int) {
    predicate Rehashing() {
      rehashidx != -1
    }

    function Size(): nat {
      ht0.used + ht1.used
    }

    /** The exponent of the smaller live table. */
    function MinBits(): nat {
      if Rehashing() && ht1.bits < ht0.bits then ht1.bits else ht0.bits
    }

    /** The exponent of the larger live table. */
    function MaxBits(): nat {
      if Rehashing() && ht0.bits < ht1.bits then ht1.bits else ht0.bits
    }
  }

  /** What every operation keeps, in every phase of a migration. */
  ghost predicate Consistent<K(!new), V>(s: DictState<K, V>, hash: K -> Word) {
    && WellFormed(s.ht0, hash)
    && WellFormed(s.ht1, hash)
    && (!s.Rehashing() ==> s.ht1 == Reset())
    && (s.Rehashing() ==>
          && s.ht0.buckets != [] && s.ht1.buckets != [] && s.ht0.bits != s.ht1.bits
          && 0 <= s.rehashidx < |s.ht0.buckets|
          && (forall b :: 0 <= b < s.rehashidx ==> s.ht0.buckets[b] == []))
    && (forall k :: !(Has(s.ht0, hash, k) && Has(s.ht1, hash, k)))
  }

  /** The finite map the two tables stand for. */
  ghost predicate Represents<K(!new), V(!new)>(s: DictState<K, V>, hash: K -> Word, m: map<K, V>) {
    && (forall k, v :: (k in m && m[k] == v) <==>
          Holds(s.ht0, hash, Entry(k, v)) || Holds(s.ht1, hash, Entry(k, v)))
    && |m| == s.Size()
  }

  lemma KeysOf<K(!new), V(!new)>(s: DictState<K, V>, hash: K -> Word, m: map<K, V>, k: K)
    requires Represents(s, hash, m)
    ensures k in m <==> Has(s.ht0, hash, k) || Has(s.ht1, hash, k)
  {
    HoldsHas(s.ht0, hash, k);
    HoldsHas(s.ht1, hash, k);
    if k in m { assert Holds(s.ht0, hash, Entry(k, m[k])) || Holds(s.ht1, hash, Entry(k, m[k])); }
  }

  // ------------------------------------------------------------ migration

  /** An entry taken out of the first table and put into the second leaves the map as it was. */
  lemma MovedEntry<K(!new), V(!new)>(s: DictState<K, V>, s': DictState<K, V>, hash: K -> Word, m: map<K, V>,
                                     e: Entry<K, V>)
    requires Represents(s, hash, m) && Holds(s.ht0, hash, e)
    requires forall x :: Holds(s'.ht0, hash, x) <==> Holds(s.ht0, hash, x) && x.key != e.key
    requires forall x :: Holds(s'.ht1, hash, x) <==> Holds(s.ht1, hash, x) || x == e
    requires s'.Size() == s.Size()
    ensures Represents(s', hash, m)
  {
    assert Holds(s.ht0, hash, Entry(e.key, e.val));
    assert e.key in m && m[e.key] == e.val;
    forall k, v
      ensures (k in m && m[k] == v) <==> Holds(s'.ht0, hash, Entry(k, v)) || Holds(s'.ht1, hash, Entry(k, v))
    {
      assert (k in m && m[k] == v) <==> Holds(s.ht0, hash, Entry(k, v)) || Holds(s.ht1, hash, Entry(k, v));
    }
  }

  /** The state after moving the first entry of the bucket being migrated. */
  ghost function HeadMoved<K, V>(s: DictState<K, V>, hash: K -> Word): DictState<K, V>
    requires 0 <= s.rehashidx < |s.ht0.buckets| && s.ht0.buckets[s.rehashidx] != []
    requires s.ht0.used > 0 && Sized(s.ht1)
  {
    var e := s.ht0.buckets[s.rehashidx][0];
    IndexInRange(s.ht1, hash(e.key));
    DictState(Remove(s.ht0, s.rehashidx, 0), Insert(s.ht1, Index(hash(e.key), s.ht1.bits), e), s.rehashidx)
  }

  lemma HeadHeld<K(!new), V>(s: DictState<K, V>, hash: K -> Word)
    requires Consistent(s, hash) && s.Rehashing() && s.ht0.buckets[s.rehashidx] != []
    ensures var e := s.ht0.buckets[s.rehashidx][0]; Holds(s.ht0, hash, e) && Has(s.ht0, hash, e.key)
  {
    var e := s.ht0.buckets[s.rehashidx][0];
    assert Bucket(s.ht0, hash(e.key)) == s.ht0.buckets[s.rehashidx];
  }

  /** Moving one entry from the bucket being migrated to its place in the second table. */
  lemma MoveHead<K(!new), V(!new)>(s: DictState<K, V>, hash: K -> Word, m: map<K, V>)
    requires Consistent(s, hash) && Represents(s, hash, m) && s.Rehashing()
    requires s.ht0.buckets[s.rehashidx] != []
    ensures s.ht0.used > 0
    ensures Consistent(HeadMoved(s, hash), hash) && Represents(HeadMoved(s, hash), hash, m)
  {
    hide Represents, DistinctKeys, Total, Placed, Has, Index;
    var e := s.ht0.buckets[s.rehashidx][0];
    RemoveFacts(s.ht0, hash, s.rehashidx, 0);
    HeadHeld(s, hash);
    InsertFacts(s.ht1, hash, e);
    MovedEntry(s, HeadMoved(s, hash), hash, m, e);
  }

  /** The moved state, seen from a table whose migrating bucket is still to be written back. */
  lemma HeadMovedIs<K(!new), V(!new)>(base: Table<K, V>, de: Chain<K, V>, ht1: Table<K, V>, r: nat, hash: K -> Word)
    requires r < |base.buckets| && de != [] && base.used > 0 && Sized(ht1)
    ensures Index(hash(de[0].key), ht1.bits) < |ht1.buckets|
    ensures HeadMoved(DictState(base.(buckets := base.buckets[r := de]), ht1, r), hash) ==
            DictState(base.(buckets := base.buckets[r := de[1..]], used := base.used - 1),
                      Insert(ht1, Index(hash(de[0].key), ht1.bits), de[0]), r)
  {
    IndexInRange(ht1, hash(de[0].key));
    assert Without(de, 0) == de[1..];
    assert base.buckets[r := de][r := de[1..]] == base.buckets[r := de[1..]];
  }

  /** A table with entries left has a non-empty bucket at or above the migration index. */
  lemma MoreToMove<K(!new), V>(s: DictState<K, V>, hash: K -> Word)
    requires Consistent(s, hash) && s.Rehashing() && s.ht0.used != 0
    ensures exists b :: s.rehashidx <= b < |s.ht0.buckets| && s.ht0.buckets[b] != []
  {
    if forall b :: s.rehashidx <= b < |s.ht0.buckets| ==> s.ht0.buckets[b] == [] {
      TotalZero(s.ht0.buckets);
    }
  }

  /** With the first table empty the second takes its place. */
  lemma FinishRehash<K(!new), V(!new)>(s: DictState<K, V>, hash: K -> Word, m: map<K, V>)
    requires Consistent(s, hash) && Represents(s, hash, m) && s.Rehashing() && s.ht0.used == 0
    ensures Consistent(DictState(s.ht1, Reset(), -1), hash)
    ensures Represents(DictState(s.ht1, Reset(), -1), hash, m)
  {
    var s' := DictState(s.ht1, Reset(), -1);
    forall k, v
      ensures (k in m && m[k] == v) <==> Holds(s'.ht0, hash, Entry(k, v)) || Holds(s'.ht1, hash, Entry(k, v))
    {
      assert (k in m && m[k] == v) <==> Holds(s.ht0, hash, Entry(k, v)) || Holds(s.ht1, hash, Entry(k, v));
      var i := Index(hash(k), s.ht0.bits);
      if i < |s.ht0.buckets| { TotalAtLeast(s.ht0.buckets, i); }
    }
  }

  /** The table `dictExpand` allocates: all buckets empty. */
  function FreshTable<K, V>(bits: nat): Table<K, V> {
    Table(bits, seq(Pow2(bits), _ => []), 0)
  }

  lemma FreshTableFacts<K(!new), V>(bits: nat, hash: K -> Word)
    requires bits <= MAX_BITS
    ensures WellFormed(FreshTable<K, V>(bits), hash)
    ensures forall e :: !Holds(FreshTable<K, V>(bits), hash, e)
    ensures forall k :: !Has(FreshTable<K, V>(bits), hash, k)
  {
    TotalZero(FreshTable<K, V>(bits).buckets);
  }

  /** An empty table of another size may become the first table, or the one to migrate to. */
  lemma NewTable<K(!new), V(!new)>(s: DictState<K, V>, hash: K -> Word, m: map<K, V>, bits: nat)
    requires Consistent(s, hash) && Represents(s, hash, m) && !s.Rehashing()
    requires bits <= MAX_BITS && |s.ht0.buckets| != Pow2(bits)
    ensures var n := FreshTable<K, V>(bits);
            var t := if s.ht0.buckets == [] then s.(ht0 := n) else s.(ht1 := n, rehashidx := 0);
            Consistent(t, hash) && Represents(t, hash, m)
  {
    FreshTableFacts<K, V>(bits, hash);
  }

  lemma Pow2Injective(a: nat, b: nat)
    ensures Pow2(a) == Pow2(b) <==> a == b
  {
    if a < b { Pow2Monotone(a + 1, b); } else if b < a { Pow2Monotone(b + 1, a); }
  }

  // ------------------------------------------------- changes of the map

  /** Where an entry is: which table, which bucket, how far down the chain. */
  datatype Position = Position(second: bool, bucket: nat, offset: nat)

  lemma AddedEntry<K(!new), V(!new)>(s: DictState<K, V>, s': DictState<K, V>, hash: K -> Word, m: map<K, V>,
                                     e: Entry<K, V>)
    requires Represents(s, hash, m) && e.key !in m
    requires forall x :: Holds(s'.ht0, hash, x) || Holds(s'.ht1, hash, x) <==>
               Holds(s.ht0, hash, x) || Holds(s.ht1, hash, x) || x == e
    requires s'.Size() == s.Size() + 1
    ensures Represents(s', hash, m[e.key := e.val])
  {
    var m' := m[e.key := e.val];
    assert m'.Keys == m.Keys + {e.key};
    forall k, v
      ensures (k in m' && m'[k] == v) <==> Holds(s'.ht0, hash, Entry(k, v)) || Holds(s'.ht1, hash, Entry(k, v))
    {
      assert (k in m && m[k] == v) <==> Holds(s.ht0, hash, Entry(k, v)) || Holds(s.ht1, hash, Entry(k, v));
    }
  }

  /** Putting a new key at the head of its bucket, in the table that takes new entries. */
  ghost function Inserted<K, V>(s: DictState<K, V>, hash: K -> Word, e: Entry<K, V>): DictState<K, V>
    requires Sized(if s.Rehashing() then s.ht1 else s.ht0)
  {
    var t := if s.Rehashing() then s.ht1 else s.ht0;
    IndexInRange(t, hash(e.key));
    var t' := Insert(t, Index(hash(e.key), t.bits), e);
    if s.Rehashing() then s.(ht1 := t') else s.(ht0 := t')
  }

  lemma InsertEntry<K(!new), V(!new)>(s: DictState<K, V>, hash: K -> Word, m: map<K, V>, e: Entry<K, V>)
    requires Consistent(s, hash) && Represents(s, hash, m) && s.ht0.buckets != [] && e.key !in m
    ensures Consistent(Inserted(s, hash, e), hash) && Represents(Inserted(s, hash, e), hash, m[e.key := e.val])
  {
    KeysOf(s, hash, m, e.key);
    InsertFacts(if s.Rehashing() then s.ht1 else s.ht0, hash, e);
    AddedEntry(s, Inserted(s, hash, e), hash, m, e);
  }

  /** The entry at a position, when there is one. */
  ghost predicate PositionOf<K, V>(s: DictState<K, V>, p: Position, key: K) {
    var t := if p.second then s.ht1 else s.ht0;
    && p.bucket < |t.buckets| && p.offset < |t.buckets[p.bucket]|
    && t.buckets[p.bucket][p.offset].key == key && t.used > 0
  }

  ghost function RemovedAt<K, V>(s: DictState<K, V>, p: Position, key: K): DictState<K, V>
    requires PositionOf(s, p, key)
  {
    if p.second then s.(ht1 := Remove(s.ht1, p.bucket, p.offset))
    else s.(ht0 := Remove(s.ht0, p.bucket, p.offset))
  }

  ghost function ReplacedAt<K, V>(s: DictState<K, V>, p: Position, key: K, val: V): DictState<K, V>
    requires PositionOf(s, p, key)
  {
    if p.second then s.(ht1 := SetVal(s.ht1, p.bucket, p.offset, val))
    else s.(ht0 := SetVal(s.ht0, p.bucket, p.offset, val))
  }

  /** A position naming a key is in the bucket of its hash, so the key is in that table. */
  lemma PositionHas<K(!new), V(!new)>(s: DictState<K, V>, hash: K -> Word, p: Position, key: K)
    requires Consistent(s, hash) && PositionOf(s, p, key)
    ensures Has(if p.second then s.ht1 else s.ht0, hash, key)
    ensures !Has(if p.second then s.ht0 else s.ht1, hash, key)
    ensures forall v :: !Holds(if p.second then s.ht0 else s.ht1, hash, Entry(key, v))
  {
    var t := if p.second then s.ht1 else s.ht0;
    assert Bucket(t, hash(key)) == t.buckets[p.bucket];
    HoldsHas(if p.second then s.ht0 else s.ht1, hash, key);
  }

  lemma RemoveAt<K(!new), V(!new)>(s: DictState<K, V>, hash: K -> Word, m: map<K, V>, p: Position, key: K)
    requires Consistent(s, hash) && Represents(s, hash, m) && PositionOf(s, p, key)
    ensures key in m && Consistent(RemovedAt(s, p, key), hash) && Represents(RemovedAt(s, p, key), hash, m - {key})
  {
    KeysOf(s, hash, m, key);
    PositionHas(s, hash, p, key);
    RemoveFacts(if p.second then s.ht1 else s.ht0, hash, p.bucket, p.offset);
    var s' := RemovedAt(s, p, key);
    assert forall x: Entry<K, V> :: x == Entry(x.key, x.val);
    RemovedEntry(s, s', hash, m, key);
  }

  lemma ReplaceAt<K(!new), V(!new)>(s: DictState<K, V>, hash: K -> Word, m: map<K, V>, p: Position, key: K, val: V)
    requires Consistent(s, hash) && Represents(s, hash, m) && PositionOf(s, p, key)
    ensures key in m && Consistent(ReplacedAt(s, p, key, val), hash)
    ensures Represents(ReplacedAt(s, p, key, val), hash, m[key := val])
  {
    KeysOf(s, hash, m, key);
    PositionHas(s, hash, p, key);
    SetValFacts(if p.second then s.ht1 else s.ht0, hash, p.bucket, p.offset, val);
    ReplacedEntry(s, ReplacedAt(s, p, key, val), hash, m, key, val);
  }

  lemma AbsentKey<K, V>(m: map<K, V>, key: K)
    ensures key !in m ==> m - {key} == m
    ensures |m| == 0 ==> key !in m
  {}

  lemma RemovedEntry<K(!new), V(!new)>(s: DictState<K, V>, s': DictState<K, V>, hash: K -> Word, m: map<K, V>, key: K)
    requires Represents(s, hash, m) && key in m
    requires forall x :: Holds(s'.ht0, hash, x) || Holds(s'.ht1, hash, x) <==>
               (Holds(s.ht0, hash, x) || Holds(s.ht1, hash, x)) && x.key != key
    requires s'.Size() == s.Size() - 1
    ensures Represents(s', hash, m - {key})
  {
    var m' := m - {key};
    assert m'.Keys == m.Keys - {key};
    assert |m'| == |m'.Keys| && |m| == |m.Keys|;
    forall k, v
      ensures (k in m' && m'[k] == v) <==> Holds(s'.ht0, hash, Entry(k, v)) || Holds(s'.ht1, hash, Entry(k, v))
    {
      assert (k in m && m[k] == v) <==> Holds(s.ht0, hash, Entry(k, v)) || Holds(s.ht1, hash, Entry(k, v));
    }
  }

  lemma ReplacedEntry<K(!new), V(!new)>(s: DictState<K, V>, s': DictState<K, V>, hash: K -> Word, m: map<K, V>,
                                        key: K, val: V)
    requires Represents(s, hash, m) && key in m
    requires forall x: Entry<K, V> :: x.key != key ==>
               (Holds(s'.ht0, hash, x) || Holds(s'.ht1, hash, x) <==> Holds(s.ht0, hash, x) || Holds(s.ht1, hash, x))
    requires forall v :: Holds(s'.ht0, hash, Entry(key, v)) || Holds(s'.ht1, hash, Entry(key, v)) <==> v == val
    requires s'.Size() == s.Size()
    ensures Represents(s', hash, m[key := val])
  {
    var m' := m[key := val];
    assert m'.Keys == m.Keys;
    forall k, v
      ensures (k in m' && m'[k] == v) <==> Holds(s'.ht0, hash, Entry(k, v)) || Holds(s'.ht1, hash, Entry(k, v))
    {
      assert (k in m && m[k] == v) <==> Holds(s.ht0, hash, Entry(k, v)) || Holds(s.ht1, hash, Entry(k, v));
    }
  }

  // ------------------------------------------------------------- scanning

  ghost function Smaller<K, V>(s: DictState<K, V>): Table<K, V> {
    if s.ht0.bits > s.ht1.bits then s.ht1 else s.ht0
  }

  ghost function Larger<K, V>(s: DictState<K, V>): Table<K, V> {
    if s.ht0.bits > s.ht1.bits then s.ht0 else s.ht1
  }

  /**
   What one scan call reports at cursor v. With one table, the entries of the cursor's bucket.
   With two, the entries of the smaller table's bucket, and of those buckets of the larger table
   that expand it and are not numbered below the cursor's own expansion.
   */
  ghost predicate Emits<K, V>(s: DictState<K, V>, hash: K -> Word, v: Word, e: Entry<K, V>)
    requires s.MaxBits() <= WORD
  {
    if !s.Rehashing() then
      Holds(s.ht0, hash, e) && Agree(hash(e.key), v, s.ht0.bits)
    else
      && Agree(hash(e.key), v, s.MinBits())
      && (|| Holds(Smaller(s), hash, e)
          || (Holds(Larger(s), hash, e) &&
              Expansion(hash(e.key), s.MinBits(), s.MaxBits()) >= Expansion(v, s.MinBits(), s.MaxBits())))
  }

  /** The cursor a scan call returns. */
  function ScanNext<K, V>(s: DictState<K, V>, v: Word): Word {
    if s.Size() == 0 then Zero() else NextCursor(v, s.MinBits())
  }

  /** The chain at a cursor holds the table's entries that agree with it. */
  lemma ChainAtCursor<K(!new), V>(t: Table<K, V>, hash: K -> Word, v: Word)
    requires WellFormed(t, hash) && t.buckets != []
    ensures Index(v, t.bits) < |t.buckets|
    ensures forall e :: e in t.buckets[Index(v, t.bits)] <==> Holds(t, hash, e) && Agree(hash(e.key), v, t.bits)
  {
    IndexInRange(t, v);
    forall e ensures e in t.buckets[Index(v, t.bits)] <==> Holds(t, hash, e) && Agree(hash(e.key), v, t.bits) {
      SameBucket(hash(e.key), v, t.bits);
    }
  }

  /** The entries of the larger table already reported by the expansion loop: those of the small
      bucket whose expansion number is at least `from` and below `to`. */
  ghost predicate InExpansions<K, V>(t: Table<K, V>, hash: K -> Word, v: Word, k0: nat, e: Entry<K, V>, from: nat, to: nat)
    requires k0 <= t.bits <= WORD
  {
    Holds(t, hash, e) && Agree(hash(e.key), v, k0) && from <= Expansion(hash(e.key), k0, t.bits) < to
  }

  lemma InExpansionsHeld<K(!new), V(!new)>(t: Table<K, V>, hash: K -> Word, v: Word, k0: nat, entries: Chain<K, V>)
    requires k0 <= t.bits <= WORD
    requires forall e :: e in entries <==>
               InExpansions(t, hash, v, k0, e, Expansion(v, k0, t.bits), Pow2(t.bits - k0))
    ensures forall e :: e in entries ==> Holds(t, hash, e)
  {}

  /** One more bucket in the expansion loop. */
  lemma OneMoreExpansion<K(!new), V>(t: Table<K, V>, hash: K -> Word, v: Word, cur: Word, k0: nat, from: nat, x: nat)
    requires WellFormed(t, hash) && t.buckets != [] && k0 <= t.bits
    requires Agree(cur, v, k0) && x == Expansion(cur, k0, t.bits) && from <= x
    ensures Index(cur, t.bits) < |t.buckets|
    ensures forall e :: InExpansions(t, hash, v, k0, e, from, x + 1) <==>
              InExpansions(t, hash, v, k0, e, from, x) || e in t.buckets[Index(cur, t.bits)]
    ensures forall e :: e in t.buckets[Index(cur, t.bits)] ==> Expansion(hash(e.key), k0, t.bits) == x
  {
    ChainAtCursor(t, hash, cur);
    forall e
      ensures InExpansions(t, hash, v, k0, e, from, x + 1) <==>
              InExpansions(t, hash, v, k0, e, from, x) || e in t.buckets[Index(cur, t.bits)]
      ensures e in t.buckets[Index(cur, t.bits)] ==> Expansion(hash(e.key), k0, t.bits) == x
    {
      AgreeByExpansion(hash(e.key), cur, k0, t.bits);
    }
  }

  lemma DistinctConcat<K, V>(a: Chain<K, V>, b: Chain<K, V>)
    requires DistinctKeys(a) && DistinctKeys(b)
    requires forall d, e :: d in a && e in b ==> d.key != e.key
    ensures DistinctKeys(a + b)
  {
    var c := a + b;
    forall i, j | 0 <= i < j < |c| ensures c[i].key != c[j].key {
      if i < |a| <= j { assert c[i] in a && c[j] in b; }
    }
  }

  /** Buckets of different expansions have no key in common. */
  lemma DistinctExpansion<K(!new), V>(t: Table<K, V>, hash: K -> Word, v: Word, k0: nat, from: nat, x: nat,
                                      emitted: Chain<K, V>, chain: Chain<K, V>)
    requires k0 <= t.bits <= WORD && DistinctKeys(emitted) && DistinctKeys(chain)
    requires forall e :: e in emitted ==> InExpansions(t, hash, v, k0, e, from, x)
    requires forall e :: e in chain ==> Expansion(hash(e.key), k0, t.bits) == x
    ensures DistinctKeys(emitted + chain)
  {
    hide DistinctKeys, Expansion, Holds, Agree;
    DistinctConcat(emitted, chain);
  }

  /** No key is in both tables, so none is emitted from both. */
  lemma DistinctBoth<K(!new), V>(s: DictState<K, V>, hash: K -> Word, chain: Chain<K, V>, more: Chain<K, V>)
    requires Consistent(s, hash) && DistinctKeys(chain) && DistinctKeys(more)
    requires forall e :: e in chain ==> Holds(Smaller(s), hash, e)
    requires forall e :: e in more ==> Holds(Larger(s), hash, e)
    ensures DistinctKeys(chain + more)
  {
    hide DistinctKeys, Holds, Has, WellFormed;
    forall d, e | d in chain && e in more ensures d.key != e.key {
      HoldsHas(Smaller(s), hash, d.key);
      HoldsHas(Larger(s), hash, e.key);
      assert Holds(Smaller(s), hash, Entry(d.key, d.val)) && Holds(Larger(s), hash, Entry(e.key, e.val));
    }
    DistinctConcat(chain, more);
  }

  lemma SmallerIsShorter<K(!new), V>(s: DictState<K, V>, hash: K -> Word)
    requires Consistent(s, hash) && s.Rehashing()
    ensures Smaller(s) == if |s.ht0.buckets| > |s.ht1.buckets| then s.ht1 else s.ht0
    ensures Smaller(s).bits == s.MinBits() <= s.MaxBits() == Larger(s).bits
  {
    if s.ht0.bits <= s.ht1.bits {
      Pow2Monotone(s.ht0.bits, s.ht1.bits);
    } else {
      Pow2Monotone(s.ht1.bits + 1, s.ht0.bits);
    }
  }

  lemma ExpansionBounds<K(!new)>(hash: K -> Word, k0: nat, k1: nat)
    requires k0 <= k1 <= WORD
    ensures forall k :: Expansion(hash(k), k0, k1) < Pow2(k1 - k0)
  {
    forall k ensures Expansion(hash(k), k0, k1) < Pow2(k1 - k0) { ValueBound(hash(k)[k0..k1]); }
  }

  /** The smaller table's chain and its expansions in the larger one are what the call emits. */
  lemma BothEmit<K(!new), V(!new)>(s: DictState<K, V>, hash: K -> Word, v: Word, chain: Chain<K, V>, more: seq<Entry<K, V>>)
    requires s.Rehashing() && s.MinBits() <= s.MaxBits() <= WORD && Larger(s).bits == s.MaxBits()
    requires forall e :: e in chain <==> Holds(Smaller(s), hash, e) && Agree(hash(e.key), v, s.MinBits())
    requires forall e :: e in more <==>
               InExpansions(Larger(s), hash, v, s.MinBits(), e,
                            Expansion(v, s.MinBits(), s.MaxBits()), Pow2(s.MaxBits() - s.MinBits()))
    ensures forall e :: e in chain + more <==> Emits(s, hash, v, e)
  {
    hide Holds, Agree, Expansion;
    ExpansionBounds(hash, s.MinBits(), s.MaxBits());
  }

  // ------------------------------------------------------------ the object

  const INITIAL_SIZE: nat := 4
  const INITIAL_BITS: nat := 2
  const FORCE_RESIZE_RATIO: nat := 5

  /** `_dictNextPower`: the least power of two, from 4 on, that is at least `size`. */
  method NextPower(size: nat) returns (power: nat, bits: nat)
    ensures power == Pow2(bits) && LeastBits(size, bits)
  {
    power, bits := INITIAL_SIZE, INITIAL_BITS;
    assert Pow2(2) == 4;
    while power < size
      invariant power == Pow2(bits) && bits >= INITIAL_BITS
      invariant bits > INITIAL_BITS ==> Pow2(bits - 1) < size
      decreases size - power
    {
      power, bits := power * 2, bits + 1;
    }
  }

  /** 2^bits is the least power of two, from 4 on, that is not below size. */
  predicate LeastBits(size: nat, bits: nat) {
    bits >= INITIAL_BITS && Pow2(bits) >= size && (bits > INITIAL_BITS ==> Pow2(bits - 1) < size)
  }

  /** The size asked for when a table with so many entries is resized. */
  function FittingSize(used: nat): nat {
    if used < INITIAL_SIZE then INITIAL_SIZE else used
  }

  /** A resize has just begun: the first table is as it was, the second one is new and empty. */
  ghost predicate Resized<K, V>(s: DictState<K, V>, s': DictState<K, V>) {
    && !s.Rehashing() && LeastBits(FittingSize(s.ht0.used), s'.ht1.bits)
    && s' == DictState(s.ht0, FreshTable(s'.ht1.bits), 0)
  }

  /** Walking a chain until the key is met. */
  method SearchChain<K(==), V>(c: Chain<K, V>, k: K) returns (i: int)
    ensures -1 <= i < |c|
    ensures i >= 0 ==> c[i].key == k
    ensures i == -1 ==> forall j :: 0 <= j < |c| ==> c[j].key != k
  {
    i := 0;
    while i < |c|
      invariant 0 <= i <= |c|
      invariant forall j :: 0 <= j < i ==> c[j].key != k
    {
      if c[i].key == k { return; }
      i := i + 1;
    }
    i := -1;
  }

  class Dict<K(==, !new), V(==, !new)> {
    const hash: K -> Word
    var ht0: Table<K, V>
    var ht1: Table<K, V>
    var rehashidx: int
    var iterators: nat
    var canResize: bool
    /** The map the dictionary stands for. */
    ghost var contents: map<K, V>

    function View(): DictState<K, V>
      reads this
    {
      DictState(ht0, ht1, rehashidx)
    }

    ghost predicate Valid()
      reads this
    {
      Consistent(View(), hash) && Represents(View(), hash, contents)
    }

    constructor (hash: K -> Word, canResize: bool)
      ensures Valid() && contents == map[] && this.hash == hash
    {
      this.hash := hash;
      ht0, ht1, rehashidx := Reset(), Reset(), -1;
      iterators, this.canResize, contents := 0, canResize, map[];
    }

    /** `dictExpand`: refused while rehashing, for a size below the entry count, or for the size
        the table already has; otherwise the new table becomes the migration target, or the first
        table when there was none. */
    method Expand(size: nat) returns (ok: bool)
      requires Valid()
      requires size <= Pow2(MAX_BITS)
      modifies this`ht0, this`ht1, this`rehashidx
      ensures Valid()
      ensures !ok ==> View() == old(View())
      ensures ok ==> !old(View()).Rehashing() && old(ht0.used) <= size
      ensures ok && old(ht0.buckets) == [] ==> !View().Rehashing() && ht0.buckets != []
      ensures ok && old(ht0.buckets) != [] ==> ht0 == old(ht0) && rehashidx == 0
      ensures ok ==> var n := if old(ht0.buckets) == [] then ht0 else ht1;
                     n == FreshTable(n.bits) && LeastBits(size, n.bits)
      ensures !ok && !old(View()).Rehashing() && old(ht0.used) <= size ==>
                old(ht0.buckets) != [] && LeastBits(size, old(ht0.bits))
    {
      hide Placed, DistinctKeys, Total, Has, Holds, Index, Represents;
      var realsize, bits := NextPower(size);
      if rehashidx != -1 || ht0.used > size { return false; }
      if realsize == |ht0.buckets| {
        Pow2Injective(bits, ht0.bits);
        return false;
      }
      assert bits <= MAX_BITS by {
        if bits > MAX_BITS { Pow2Monotone(MAX_BITS, bits - 1); }
      }
      var n := FreshTable<K, V>(bits);
      NewTable(View(), hash, contents, bits);
      if ht0.buckets == [] {
        ht0 := n;
        return true;
      }
      ht1 := n;
      rehashidx := 0;
      return true;
    }

    /** The inner loop of `dictRehash`: every entry of the bucket at the migration index goes to the
        head of its bucket in the second table, and the emptied bucket is passed. */
    method MigrateBucket()
      requires Valid() && rehashidx != -1 && ht0.buckets[rehashidx] != []
      modifies this`ht0, this`ht1, this`rehashidx
      ensures rehashidx == old(rehashidx) + 1
      ensures ht0.bits == old(ht0.bits) && ht1.bits == old(ht1.bits) && |ht0.buckets| == old(|ht0.buckets|)
      ensures ht0.used != 0 ==> Valid()
      ensures ht0.used == 0 ==> ValidAt(rehashidx - 1)
    {
      hide Placed, DistinctKeys, Total, Has, Holds, Index;
      var de := ht0.buckets[rehashidx];
      ghost var s := View();
      assert ht0.buckets == ht0.buckets[rehashidx := de];
      while de != []
        invariant rehashidx == old(rehashidx) && 0 <= rehashidx < |ht0.buckets|
        invariant s == View().(ht0 := ht0.(buckets := ht0.buckets[rehashidx := de]))
        invariant Consistent(s, hash) && Represents(s, hash, contents)
        invariant ht0.bits == old(ht0.bits) && ht1.bits == old(ht1.bits) && ht0.buckets == old(ht0.buckets)
        decreases |de|
      {
        var e, nextde := de[0], de[1..];
        MoveHead(s, hash, contents);
        HeadMovedIs(ht0, de, ht1, rehashidx, hash);
        s := HeadMoved(s, hash);
        var h := Index(hash(e.key), ht1.bits);
        ht1 := Insert(ht1, h, e);
        ht0 := ht0.(used := ht0.used - 1);
        de := nextde;
      }
      ht0 := ht0.(buckets := ht0.buckets[rehashidx := []]);
      assert View() == s;
      if ht0.used != 0 { MoreToMove(View(), hash); }
      rehashidx := rehashidx + 1;
    }

    /** Valid with the migration index set back to r. */
    ghost predicate ValidAt(r: int)
      reads this
    {
      var s := View().(rehashidx := r);
      r != -1 && Consistent(s, hash) && Represents(s, hash, contents)
    }

    /** Empty buckets are passed over, at most `visits` of them; 0 means the allowance ran out. */
    method SkipEmpty(visits: nat) returns (left: nat)
      requires Valid() && rehashidx != -1 && ht0.used != 0 && visits > 0
      modifies this`rehashidx
      ensures Valid() && left <= visits && rehashidx - old(rehashidx) == visits - left
      ensures left > 0 ==> ht0.buckets[rehashidx] != []
    {
      hide Placed, DistinctKeys, Total, Has, Holds, Index;
      left := visits;
      MoreToMove(View(), hash);
      ghost var b :| rehashidx <= b < |ht0.buckets| && ht0.buckets[b] != [];
      while ht0.buckets[rehashidx] == []
        invariant old(rehashidx) <= rehashidx <= b < |ht0.buckets|
        invariant Valid() && left > 0 && rehashidx - old(rehashidx) == visits - left
        decreases b - rehashidx
      {
        rehashidx := rehashidx + 1;
        left := left - 1;
        if left == 0 { return; }
      }
    }

    /**
     `dictRehash`: up to n buckets are migrated, giving up after n * 10 empty ones. The map never
     changes; a call either completes the migration or moves the index forward by n at least, so
     repeated calls end, and the work of one call is bounded.
     */
    method Rehash(n: nat) returns (more: bool)
      requires Valid()
      modifies this`ht0, this`ht1, this`rehashidx
      ensures Valid()
      ensures more == View().Rehashing()
      ensures !old(View()).Rehashing() ==> View() == old(View())
      ensures more ==> ht0.bits == old(ht0.bits) && ht1.bits == old(ht1.bits)
      ensures more ==> old(rehashidx) + n <= rehashidx <= old(rehashidx) + 11 * n
      ensures old(View()).Rehashing() && !more ==> ht0.bits == old(ht1.bits) && ht0.buckets != []
    {
      hide Placed, DistinctKeys, Total, Has, Holds, Index;
      var steps, emptyVisits := n, n * 10;
      if rehashidx == -1 { return false; }
      while steps > 0 && ht0.used != 0
        invariant rehashidx != -1 && (steps > 0 ==> emptyVisits > 0)
        invariant if ht0.used != 0 then Valid() else ValidAt(rehashidx) || ValidAt(rehashidx - 1)
        invariant ht0.bits == old(ht0.bits) && ht1.bits == old(ht1.bits)
        invariant rehashidx - old(rehashidx) == (n - steps) + (10 * n - emptyVisits)
        invariant 0 <= steps <= n && 0 <= emptyVisits <= 10 * n
        decreases steps
      {
        steps := steps - 1;
        emptyVisits := SkipEmpty(emptyVisits);
        if emptyVisits == 0 { return true; }
        MigrateBucket();
      }
      if ht0.used == 0 {
        FinishRehash(View().(rehashidx := if ValidAt(rehashidx) then rehashidx else rehashidx - 1), hash, contents);
        ht0 := ht1;
        ht1 := Reset();
        rehashidx := -1;
        return false;
      }
      return true;
    }

    /** The loop of `dictRehashMilliseconds` without its time limit: it ends, with one table left. */
    method RehashToEnd()
      requires Valid()
      modifies this`ht0, this`ht1, this`rehashidx
      ensures Valid() && !View().Rehashing()
      ensures ht0.bits == if old(View()).Rehashing() then old(ht1.bits) else old(ht0.bits)
    {
      hide Placed, DistinctKeys, Total, Has, Holds, Index;
      var more := Rehash(100);
      while more
        invariant Valid() && more == View().Rehashing()
        invariant more ==> ht0.bits == old(ht0.bits) && ht1.bits == old(ht1.bits) && old(View()).Rehashing()
        invariant !more ==> ht0.bits == if old(View()).Rehashing() then old(ht1.bits) else old(ht0.bits)
        decreases more, |ht0.buckets| - rehashidx
      {
        more := Rehash(100);
      }
    }

    /** `_dictRehashStep`: one bucket, unless a safe iterator is open. */
    method RehashStep()
      requires Valid()
      modifies this`ht0, this`ht1, this`rehashidx
      ensures Valid()
      ensures View().MinBits() >= old(View()).MinBits()
      ensures old(ht0.buckets) != [] ==> ht0.buckets != []
      ensures !old(View()).Rehashing() || iterators != 0 ==> View() == old(View())
      ensures old(View()).Rehashing() && iterators == 0 ==> !View().Rehashing() || rehashidx > old(rehashidx)
    {
      hide Placed, DistinctKeys, Total, Has, Holds, Index;
      if iterators == 0 {
        var _ := Rehash(1);
      }
    }

    /** The entry a position names. */
    ghost function At(p: Position): Option<Entry<K, V>>
      reads this
    {
      var t := if p.second then ht1 else ht0;
      if p.bucket < |t.buckets| && p.offset < |t.buckets[p.bucket]| then Some(t.buckets[p.bucket][p.offset]) else None
    }

    /** `dictFind`: the first table, then the second one while rehashing. */
    method Find(key: K) returns (r: Option<Position>)
      requires Valid()
      ensures r.Some? <==> key in contents
      ensures r.Some? ==> At(r.value) == Some(Entry(key, contents[key]))
    {
      hide Placed, DistinctKeys, Total;
      KeysOf(View(), hash, contents, key);
      if ht0.used + ht1.used == 0 { return None; }
      var h := hash(key);
      var idx := Index(h, ht0.bits);
      if ht0.buckets != [] { IndexInRange(ht0, h); }
      assert ht0.buckets != [];
      var i := SearchChain(ht0.buckets[idx], key);
      if i >= 0 {
        assert Holds(ht0, hash, Entry(key, ht0.buckets[idx][i].val));
        return Some(Position(false, idx, i));
      }
      if rehashidx == -1 { return None; }
      idx := Index(h, ht1.bits);
      IndexInRange(ht1, h);
      i := SearchChain(ht1.buckets[idx], key);
      if i >= 0 {
        assert Holds(ht1, hash, Entry(key, ht1.buckets[idx][i].val));
        return Some(Position(true, idx, i));
      }
      return None;
    }

    /** One entry per bucket, or more than five where resizing is discouraged. */
    predicate Crowded()
      reads this
    {
      ht0.buckets != [] && ht0.used >= |ht0.buckets| &&
      (canResize || ht0.used / |ht0.buckets| > FORCE_RESIZE_RATIO)
    }

    /** `_dictExpandIfNeeded`: it never fails, so an absent key can always be added. A migration to
        room for twice the entries starts exactly when the table is crowded. */
    method ExpandIfNeeded() returns (ok: bool)
      requires Valid() && |contents| <= Pow2(MAX_BITS - 1)
      modifies this`ht0, this`ht1, this`rehashidx
      ensures Valid() && ok && ht0.buckets != []
      ensures View().MinBits() >= old(View()).MinBits()
      ensures View() == old(View()) <==> old(View()).Rehashing() || (old(ht0.buckets) != [] && !old(Crowded()))
      ensures old(ht0.buckets) == [] ==> !View().Rehashing() && |ht0.buckets| == INITIAL_SIZE
      ensures !old(View()).Rehashing() && old(Crowded()) ==>
                rehashidx == 0 && ht0 == old(ht0) && LeastBits(2 * ht0.used, ht1.bits)
    {
      hide Placed, DistinctKeys, Total, Has, Holds, Index;
      if rehashidx != -1 { return true; }
      Pow2Monotone(INITIAL_BITS, MAX_BITS);
      if |ht0.buckets| == 0 {
        ok := Expand(INITIAL_SIZE);
        return;
      }
      if ht0.used >= |ht0.buckets| && (canResize || ht0.used / |ht0.buckets| > FORCE_RESIZE_RATIO) {
        ok := Expand(ht0.used * 2);
        assert ok ==> ht1.bits > ht0.bits by {
          if ok && ht1.bits <= ht0.bits { Pow2Monotone(ht1.bits, ht0.bits); }
        }
        return;
      }
      return true;
    }

    /** `_dictKeyIndex`: -1 exactly for a key already present, else the bucket for it in the table
        that takes new entries. */
    method KeyIndex(key: K) returns (index: int)
      requires Valid() && |contents| <= Pow2(MAX_BITS - 1)
      modifies this`ht0, this`ht1, this`rehashidx
      ensures Valid() && ht0.buckets != []
      ensures index == -1 <==> key in contents
      ensures index != -1 ==> index == Index(hash(key), (if rehashidx == -1 then ht0 else ht1).bits)
      ensures View().MinBits() >= old(View()).MinBits()
    {
      hide Placed, DistinctKeys, Total;
      var ok := ExpandIfNeeded();
      if !ok { return -1; }
      KeysOf(View(), hash, contents, key);
      var h := hash(key);
      var idx := Index(h, ht0.bits);
      IndexInRange(ht0, h);
      var i := SearchChain(ht0.buckets[idx], key);
      if i >= 0 { assert Has(ht0, hash, key); return -1; }
      if rehashidx == -1 { return idx; }
      idx := Index(h, ht1.bits);
      IndexInRange(ht1, h);
      i := SearchChain(ht1.buckets[idx], key);
      if i >= 0 { assert Has(ht1, hash, key); return -1; }
      return idx;
    }

    /** `dictAdd`: refused exactly for a key already present, which keeps its value. */
    method Add(key: K, val: V) returns (ok: bool)
      requires Valid() && |contents| <= Pow2(MAX_BITS - 1)
      modifies this`ht0, this`ht1, this`rehashidx, this`contents
      ensures Valid()
      ensures ok <==> key !in old(contents)
      ensures contents == if ok then old(contents)[key := val] else old(contents)
      ensures View().MinBits() >= old(View()).MinBits()
    {
      hide Placed, DistinctKeys, Total, Has, Holds, Index;
      if rehashidx != -1 { RehashStep(); }
      var index := KeyIndex(key);
      if index == -1 { return false; }
      var entry := Entry(key, val);
      InsertEntry(View(), hash, contents, entry);
      IndexInRange(if rehashidx != -1 then ht1 else ht0, hash(key));
      if rehashidx != -1 {
        ht1 := Insert(ht1, index, entry);
      } else {
        ht0 := Insert(ht0, index, entry);
      }
      contents := contents[key := val];
      return true;
    }

    /** `dictReplace`: true when the key was new. */
    method Replace(key: K, val: V) returns (added: bool)
      requires Valid() && |contents| <= Pow2(MAX_BITS - 1)
      modifies this`ht0, this`ht1, this`rehashidx, this`contents
      ensures Valid()
      ensures added <==> key !in old(contents)
      ensures contents == old(contents)[key := val]
      ensures View().MinBits() >= old(View()).MinBits()
    {
      hide Placed, DistinctKeys, Total, Has, Holds;
      var ok := Add(key, val);
      if ok { return true; }
      var r := Find(key);
      var p := r.value;
      TotalAtLeast((if p.second then ht1 else ht0).buckets, p.bucket);
      ReplaceAt(View(), hash, contents, p, key, val);
      if p.second {
        ht1 := SetVal(ht1, p.bucket, p.offset, val);
      } else {
        ht0 := SetVal(ht0, p.bucket, p.offset, val);
      }
      contents := contents[key := val];
      return false;
    }

    /** One round of `dictGenericDelete`: the key's chain in one of the tables. */
    method DeleteIn(second: bool, key: K) returns (ok: bool)
      requires Valid() && (if second then ht1 else ht0).buckets != []
      modifies this`ht0, this`ht1, this`contents
      ensures Valid()
      ensures ok == old(Has(if second then ht1 else ht0, hash, key))
      ensures ok ==> key in old(contents) && contents == old(contents) - {key}
      ensures !ok ==> contents == old(contents) && View() == old(View())
      ensures ht0.bits == old(ht0.bits) && ht1.bits == old(ht1.bits)
    {
      hide Placed, DistinctKeys, Total;
      var t := if second then ht1 else ht0;
      var h := hash(key);
      var idx := Index(h, t.bits);
      IndexInRange(t, h);
      var i := SearchChain(t.buckets[idx], key);
      if i == -1 { return false; }
      TotalAtLeast(t.buckets, idx);
      RemoveAt(View(), hash, contents, Position(second, idx, i), key);
      assert Bucket(t, h)[i].key == key;
      if second { ht1 := Remove(ht1, idx, i); } else { ht0 := Remove(ht0, idx, i); }
      contents := contents - {key};
      return true;
    }

    /** `dictDelete`: succeeds exactly for a present key. */
    method Delete(key: K) returns (ok: bool)
      requires Valid()
      modifies this`ht0, this`ht1, this`rehashidx, this`contents
      ensures Valid()
      ensures ok <==> key in old(contents)
      ensures contents == old(contents) - {key}
      ensures View().MinBits() >= old(View()).MinBits()
    {
      hide Placed, DistinctKeys, Total;
      AbsentKey(contents, key);
      if |ht0.buckets| == 0 { return false; }
      if rehashidx != -1 { RehashStep(); }
      KeysOf(View(), hash, contents, key);
      ok := DeleteIn(false, key);
      if ok || rehashidx == -1 { return; }
      ok := DeleteIn(true, key);
    }

    /** `dictResize`: a migration to the least power of two, 4 or more, that holds the entries;
        refused when resizing is discouraged, while rehashing, and when the table has that size. */
    method Resize() returns (ok: bool)
      requires Valid() && |contents| <= Pow2(MAX_BITS)
      modifies this`ht0, this`ht1, this`rehashidx
      ensures Valid()
      ensures !ok ==> View() == old(View())
      ensures ok ==> canResize && !old(View()).Rehashing()
      ensures ok && old(ht0.buckets) != [] ==> Resized(old(View()), View())
      ensures ok && old(ht0.buckets) == [] ==> LeastBits(FittingSize(old(ht0.used)), ht0.bits) && !View().Rehashing()
      ensures !ok && canResize && !View().Rehashing() ==>
                ht0.buckets != [] && LeastBits(FittingSize(ht0.used), ht0.bits)
    {
      hide Placed, DistinctKeys, Total, Has, Holds, Index;
      if !canResize || rehashidx != -1 { return false; }
      var minimal := ht0.used;
      if minimal < INITIAL_SIZE { minimal := INITIAL_SIZE; }
      Pow2Monotone(INITIAL_BITS, MAX_BITS);
      ok := Expand(minimal);
    }

    /** The expansion loop of `dictScan`: all expansions from the cursor's own to the last. */
    method ScanExpansions(t: Table<K, V>, v: Word, k0: nat) returns (cur: Word, emitted: seq<Entry<K, V>>)
      requires WellFormed(t, hash) && t.buckets != [] && k0 <= t.bits
      ensures Agree(cur, v, k0)
      ensures forall e :: e in emitted <==>
                InExpansions(t, hash, v, k0, e, Expansion(v, k0, t.bits), Pow2(t.bits - k0))
      ensures DistinctKeys(emitted)
    {
      hide Placed, Total, Index, NextExpansion, Holds;
      cur, emitted := v, [];
      ghost var from, to := Expansion(v, k0, t.bits), Expansion(v, k0, t.bits);
      var go := true;
      ValueBound(v[k0..t.bits]);
      while go
        invariant Agree(cur, v, k0) && from <= to <= Pow2(t.bits - k0)
        invariant if go then to == Expansion(cur, k0, t.bits) else to == Pow2(t.bits - k0)
        invariant forall e :: e in emitted <==> InExpansions(t, hash, v, k0, e, from, to)
        invariant DistinctKeys(emitted)
        decreases go, Pow2(t.bits - k0) - to
      {
        OneMoreExpansion(t, hash, v, cur, k0, from, to);
        DistinctExpansion(t, hash, v, k0, from, to, emitted, t.buckets[Index(cur, t.bits)]);
        emitted := emitted + t.buckets[Index(cur, t.bits)];
        NextExpansionCounts(cur, k0, t.bits);
        ValueBound(cur[k0..t.bits]);
        cur := NextExpansion(cur, k0);
        to := to + 1;
        ExpansionTest(cur, k0, t.bits);
        go := And(cur, Xor(Mask(k0), Mask(t.bits))) != Zero();
      }
    }

    /** `dictScan` with two tables: the smaller one's bucket, then its expansions in the larger. */
    method ScanBoth(v: Word) returns (cur: Word, emitted: seq<Entry<K, V>>)
      requires Valid() && rehashidx != -1
      ensures Agree(cur, v, View().MinBits())
      ensures forall e :: e in emitted <==> Emits(View(), hash, v, e)
      ensures DistinctKeys(emitted)
    {
      hide Placed, DistinctKeys, Total, Has, Holds, Index, Agree, InExpansions, Emits;
      SmallerIsShorter(View(), hash);
      var t0, t1 := ht0, ht1;
      if |t0.buckets| > |t1.buckets| { t0, t1 := ht1, ht0; }
      ChainAtCursor(t0, hash, v);
      var more;
      cur, more := ScanExpansions(t1, v, t0.bits);
      emitted := t0.buckets[Index(v, t0.bits)] + more;
      BothEmit(View(), hash, v, t0.buckets[Index(v, t0.bits)], more);
      InExpansionsHeld(t1, hash, v, t0.bits, more);
      DistinctBoth(View(), hash, t0.buckets[Index(v, t0.bits)], more);
    }

    /** `dictScan`: one call of the iteration. It emits each entry once. */
    method Scan(v: Word) returns (next: Word, emitted: seq<Entry<K, V>>)
      requires Valid()
      ensures next == ScanNext(View(), v)
      ensures forall e :: e in emitted <==> View().Size() > 0 && Emits(View(), hash, v, e)
      ensures forall i, j :: 0 <= i < j < |emitted| ==> emitted[i].key != emitted[j].key
    {
      hide Placed, Total, Has;
      if ht0.used + ht1.used == 0 { return Zero(), []; }
      assert ht0.buckets != [];
      var cur := v;
      if rehashidx == -1 {
        ChainAtCursor(ht0, hash, v);
        emitted := ht0.buckets[Index(v, ht0.bits)];
      } else {
        cur, emitted := ScanBoth(v);
      }
      var m0 := Mask(View().MinBits());
      NextCursorOfAgreeing(cur, v, View().MinBits());
      cur := Or(cur, Not(m0));
      cur := Rev(cur);
      cur := Increment(cur);
      next := Rev(cur);
    }
  }
}
