/**
 One hash table of the dictionary, as a value: the bucket array (each bucket the chain of its
 entries), the size as an exponent of two, and the entry counter. `dictht` is a plain struct that
 the dictionary copies by assignment, so a value models it faithfully.
 */
module Tables {
  import opened Basics
  import opened Words

  datatype Entry<K, V> = Entry(key: K, val: V)

  type Chain<K, V> = seq<Entry<K, V>>

  /** `size` is |buckets|, `sizemask` is Mask(bits); the unallocated table has no buckets. */
  datatype Table<K, V> = Table(bits: nat, buckets: seq<Chain<K, V>>, used: nat)

  /** Tables stay below 2^31 buckets, where an index fits the `int` the code keeps it in. */
  const MAX_BITS: nat := 31

  function Reset<K, V>(): Table<K, V> {
    Table(0, [], 0)
  }

  /** `h & sizemask` as a number. */
  function Index(h: Word, bits: nat): nat {
    Value(And(h, Mask(bits)))
  }

  function Total<K, V>(buckets: seq<Chain<K, V>>): nat {
    if buckets == [] then 0 else |buckets[0]| + Total(buckets[1..])
  }

  /** The chain a hash is looked up in. */
  function Bucket<K, V>(t: Table<K, V>, h: Word): Chain<K, V> {
    var i := Index(h, t.bits);
    if i < |t.buckets| then t.buckets[i] else []
  }

  ghost predicate Sized<K, V>(t: Table<K, V>) {
    t.bits <= MAX_BITS && |t.buckets| == Pow2(t.bits)
  }

  /** Every entry sits in the bucket of its masked hash. */
  ghost predicate Placed<K, V>(t: Table<K, V>, hash: K -> Word) {
    forall b, i :: 0 <= b < |t.buckets| && 0 <= i < |t.buckets[b]| ==>
      Index(hash(t.buckets[b][i].key), t.bits) == b
  }

  ghost predicate DistinctKeys<K, V>(c: Chain<K, V>) {
    forall i, j :: 0 <= i < j < |c| ==> c[i].key != c[j].key
  }

  /** What every table keeps: its counter is the number of entries, and every entry is where a
      lookup of its key will search, once. */
  ghost predicate WellFormed<K, V>(t: Table<K, V>, hash: K -> Word) {
    && (t.buckets == [] ==> t == Reset())
    && (t.buckets != [] ==> Sized(t))
    && t.used == Total(t.buckets)
    && Placed(t, hash)
    && forall b :: 0 <= b < |t.buckets| ==> DistinctKeys(t.buckets[b])
  }

  ghost predicate Has<K, V>(t: Table<K, V>, hash: K -> Word, k: K) {
    exists i :: 0 <= i < |Bucket(t, hash(k))| && Bucket(t, hash(k))[i].key == k
  }

  ghost predicate Holds<K, V>(t: Table<K, V>, hash: K -> Word, e: Entry<K, V>) {
    e in Bucket(t, hash(e.key))
  }

  function Insert<K, V>(t: Table<K, V>, b: nat, e: Entry<K, V>): Table<K, V>
    requires b < |t.buckets|
  {
    t.(buckets := t.buckets[b := [e] + t.buckets[b]], used := t.used + 1)
  }

  function Without<K, V>(c: Chain<K, V>, i: nat): Chain<K, V>
    requires i < |c|
  {
    c[..i] + c[i + 1..]
  }

  function Remove<K, V>(t: Table<K, V>, b: nat, i: nat): Table<K, V>
    requires b < |t.buckets| && i < |t.buckets[b]| && t.used > 0
  {
    t.(buckets := t.buckets[b := Without(t.buckets[b], i)], used := t.used - 1)
  }

  function SetVal<K, V>(t: Table<K, V>, b: nat, i: nat, v: V): Table<K, V>
    requires b < |t.buckets| && i < |t.buckets[b]|
  {
    t.(buckets := t.buckets[b := t.buckets[b][i := t.buckets[b][i].(val := v)]])
  }

  // ------------------------------------------------------------------- facts

  lemma IndexInRange<K, V>(t: Table<K, V>, h: Word)
    requires Sized(t)
    ensures Index(h, t.bits) < |t.buckets|
  {
    MaskedValue(h, t.bits);
  }

  lemma {:induction false} TotalUpdate<K, V>(buckets: seq<Chain<K, V>>, b: nat, c: Chain<K, V>)
    requires b < |buckets|
    ensures Total(buckets[b := c]) == Total(buckets) - |buckets[b]| + |c|
  {
    if b == 0 {
      assert buckets[0 := c][1..] == buckets[1..];
    } else {
      assert buckets[b := c][1..] == buckets[1..][b - 1 := c];
      TotalUpdate(buckets[1..], b - 1, c);
    }
  }

  lemma {:induction false} TotalAtLeast<K, V>(buckets: seq<Chain<K, V>>, b: nat)
    requires b < |buckets|
    ensures Total(buckets) >= |buckets[b]|
  {
    if b > 0 { TotalAtLeast(buckets[1..], b - 1); }
  }

  lemma {:induction false} TotalZero<K, V>(buckets: seq<Chain<K, V>>)
    requires forall b :: 0 <= b < |buckets| ==> buckets[b] == []
    ensures Total(buckets) == 0
  {
    if buckets != [] { TotalZero(buckets[1..]); }
  }

  lemma HoldsHas<K, V>(t: Table<K, V>, hash: K -> Word, k: K)
    ensures Has(t, hash, k) <==> exists v :: Holds(t, hash, Entry(k, v))
  {
    var c := Bucket(t, hash(k));
    if Has(t, hash, k) {
      var i :| 0 <= i < |c| && c[i].key == k;
      assert Holds(t, hash, Entry(k, c[i].val));
    }
  }

  lemma ConsDistinct<K, V>(e: Entry<K, V>, c: Chain<K, V>)
    requires DistinctKeys(c) && forall j :: 0 <= j < |c| ==> c[j].key != e.key
    ensures DistinctKeys([e] + c)
  {
    var d := [e] + c;
    assert forall j :: 0 < j < |d| ==> d[j] == c[j - 1];
  }

  lemma InsertFacts<K, V>(t: Table<K, V>, hash: K -> Word, e: Entry<K, V>)
    requires WellFormed(t, hash) && t.buckets != []
    requires !Has(t, hash, e.key)
    ensures Index(hash(e.key), t.bits) < |t.buckets|
    ensures var t' := Insert(t, Index(hash(e.key), t.bits), e);
            && WellFormed(t', hash)
            && (forall x :: Holds(t', hash, x) <==> Holds(t, hash, x) || x == e)
            && (forall k :: Has(t', hash, k) <==> Has(t, hash, k) || k == e.key)
  {
    IndexInRange(t, hash(e.key));
    var b := Index(hash(e.key), t.bits);
    var t' := Insert(t, b, e);
    TotalUpdate(t.buckets, b, [e] + t.buckets[b]);
    ConsDistinct(e, Bucket(t, hash(e.key)));
    forall x ensures Holds(t', hash, x) <==> Holds(t, hash, x) || x == e {}
    forall k ensures Has(t', hash, k) <==> Has(t, hash, k) || k == e.key {
      HoldsHas(t, hash, k);
      HoldsHas(t', hash, k);
      assert k == e.key ==> Holds(t', hash, Entry(k, e.val));
      assert forall v :: Holds(t', hash, Entry(k, v)) <==> Holds(t, hash, Entry(k, v)) || Entry(k, v) == e;
    }
  }

  lemma WithoutFacts<K, V>(c: Chain<K, V>, i: nat)
    requires i < |c| && DistinctKeys(c)
    ensures DistinctKeys(Without(c, i))
    ensures forall x :: x in Without(c, i) <==> x in c && x.key != c[i].key
  {
    var d := Without(c, i);
    forall x | x in c && x.key != c[i].key ensures x in d {
      var j :| 0 <= j < |c| && c[j] == x;
      assert d[if j < i then j else j - 1] == x;
    }
  }

  lemma RemoveFacts<K, V>(t: Table<K, V>, hash: K -> Word, b: nat, i: nat)
    requires WellFormed(t, hash)
    requires b < |t.buckets| && i < |t.buckets[b]|
    ensures t.used > 0
    ensures var t' := Remove(t, b, i); var k := t.buckets[b][i].key;
            && WellFormed(t', hash)
            && (forall x :: Holds(t', hash, x) <==> Holds(t, hash, x) && x.key != k)
            && (forall q :: Has(t', hash, q) <==> Has(t, hash, q) && q != k)
  {
    TotalAtLeast(t.buckets, b);
    var k := t.buckets[b][i].key;
    var t' := Remove(t, b, i);
    WithoutFacts(t.buckets[b], i);
    TotalUpdate(t.buckets, b, Without(t.buckets[b], i));
    assert Placed(t', hash) by {
      forall b', j | 0 <= b' < |t'.buckets| && 0 <= j < |t'.buckets[b']|
        ensures Index(hash(t'.buckets[b'][j].key), t'.bits) == b'
      {
        assert t'.buckets[b'][j] in t.buckets[b'];
      }
    }
    forall x ensures Holds(t', hash, x) <==> Holds(t, hash, x) && x.key != k {}
    forall q ensures Has(t', hash, q) <==> Has(t, hash, q) && q != k {
      HoldsHas(t, hash, q);
      HoldsHas(t', hash, q);
      assert forall v :: Holds(t', hash, Entry(q, v)) <==> Holds(t, hash, Entry(q, v)) && q != k;
    }
  }

  lemma SetChainFacts<K, V>(c: Chain<K, V>, i: nat, v: V)
    requires i < |c| && DistinctKeys(c)
    ensures var c' := c[i := c[i].(val := v)];
            && DistinctKeys(c')
            && (forall j :: 0 <= j < |c| ==> c'[j].key == c[j].key)
            && (forall x :: x in c' <==> if x.key == c[i].key then x.val == v else x in c)
  {
    var c' := c[i := c[i].(val := v)];
    assert forall j :: 0 <= j < |c| ==> c'[j].key == c[j].key;
    forall x ensures x in c' <==> if x.key == c[i].key then x.val == v else x in c {
      if x.key == c[i].key {
        assert c'[i] == Entry(x.key, v);
      } else if x in c {
        var j :| 0 <= j < |c| && c[j] == x;
        assert c'[j] == x;
      }
    }
  }

  lemma SetValFacts<K, V>(t: Table<K, V>, hash: K -> Word, b: nat, i: nat, v: V)
    requires WellFormed(t, hash)
    requires b < |t.buckets| && i < |t.buckets[b]|
    ensures var t' := SetVal(t, b, i, v); var k := t.buckets[b][i].key;
            && WellFormed(t', hash)
            && (forall x :: Holds(t', hash, x) <==>
                  if x.key == k then x.val == v else Holds(t, hash, x))
            && (forall q :: Has(t', hash, q) <==> Has(t, hash, q))
  {
    var t' := SetVal(t, b, i, v);
    SetChainFacts(t.buckets[b], i, v);
    TotalUpdate(t.buckets, b, t'.buckets[b]);
    assert forall b', j :: 0 <= b' < |t'.buckets| && 0 <= j < |t'.buckets[b']| ==>
        t'.buckets[b'][j].key == t.buckets[b'][j].key;
    forall q ensures Has(t', hash, q) <==> Has(t, hash, q) {
      assert forall j :: 0 <= j < |Bucket(t, hash(q))| ==>
          Bucket(t', hash(q))[j].key == Bucket(t, hash(q))[j].key;
    }
  }
}
