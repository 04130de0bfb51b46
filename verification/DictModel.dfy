/**
 The two-table dictionary of dict.c as a value: chains are sequences of entries, a table is a
 sequence of chains, and `rehashidx` is -1 unless an incremental rehash is in progress.
 `hash` is the dictionary type's hash function.
 */
module DictModel {
  import opened Common
  import opened Words

  datatype Entry<K, V> = Entry(key: K, val: V)

  type Chain<K, V> = seq<Entry<K, V>>

  type Buckets<K, V> = seq<Chain<K, V>>

  datatype Dict<K, V> = Dict(ht0: Buckets<K, V>, used0: nat, ht1: Buckets<K, V>, used1: nat,
                             rehashidx: int, iterators: nat)

  const INITIAL_SIZE := 4
  const FORCE_RESIZE_RATIO := 5

  // ---------- chains and tables ----------

  /** The number of entries of a table. */
  function Total<K, V>(t: Buckets<K, V>): nat {
    if t == [] then 0 else |t[0]| + Total(t[1..])
  }

  function EmptyTable<K, V>(size: nat): (t: Buckets<K, V>)
    ensures |t| == size && forall i | 0 <= i < size :: t[i] == []
  {
    seq(size, _ => [])
  }

  function ChainFind<K(==), V>(c: Chain<K, V>, k: K): Option<V> {
    if c == [] then None
    else if c[0].key == k then Some(c[0].val)
    else ChainFind(c[1..], k)
  }

  /** The chain of table `t` in which key `k` belongs. */
  function Bucket<K, V>(hash: K -> Word, t: Buckets<K, V>, k: K): Chain<K, V> {
    if |t| > 0 && Index(hash(k), |t|) < |t| then t[Index(hash(k), |t|)] else []
  }

  /** What a lookup sees: the chain of the first table, then the chain of the second. */
  function Find<K(==), V>(hash: K -> Word, d: Dict<K, V>, k: K): Option<V> {
    ChainFind(Bucket(hash, d.ht0, k) + Bucket(hash, d.ht1, k), k)
  }

  predicate Rehashing<K, V>(d: Dict<K, V>) {
    d.rehashidx != -1
  }

  // ---------- the invariant ----------

  ghost predicate Distinct<K, V>(c: Chain<K, V>) {
    forall i, j | 0 <= i < j < |c| :: c[i].key != c[j].key
  }

  ghost predicate Placed<K, V>(hash: K -> Word, t: Buckets<K, V>) {
    forall i, e | 0 <= i < |t| && e in t[i] :: Index(hash(e.key), |t|) == i
  }

  ghost predicate AllDistinct<K, V>(t: Buckets<K, V>) {
    forall i | 0 <= i < |t| :: Distinct(t[i])
  }

  ghost function KeysOf<K, V>(t: Buckets<K, V>): set<K> {
    set i, e | 0 <= i < |t| && e in t[i] :: e.key
  }

  ghost predicate Apart<K, V>(t0: Buckets<K, V>, t1: Buckets<K, V>) {
    KeysOf(t0) !! KeysOf(t1)
  }

  ghost predicate TableSize(n: nat) {
    n > 0 && IsPow2(n)
  }

  ghost predicate Shape<K, V>(d: Dict<K, V>) {
    && (|d.ht0| == 0 || TableSize(|d.ht0|))
    && -1 <= d.rehashidx <= |d.ht0|
    && (!Rehashing(d) ==> d.ht1 == [])
    && (Rehashing(d) ==>
          && TableSize(|d.ht0|) && TableSize(|d.ht1|) && |d.ht0| != |d.ht1|
          && forall i | 0 <= i < d.rehashidx :: d.ht0[i] == [])
  }

  ghost predicate Inv<K, V>(hash: K -> Word, d: Dict<K, V>) {
    && Shape(d)
    && Placed(hash, d.ht0) && Placed(hash, d.ht1)
    && AllDistinct(d.ht0) && AllDistinct(d.ht1)
    && Apart(d.ht0, d.ht1)
    && d.used0 == Total(d.ht0) && d.used1 == Total(d.ht1)
  }

  /** The dictionary `d` stands for the finite map `m`. */
  ghost predicate Represents<K(!new), V>(hash: K -> Word, d: Dict<K, V>, m: map<K, V>) {
    && forall k :: Find(hash, d, k) == if k in m then Some(m[k]) else None
  }

  /** A valid dictionary standing for `m`, whose counters add up to its size. */
  ghost predicate Good<K(!new), V>(hash: K -> Word, d: Dict<K, V>, m: map<K, V>) {
    Inv(hash, d) && Represents(hash, d, m) && |m| == d.used0 + d.used1
  }

  // ---------- operations ----------

  function Push<K, V>(t: Buckets<K, V>, i: nat, e: Entry<K, V>): Buckets<K, V>
    requires i < |t|
  {
    t[i := [e] + t[i]]
  }

  /** Removes the first entry with key `k` from a chain. */
  function Unlink<K(==), V>(c: Chain<K, V>, k: K): Chain<K, V> {
    if c == [] then []
    else if c[0].key == k then c[1..]
    else [c[0]] + Unlink(c[1..], k)
  }

  /** Sets the value of the first entry with key `k`. */
  function SetVal<K(==), V>(c: Chain<K, V>, k: K, v: V): Chain<K, V> {
    if c == [] then []
    else if c[0].key == k then [Entry(k, v)] + c[1..]
    else [c[0]] + SetVal(c[1..], k, v)
  }

  /** `_dictNextPower`: the first power of two not below `size`, starting from the initial size. */
  function NextPower(size: nat, i: nat := INITIAL_SIZE): nat
    requires i > 0
    decreases size - i
  {
    if i >= size then i else NextPower(size, 2 * i)
  }

  /** `dictExpand`; the flag is DICT_OK. */
  function Expand<K, V>(d: Dict<K, V>, size: nat): (Dict<K, V>, bool) {
    var realsize := NextPower(size);
    if Rehashing(d) || d.used0 > size || realsize == |d.ht0| then (d, false)
    else if |d.ht0| == 0 then (d.(ht0 := EmptyTable(realsize), used0 := 0), true)
    else (d.(ht1 := EmptyTable(realsize), used1 := 0, rehashidx := 0), true)
  }

  /** `_dictExpandIfNeeded`. */
  function ExpandIfNeeded<K, V>(d: Dict<K, V>, canResize: bool): (Dict<K, V>, bool) {
    if Rehashing(d) then (d, true)
    else if |d.ht0| == 0 then Expand(d, INITIAL_SIZE)
    else if d.used0 >= |d.ht0| && (canResize || d.used0 / |d.ht0| > FORCE_RESIZE_RATIO)
    then Expand(d, d.used0 * 2)
    else (d, true)
  }

  /** Links a new entry at the head of its chain, in the second table while rehashing. */
  function Insert<K, V>(hash: K -> Word, d: Dict<K, V>, e: Entry<K, V>): Dict<K, V> {
    var t := if Rehashing(d) then d.ht1 else d.ht0;
    var i := if |t| > 0 then Index(hash(e.key), |t|) else 0;
    if i >= |t| then d
    else if Rehashing(d) then d.(ht1 := Push(t, i, e), used1 := d.used1 + 1)
    else d.(ht0 := Push(t, i, e), used0 := d.used0 + 1)
  }

  /** `dictAdd` once the rehash step is done; the flag is DICT_OK. */
  function Add<K(==), V>(hash: K -> Word, d: Dict<K, V>, canResize: bool, k: K, v: V): (Dict<K, V>, bool) {
    var d1 := ExpandIfNeeded(d, canResize).0;
    if Find(hash, d1, k).Some? then (d1, false) else (Insert(hash, d1, Entry(k, v)), true)
  }

  /** Rewrites the chain of `k` in the table that holds the key. */
  function Update<K(==), V>(hash: K -> Word, t: Buckets<K, V>, k: K, c: Chain<K, V>): Buckets<K, V> {
    if |t| > 0 && Index(hash(k), |t|) < |t| then t[Index(hash(k), |t|) := c] else t
  }

  /** `dictGenericDelete` once the rehash step is done. */
  function Delete<K(==), V>(hash: K -> Word, d: Dict<K, V>, k: K): Dict<K, V> {
    var c0, c1 := Bucket(hash, d.ht0, k), Bucket(hash, d.ht1, k);
    if ChainFind(c0, k).Some? && d.used0 > 0 then
      d.(ht0 := Update(hash, d.ht0, k, Unlink(c0, k)), used0 := d.used0 - 1)
    else if ChainFind(c1, k).Some? && d.used1 > 0 then
      d.(ht1 := Update(hash, d.ht1, k, Unlink(c1, k)), used1 := d.used1 - 1)
    else d
  }

  /** The value update of `dictReplace` on an existing key. */
  function Assign<K(==), V>(hash: K -> Word, d: Dict<K, V>, k: K, v: V): Dict<K, V> {
    var c0, c1 := Bucket(hash, d.ht0, k), Bucket(hash, d.ht1, k);
    if ChainFind(c0, k).Some? then d.(ht0 := Update(hash, d.ht0, k, SetVal(c0, k, v)))
    else if ChainFind(c1, k).Some? then d.(ht1 := Update(hash, d.ht1, k, SetVal(c1, k, v)))
    else d
  }

  /** One iteration of the inner loop of `dictRehash`: the head of bucket `i` moves to the second table. */
  function MoveHead<K, V>(hash: K -> Word, d: Dict<K, V>, i: nat): Dict<K, V>
    requires i < |d.ht0| && d.ht0[i] != []
    requires |d.ht1| > 0 && Index(hash(d.ht0[i][0].key), |d.ht1|) < |d.ht1| && d.used0 > 0
  {
    var e := d.ht0[i][0];
    d.(ht0 := d.ht0[i := d.ht0[i][1..]], used0 := d.used0 - 1,
       ht1 := Push(d.ht1, Index(hash(e.key), |d.ht1|), e), used1 := d.used1 + 1)
  }

  /** The end of a rehash: the second table becomes the first. */
  function Swap<K, V>(d: Dict<K, V>): Dict<K, V> {
    d.(ht0 := d.ht1, used0 := d.used1, ht1 := [], used1 := 0, rehashidx := -1)
  }

  // ---------- lemmas: chains and totals ----------

  lemma {:induction false} TotalUpdate<K, V>(t: Buckets<K, V>, i: nat, c: Chain<K, V>)
    requires i < |t|
    ensures Total(t[i := c]) == Total(t) - |t[i]| + |c|
  {
    if i == 0 {
      assert t[0 := c][1..] == t[1..];
    } else {
      assert t[i := c][1..] == t[1..][i - 1 := c];
      TotalUpdate(t[1..], i - 1, c);
    }
  }

  lemma {:induction false} TotalZero<K, V>(t: Buckets<K, V>)
    ensures Total(t) == 0 <==> forall i | 0 <= i < |t| :: t[i] == []
  {
    if t != [] {
      TotalZero(t[1..]);
      if Total(t) == 0 {
        forall i | 0 <= i < |t| ensures t[i] == [] {
          if i > 0 { assert t[i] == t[1..][i - 1]; }
        }
      }
    }
  }

  lemma {:induction false} TotalAtLeast<K, V>(t: Buckets<K, V>, i: nat)
    requires i < |t|
    ensures Total(t) >= |t[i]|
  {
    TotalUpdate(t, i, []);
  }

  lemma {:induction false} ChainFindIff<K, V>(c: Chain<K, V>, k: K)
    ensures ChainFind(c, k).Some? <==> exists e :: e in c && e.key == k
    ensures ChainFind(c, k).Some? ==> Entry(k, ChainFind(c, k).value) in c
  {
    if c != [] {
      ChainFindIff(c[1..], k);
      assert c == [c[0]] + c[1..];
    }
  }

  lemma {:induction false} ChainFindConcat<K, V>(c: Chain<K, V>, d: Chain<K, V>, k: K)
    ensures ChainFind(c + d, k) == if ChainFind(c, k).Some? then ChainFind(c, k) else ChainFind(d, k)
  {
    if c == [] {
      assert c + d == d;
    } else {
      assert (c + d)[1..] == c[1..] + d;
      ChainFindConcat(c[1..], d, k);
    }
  }

  lemma {:induction false} UnlinkMembers<K, V>(c: Chain<K, V>, k: K)
    requires Distinct(c)
    ensures forall e | e in Unlink(c, k) :: e in c && e.key != k
    ensures forall e | e in c && e.key != k :: e in Unlink(c, k)
    ensures |Unlink(c, k)| == |c| - if ChainFind(c, k).Some? then 1 else 0
  {
    if c != [] {
      assert c == [c[0]] + c[1..];
      UnlinkMembers(c[1..], k);
    }
  }

  lemma {:induction false} UnlinkDistinct<K, V>(c: Chain<K, V>, k: K)
    requires Distinct(c)
    ensures Distinct(Unlink(c, k))
  {
    if c != [] && c[0].key != k {
      UnlinkDistinct(c[1..], k);
      UnlinkMembers(c[1..], k);
      assert forall e | e in c[1..] :: e.key != c[0].key;
      forall j | 0 <= j < |Unlink(c[1..], k)| ensures Unlink(c[1..], k)[j].key != c[0].key {
        assert Unlink(c[1..], k)[j] in Unlink(c[1..], k);
      }
    }
  }

  lemma {:induction false} UnlinkFind<K, V>(c: Chain<K, V>, k: K, j: K)
    requires Distinct(c)
    ensures ChainFind(Unlink(c, k), j) == if j == k then None else ChainFind(c, j)
  {
    if c != [] {
      UnlinkFind(c[1..], k, j);
      if c[0].key == k {
        ChainFindIff(c[1..], k);
      } else {
        assert Unlink(c, k)[1..] == Unlink(c[1..], k);
      }
    }
  }

  lemma {:induction false} SetValEffect<K, V>(c: Chain<K, V>, k: K, v: V)
    ensures |SetVal(c, k, v)| == |c|
    ensures forall i | 0 <= i < |c| :: SetVal(c, k, v)[i].key == c[i].key
    ensures forall j :: ChainFind(SetVal(c, k, v), j) ==
                        if j == k && ChainFind(c, k).Some? then Some(v) else ChainFind(c, j)
  {
    if c != [] && c[0].key != k {
      SetValEffect(c[1..], k, v);
      assert SetVal(c, k, v)[1..] == SetVal(c[1..], k, v);
    }
  }

  // ---------- lemmas: one bucket changes ----------

  lemma BucketUpdate<K, V>(hash: K -> Word, t: Buckets<K, V>, i: nat, c: Chain<K, V>, k: K)
    requires i < |t|
    ensures Bucket(hash, t[i := c], k) == if Index(hash(k), |t|) == i then c else Bucket(hash, t, k)
  {
  }

  lemma InBucket<K, V>(hash: K -> Word, t: Buckets<K, V>, i: nat, e: Entry<K, V>)
    requires Placed(hash, t) && i < |t| && e in t[i]
    ensures Bucket(hash, t, e.key) == t[i]
  {
  }

  lemma FindSplit<K, V>(hash: K -> Word, d: Dict<K, V>, k: K)
    ensures Find(hash, d, k) == var r := ChainFind(Bucket(hash, d.ht0, k), k);
                                if r.Some? then r else ChainFind(Bucket(hash, d.ht1, k), k)
  {
    ChainFindConcat(Bucket(hash, d.ht0, k), Bucket(hash, d.ht1, k), k);
  }

  /** A key is in at most one of the two tables. */
  lemma OneTable<K, V>(hash: K -> Word, d: Dict<K, V>, k: K)
    requires Inv(hash, d)
    ensures !(ChainFind(Bucket(hash, d.ht0, k), k).Some? && ChainFind(Bucket(hash, d.ht1, k), k).Some?)
  {
    FoundIffKey(hash, d.ht0, k);
    FoundIffKey(hash, d.ht1, k);
  }

  lemma FoundIffKey<K, V>(hash: K -> Word, t: Buckets<K, V>, k: K)
    requires Placed(hash, t)
    ensures ChainFind(Bucket(hash, t, k), k).Some? <==> k in KeysOf(t)
  {
    ChainFindIff(Bucket(hash, t, k), k);
  }

  /** A table keeps its placement and uniqueness when a chain loses entries or gains a fitting one. */
  lemma SetChain<K, V>(hash: K -> Word, t: Buckets<K, V>, i: nat, c: Chain<K, V>)
    requires Placed(hash, t) && AllDistinct(t) && i < |t|
    requires Distinct(c) && forall e | e in c :: Index(hash(e.key), |t|) == i
    ensures Placed(hash, t[i := c]) && AllDistinct(t[i := c])
    ensures Total(t[i := c]) == Total(t) - |t[i]| + |c|
  {
    TotalUpdate(t, i, c);
  }

  lemma ConsDistinct<K, V>(c: Chain<K, V>, e: Entry<K, V>)
    requires Distinct(c) && ChainFind(c, e.key).None?
    ensures Distinct([e] + c)
  {
    ChainFindIff(c, e.key);
    forall j | 0 <= j < |c| ensures c[j].key != e.key { assert c[j] in c; }
  }

  lemma ConsFits<K, V>(hash: K -> Word, t: Buckets<K, V>, e: Entry<K, V>)
    requires Placed(hash, t) && |t| > 0 && Index(hash(e.key), |t|) < |t|
    ensures var i := Index(hash(e.key), |t|);
            forall f | f in [e] + t[i] :: Index(hash(f.key), |t|) == i
  {
  }

  lemma PushKeys<K, V>(t: Buckets<K, V>, i: nat, e: Entry<K, V>)
    requires i < |t|
    ensures KeysOf(Push(t, i, e)) == KeysOf(t) + {e.key}
  {
    var t' := Push(t, i, e);
    assert e in t'[i];
    forall k | k in KeysOf(t) ensures k in KeysOf(t') {
      var j, f :| 0 <= j < |t| && f in t[j] && f.key == k;
      assert f in t'[j];
    }
  }

  /** Unlinking a key from its chain removes it from the table and disturbs nothing else. */
  lemma UnlinkChain<K, V>(hash: K -> Word, t: Buckets<K, V>, k: K)
    requires Placed(hash, t) && AllDistinct(t) && ChainFind(Bucket(hash, t, k), k).Some?
    ensures var t' := Update(hash, t, k, Unlink(Bucket(hash, t, k), k));
            && |t'| == |t| && Placed(hash, t') && AllDistinct(t') && Total(t') == Total(t) - 1
            && KeysOf(t') <= KeysOf(t)
  {
    var c := Bucket(hash, t, k);
    UnlinkMembers(c, k);
    UnlinkDistinct(c, k);
    SetChain(hash, t, Index(hash(k), |t|), Unlink(c, k));
  }

  lemma PushChain<K, V>(hash: K -> Word, t: Buckets<K, V>, e: Entry<K, V>)
    requires Placed(hash, t) && AllDistinct(t) && |t| > 0 && Index(hash(e.key), |t|) < |t|
    requires ChainFind(Bucket(hash, t, e.key), e.key).None?
    ensures var t' := Push(t, Index(hash(e.key), |t|), e);
            && Placed(hash, t') && AllDistinct(t') && Total(t') == Total(t) + 1
            && KeysOf(t') == KeysOf(t) + {e.key}
  {
    var i := Index(hash(e.key), |t|);
    ConsFits(hash, t, e);
    ConsDistinct(t[i], e);
    SetChain(hash, t, i, [e] + t[i]);
    PushKeys(t, i, e);
  }

  // ---------- every operation keeps the invariant and acts on the map it stands for ----------

  lemma {:induction false} NextPowerBounds(size: nat, a: nat, top: nat)
    requires a <= top <= WIDTH && size <= Pow2(top)
    ensures size <= NextPower(size, Pow2(a))
    ensures exists b: nat :: a <= b <= top && NextPower(size, Pow2(a)) == Pow2(b)
    ensures NextPower(size, Pow2(a)) == Pow2(a) || NextPower(size, Pow2(a)) < 2 * size
    decreases top - a
  {
    if Pow2(a) < size {
      if a == top { assert false; }
      NextPowerBounds(size, a + 1, top);
    }
  }

  const MAX_SIZE := 0x8000_0000

  lemma MaxSizeIsPow2()
    ensures MAX_SIZE == Pow2(31)
  {
    assert Pow2(8) == 256;
    Pow2Add(8, 8);
    Pow2Add(16, 8);
    Pow2Add(24, 7);
    assert Pow2(7) == 128;
  }

  lemma NextPowerIsTableSize(size: nat)
    requires size <= MAX_SIZE
    ensures TableSize(NextPower(size)) && size <= NextPower(size) <= MAX_SIZE
  {
    MaxSizeIsPow2();
    assert Pow2(2) == 4;
    NextPowerBounds(size, 2, 31);
    var b: nat :| 2 <= b <= 31 && NextPower(size) == Pow2(b);
    Pow2Monotone(b, 31);
  }

  lemma {:induction false} TotalEmpty<K, V>(size: nat)
    ensures Total(EmptyTable<K, V>(size)) == 0
  {
    TotalZero(EmptyTable<K, V>(size));
  }

  lemma ExpandKeeps<K, V>(hash: K -> Word, d: Dict<K, V>, size: nat)
    requires Inv(hash, d) && size <= MAX_SIZE
    ensures Inv(hash, Expand(d, size).0)
    ensures forall k :: Find(hash, Expand(d, size).0, k) == Find(hash, d, k)
  {
    NextPowerIsTableSize(size);
    TotalEmpty<K, V>(NextPower(size));
    var d' := Expand(d, size).0;
    if d' != d {
      forall k ensures Find(hash, d', k) == Find(hash, d, k) {
        assert Bucket(hash, d'.ht1, k) == [];
        assert Bucket(hash, d'.ht0, k) == Bucket(hash, d.ht0, k);
      }
    }
  }

  /** Growing on demand never reports failure. */
  lemma ExpandIfNeededSucceeds<K, V>(hash: K -> Word, d: Dict<K, V>, canResize: bool)
    requires Inv(hash, d) && d.used0 * 2 <= MAX_SIZE
    ensures ExpandIfNeeded(d, canResize).1
    ensures Inv(hash, ExpandIfNeeded(d, canResize).0) && |ExpandIfNeeded(d, canResize).0.ht0| > 0
    ensures forall k :: Find(hash, ExpandIfNeeded(d, canResize).0, k) == Find(hash, d, k)
  {
    if !Rehashing(d) {
      if |d.ht0| == 0 {
        ExpandKeeps(hash, d, INITIAL_SIZE);
        NextPowerIsTableSize(INITIAL_SIZE);
      } else if d.used0 >= |d.ht0| {
        ExpandKeeps(hash, d, d.used0 * 2);
        NextPowerIsTableSize(d.used0 * 2);
      }
    }
  }

  /** The size is the least power of two that will do, from the initial size on. */
  lemma NextPowerIsLeast(size: nat, b: nat)
    requires 2 <= b && size <= Pow2(b)
    ensures NextPower(size) <= Pow2(b)
  {
    assert Pow2(2) == INITIAL_SIZE;
    NextPowerWithin(size, 2, b);
  }

  lemma {:induction false} NextPowerWithin(size: nat, a: nat, b: nat)
    requires a <= b && size <= Pow2(b)
    ensures NextPower(size, Pow2(a)) <= Pow2(b)
    decreases b - a
  {
    if Pow2(a) >= size {
      Pow2Monotone(a, b);
    } else {
      if a == b { assert false; }
      NextPowerWithin(size, a + 1, b);
    }
  }

  /** A resize is accepted exactly when none is in progress, the entries fit, and the size would change. */
  lemma ExpandIff<K, V>(hash: K -> Word, d: Dict<K, V>, size: nat)
    requires Inv(hash, d) && size <= MAX_SIZE
    ensures Expand(d, size).1 <==> !Rehashing(d) && d.used0 <= size && |d.ht0| != NextPower(size)
    ensures var e := Expand(d, size).0;
            && (!Expand(d, size).1 ==> e == d)
            && (Expand(d, size).1 ==>
                  if |d.ht0| == 0 then !Rehashing(e) && e.ht0 == EmptyTable(NextPower(size)) && e.used0 == 0
                  else e.rehashidx == 0 && e.ht0 == d.ht0 && e.used0 == d.used0
                       && e.ht1 == EmptyTable(NextPower(size)) && e.used1 == 0)
  {
  }

  /** The number of entries at which a table of this size grows. */
  function Limit(size: nat, canResize: bool): nat {
    if canResize then size else (FORCE_RESIZE_RATIO + 1) * size
  }

  /**
   A table starts to grow exactly when it holds as many entries as buckets, or six times as many while resizing is to be
   avoided, and then to at least twice and less than four times its entries, or to the initial size.
   */
  lemma GrowsIff<K, V>(hash: K -> Word, d: Dict<K, V>, canResize: bool)
    requires Inv(hash, d) && d.used0 * 2 <= MAX_SIZE
    ensures var e := ExpandIfNeeded(d, canResize).0;
            && (|d.ht0| == 0 ==> !Rehashing(e) && |e.ht0| == INITIAL_SIZE)
            && (|d.ht0| > 0 ==> e.ht0 == d.ht0 && e.used0 == d.used0)
            && (|d.ht0| > 0 ==>
                  (e != d <==> !Rehashing(d) && d.used0 >= Limit(|d.ht0|, canResize)))
            && (|d.ht0| > 0 && e != d ==>
                  && e.rehashidx == 0 && TableSize(|e.ht1|)
                  && 2 * d.used0 <= |e.ht1| && (|e.ht1| == INITIAL_SIZE || |e.ht1| < 4 * d.used0))
  {
    if !Rehashing(d) {
      if |d.ht0| == 0 {
        ExpandIff(hash, d, INITIAL_SIZE);
      } else {
        RatioIff(d.used0, |d.ht0|);
        if d.used0 >= |d.ht0| {
          NextPowerIsTableSize(d.used0 * 2);
          MaxSizeIsPow2();
          assert Pow2(2) == INITIAL_SIZE;
          NextPowerBounds(d.used0 * 2, 2, 31);
        }
      }
    }
  }

  /** After that, a table that is not growing has room left. */
  lemma LoadBounded<K, V>(hash: K -> Word, d: Dict<K, V>, canResize: bool)
    requires Inv(hash, d) && d.used0 * 2 <= MAX_SIZE
    ensures var e := ExpandIfNeeded(d, canResize).0;
            !Rehashing(e) ==> e.used0 < Limit(|e.ht0|, canResize)
  {
    hide ExpandIfNeeded;
    GrowsIff(hash, d, canResize);
    if |d.ht0| == 0 { EmptyExpand(d, canResize); }
  }

  lemma EmptyExpand<K, V>(d: Dict<K, V>, canResize: bool)
    requires Shape(d) && |d.ht0| == 0 && d.used0 == 0
    ensures ExpandIfNeeded(d, canResize).0.used0 == 0
  {
  }

  /** The quotient that forces a resize. */
  lemma RatioIff(used: nat, size: nat)
    requires size > 0
    ensures used / size > FORCE_RESIZE_RATIO <==> used >= (FORCE_RESIZE_RATIO + 1) * size
  {
    var q := used / size;
    assert used == q * size + used % size;
    if q >= 6 { assert q * size >= 6 * size; }
    if q <= 5 { assert q * size <= 5 * size; }
  }

  lemma InsertKeepsInv<K, V>(hash: K -> Word, d: Dict<K, V>, e: Entry<K, V>)
    requires Inv(hash, d) && |d.ht0| > 0 && Find(hash, d, e.key).None?
    ensures Inv(hash, Insert(hash, d, e))
  {
    var t := if Rehashing(d) then d.ht1 else d.ht0;
    IndexInRange(hash(e.key), |t|);
    FindSplit(hash, d, e.key);
    PushChain(hash, t, e);
    FoundIffKey(hash, d.ht0, e.key);
  }

  lemma InsertFind<K, V>(hash: K -> Word, d: Dict<K, V>, e: Entry<K, V>, k: K)
    requires Inv(hash, d) && |d.ht0| > 0 && Find(hash, d, e.key).None?
    ensures Find(hash, Insert(hash, d, e), k) == if k == e.key then Some(e.val) else Find(hash, d, k)
  {
    hide Index, Placed, AllDistinct, Apart, Total, Find;
    var t := if Rehashing(d) then d.ht1 else d.ht0;
    var i := Index(hash(e.key), |t|);
    IndexInRange(hash(e.key), |t|);
    FindSplit(hash, d, e.key);
    FindSplit(hash, d, k);
    FindSplit(hash, Insert(hash, d, e), k);
    BucketUpdate(hash, t, i, [e] + t[i], k);
    assert ([e] + t[i])[1..] == t[i];
  }

  lemma DeleteKeepsInv<K, V>(hash: K -> Word, d: Dict<K, V>, k: K)
    requires Inv(hash, d)
    ensures Inv(hash, Delete(hash, d, k))
  {
    if ChainFind(Bucket(hash, d.ht0, k), k).Some? && d.used0 > 0 {
      UnlinkChain(hash, d.ht0, k);
      assert forall i | 0 <= i < d.rehashidx :: Delete(hash, d, k).ht0[i] == [];
    } else if ChainFind(Bucket(hash, d.ht1, k), k).Some? && d.used1 > 0 {
      UnlinkChain(hash, d.ht1, k);
    }
  }

  lemma UsedWhenFound<K, V>(hash: K -> Word, t: Buckets<K, V>, k: K)
    requires ChainFind(Bucket(hash, t, k), k).Some?
    ensures Total(t) > 0
  {
    TotalAtLeast(t, Index(hash(k), |t|));
  }

  lemma DeleteFind<K, V>(hash: K -> Word, d: Dict<K, V>, k: K, j: K)
    requires Inv(hash, d)
    ensures Find(hash, Delete(hash, d, k), j) == if j == k then None else Find(hash, d, j)
  {
    var c0, c1 := Bucket(hash, d.ht0, k), Bucket(hash, d.ht1, k);
    OneTable(hash, d, k);
    FindSplit(hash, d, j);
    FindSplit(hash, Delete(hash, d, k), j);
    if ChainFind(c0, k).Some? {
      UsedWhenFound(hash, d.ht0, k);
      BucketUpdate(hash, d.ht0, Index(hash(k), |d.ht0|), Unlink(c0, k), j);
      UnlinkFind(c0, k, j);
    } else if ChainFind(c1, k).Some? {
      UsedWhenFound(hash, d.ht1, k);
      BucketUpdate(hash, d.ht1, Index(hash(k), |d.ht1|), Unlink(c1, k), j);
      UnlinkFind(c1, k, j);
    }
  }

  lemma SetValChain<K, V>(hash: K -> Word, t: Buckets<K, V>, k: K, v: V)
    requires Placed(hash, t) && AllDistinct(t) && Bucket(hash, t, k) != []
    ensures var t' := Update(hash, t, k, SetVal(Bucket(hash, t, k), k, v));
            && |t'| == |t| && Placed(hash, t') && AllDistinct(t') && Total(t') == Total(t)
            && KeysOf(t') <= KeysOf(t)
  {
    var c := Bucket(hash, t, k);
    var c' := SetVal(c, k, v);
    SetValEffect(c, k, v);
    forall e | e in c' ensures exists f :: f in c && f.key == e.key {
      var j :| 0 <= j < |c'| && c'[j] == e;
      assert c[j] in c;
    }
    SetChain(hash, t, Index(hash(k), |t|), c');
  }

  lemma AssignKeepsInv<K, V>(hash: K -> Word, d: Dict<K, V>, k: K, v: V)
    requires Inv(hash, d)
    ensures Inv(hash, Assign(hash, d, k, v))
  {
    var c0, c1 := Bucket(hash, d.ht0, k), Bucket(hash, d.ht1, k);
    if ChainFind(c0, k).Some? {
      SetValChain(hash, d.ht0, k, v);
    } else if ChainFind(c1, k).Some? {
      SetValChain(hash, d.ht1, k, v);
    }
  }

  lemma AssignFind<K, V>(hash: K -> Word, d: Dict<K, V>, k: K, v: V, j: K)
    requires Inv(hash, d) && Find(hash, d, k).Some?
    ensures Find(hash, Assign(hash, d, k, v), j) == if j == k then Some(v) else Find(hash, d, j)
  {
    var c0, c1 := Bucket(hash, d.ht0, k), Bucket(hash, d.ht1, k);
    FindSplit(hash, d, k);
    FindSplit(hash, d, j);
    FindSplit(hash, Assign(hash, d, k, v), j);
    SetValEffect(c0, k, v);
    SetValEffect(c1, k, v);
    if ChainFind(c0, k).Some? {
      BucketUpdate(hash, d.ht0, Index(hash(k), |d.ht0|), SetVal(c0, k, v), j);
    } else {
      BucketUpdate(hash, d.ht1, Index(hash(k), |d.ht1|), SetVal(c1, k, v), j);
    }
  }

  // ---------- rehashing ----------

  /** The preconditions of moving an entry, in a valid dictionary. */
  lemma CanMove<K, V>(hash: K -> Word, d: Dict<K, V>, i: nat)
    requires Inv(hash, d) && Rehashing(d) && i < |d.ht0| && d.ht0[i] != []
    ensures Index(hash(d.ht0[i][0].key), |d.ht1|) < |d.ht1| && d.used0 > 0
  {
    IndexInRange(hash(d.ht0[i][0].key), |d.ht1|);
    TotalAtLeast(d.ht0, i);
  }

  lemma MoveHeadKeepsInv<K, V>(hash: K -> Word, d: Dict<K, V>, i: nat)
    requires Inv(hash, d) && Rehashing(d) && d.rehashidx <= i < |d.ht0| && d.ht0[i] != []
    requires Index(hash(d.ht0[i][0].key), |d.ht1|) < |d.ht1| && d.used0 > 0
    ensures Inv(hash, MoveHead(hash, d, i))
  {
    var e := d.ht0[i][0];
    var rest := d.ht0[i][1..];
    assert d.ht0[i] == [e] + rest;
    SetChain(hash, d.ht0, i, rest);
    assert e.key !in KeysOf(d.ht0[i := rest]) && KeysOf(d.ht0[i := rest]) <= KeysOf(d.ht0);
    FoundIffKey(hash, d.ht1, e.key);
    PushChain(hash, d.ht1, e);
  }

  lemma MoveHeadFind<K, V>(hash: K -> Word, d: Dict<K, V>, i: nat, k: K)
    requires Inv(hash, d) && Rehashing(d) && d.rehashidx <= i < |d.ht0| && d.ht0[i] != []
    requires Index(hash(d.ht0[i][0].key), |d.ht1|) < |d.ht1| && d.used0 > 0
    ensures Find(hash, MoveHead(hash, d, i), k) == Find(hash, d, k)
  {
    var e := d.ht0[i][0];
    var rest := d.ht0[i][1..];
    var j := Index(hash(e.key), |d.ht1|);
    assert d.ht0[i] == [e] + rest;
    InBucket(hash, d.ht0, i, e);
    FindSplit(hash, d, k);
    FindSplit(hash, MoveHead(hash, d, i), k);
    BucketUpdate(hash, d.ht0, i, rest, k);
    BucketUpdate(hash, d.ht1, j, [e] + d.ht1[j], k);
    assert ([e] + d.ht1[j])[1..] == d.ht1[j];
    ChainFindIff(rest, e.key);
    OneTable(hash, d, e.key);
  }

  /** The bound asserted by `dictRehash`: entries left in the first table lie at or above `rehashidx`. */
  lemma RehashIndexInRange<K, V>(hash: K -> Word, d: Dict<K, V>)
    requires Inv(hash, d) && Rehashing(d) && d.used0 != 0
    ensures d.rehashidx < |d.ht0|
    ensures exists i :: d.rehashidx <= i < |d.ht0| && d.ht0[i] != []
  {
    TotalZero(d.ht0);
  }

  /** Passing an empty bucket keeps everything. */
  lemma AdvanceKeeps<K, V>(hash: K -> Word, d: Dict<K, V>)
    requires Inv(hash, d) && Rehashing(d) && d.rehashidx < |d.ht0| && d.ht0[d.rehashidx] == []
    ensures Inv(hash, d.(rehashidx := d.rehashidx + 1))
    ensures forall k :: Find(hash, d.(rehashidx := d.rehashidx + 1), k) == Find(hash, d, k)
  {
  }

  lemma SwapKeeps<K, V>(hash: K -> Word, d: Dict<K, V>)
    requires Inv(hash, d) && Rehashing(d) && d.used0 == 0
    ensures Inv(hash, Swap(d))
    ensures forall k :: Find(hash, Swap(d), k) == Find(hash, d, k)
  {
    TotalZero(d.ht0);
    forall k ensures Find(hash, Swap(d), k) == Find(hash, d, k) {
      assert Bucket(hash, d.ht0, k) == [];
      assert Bucket(hash, Swap(d).ht1, k) == [];
      assert [] + Bucket(hash, d.ht1, k) == Bucket(hash, Swap(d).ht0, k) + [];
    }
  }

  // ---------- the operations refine those of a finite map ----------

  lemma GoodShape<K(!new), V>(hash: K -> Word, d: Dict<K, V>, m: map<K, V>)
    requires Good(hash, d, m)
    ensures Shape(d) && d.used0 == Total(d.ht0) && d.used1 == Total(d.ht1)
    ensures !Rehashing(d) ==> d.used1 == 0
    ensures |d.ht0| == 0 ==> d.used0 == 0
  {
    if !Rehashing(d) { assert d.ht1 == []; }
  }

  lemma EmptyMap<K(!new), V>(hash: K -> Word, d: Dict<K, V>, m: map<K, V>)
    requires Good(hash, d, m)
    ensures |m| == d.used0 + d.used1
    ensures d.used0 + d.used1 == 0 <==> m == map[]
  {
  }

  /** The buckets of a key are within both tables. */
  lemma GoodIndex<K(!new), V>(hash: K -> Word, d: Dict<K, V>, m: map<K, V>, k: K)
    requires Good(hash, d, m)
    ensures |d.ht0| > 0 ==> Index(hash(k), |d.ht0|) < |d.ht0|
    ensures Rehashing(d) ==> |d.ht1| > 0 && Index(hash(k), |d.ht1|) < |d.ht1|
    ensures !Rehashing(d) ==> d.ht1 == []
  {
    if |d.ht0| > 0 { IndexInRange(hash(k), |d.ht0|); }
    if Rehashing(d) { IndexInRange(hash(k), |d.ht1|); }
  }

  lemma DeleteFirst<K(!new), V>(hash: K -> Word, d: Dict<K, V>, m: map<K, V>, k: K)
    requires Good(hash, d, m) && |d.ht0| > 0 && Index(hash(k), |d.ht0|) < |d.ht0|
    ensures var i := Index(hash(k), |d.ht0|);
            ChainFind(d.ht0[i], k).Some? ==>
              && k in m && d.used0 > 0
              && Delete(hash, d, k) == d.(ht0 := d.ht0[i := Unlink(d.ht0[i], k)], used0 := d.used0 - 1)
  {
    FindSplit(hash, d, k);
    GoodFind(hash, d, m, k);
    if ChainFind(Bucket(hash, d.ht0, k), k).Some? { UsedWhenFound(hash, d.ht0, k); }
  }

  lemma DeleteSecond<K(!new), V>(hash: K -> Word, d: Dict<K, V>, m: map<K, V>, k: K)
    requires Good(hash, d, m) && |d.ht0| > 0 && Index(hash(k), |d.ht0|) < |d.ht0|
    requires ChainFind(d.ht0[Index(hash(k), |d.ht0|)], k).None?
    requires Rehashing(d) && |d.ht1| > 0 && Index(hash(k), |d.ht1|) < |d.ht1|
    ensures var j := Index(hash(k), |d.ht1|);
            if ChainFind(d.ht1[j], k).Some? then
              && k in m && d.used1 > 0
              && Delete(hash, d, k) == d.(ht1 := d.ht1[j := Unlink(d.ht1[j], k)], used1 := d.used1 - 1)
            else k !in m && Delete(hash, d, k) == d
  {
    FindSplit(hash, d, k);
    GoodFind(hash, d, m, k);
    if ChainFind(Bucket(hash, d.ht1, k), k).Some? { UsedWhenFound(hash, d.ht1, k); }
  }

  lemma DeleteNone<K(!new), V>(hash: K -> Word, d: Dict<K, V>, m: map<K, V>, k: K)
    requires Good(hash, d, m) && |d.ht0| > 0 && Index(hash(k), |d.ht0|) < |d.ht0|
    requires ChainFind(d.ht0[Index(hash(k), |d.ht0|)], k).None? && !Rehashing(d)
    ensures k !in m && Delete(hash, d, k) == d
  {
    FindSplit(hash, d, k);
    GoodFind(hash, d, m, k);
    GoodIndex(hash, d, m, k);
  }

  lemma EmptyDelete<K(!new), V>(hash: K -> Word, d: Dict<K, V>, k: K)
    requires |d.ht0| == 0 && |d.ht1| == 0
    ensures Delete(hash, d, k) == d
  {
  }

  lemma GoodFind<K(!new), V>(hash: K -> Word, d: Dict<K, V>, m: map<K, V>, k: K)
    requires Good(hash, d, m)
    ensures Find(hash, d, k) == if k in m then Some(m[k]) else None
  {
  }

  lemma ExpandRefines<K(!new), V>(hash: K -> Word, d: Dict<K, V>, m: map<K, V>, size: nat)
    requires Good(hash, d, m) && size <= MAX_SIZE
    ensures Good(hash, Expand(d, size).0, m)
  {
    ExpandKeeps(hash, d, size);
    TotalZero(d.ht0);
    TotalZero(d.ht1);
  }

  lemma AddRefines<K(!new), V>(hash: K -> Word, d: Dict<K, V>, m: map<K, V>, k: K, v: V)
    requires Good(hash, d, m) && |d.ht0| > 0 && k !in m
    ensures Good(hash, Insert(hash, d, Entry(k, v)), m[k := v])
  {
    InsertKeepsInv(hash, d, Entry(k, v));
    forall j { InsertFind(hash, d, Entry(k, v), j); }
    IndexInRange(hash(k), if Rehashing(d) then |d.ht1| else |d.ht0|);
  }

  /** A new entry goes to the head of its chain, and while rehashing never to the table that is being emptied. */
  lemma AddPlaces<K, V>(hash: K -> Word, d: Dict<K, V>, k: K, v: V)
    requires Inv(hash, d) && |d.ht0| > 0
    ensures var e := Insert(hash, d, Entry(k, v));
            if Rehashing(d) then
              && e.ht0 == d.ht0 && e.used0 == d.used0
              && Bucket(hash, e.ht1, k) == [Entry(k, v)] + Bucket(hash, d.ht1, k)
            else e.ht1 == d.ht1 && Bucket(hash, e.ht0, k) == [Entry(k, v)] + Bucket(hash, d.ht0, k)
  {
    hide Placed, AllDistinct, Apart, Total, Index;
    IndexInRange(hash(k), if Rehashing(d) then |d.ht1| else |d.ht0|);
  }

  lemma DeleteRefines<K(!new), V>(hash: K -> Word, d: Dict<K, V>, m: map<K, V>, k: K)
    requires Good(hash, d, m)
    ensures Good(hash, Delete(hash, d, k), m - {k})
  {
    hide Inv, Find, Delete;
    DeleteKeepsInv(hash, d, k);
    forall j { DeleteFind(hash, d, k, j); }
    DeleteCounts(hash, d, k);
    assert (m - {k}).Keys == m.Keys - {k};
  }

  lemma DeleteCounts<K, V>(hash: K -> Word, d: Dict<K, V>, k: K)
    requires Inv(hash, d)
    ensures var u := Delete(hash, d, k);
            u.used0 + u.used1 == d.used0 + d.used1 - if Find(hash, d, k).Some? then 1 else 0
  {
    hide Find, Placed, AllDistinct, Apart, Unlink, Update;
    FindSplit(hash, d, k);
    OneTable(hash, d, k);
    if ChainFind(Bucket(hash, d.ht0, k), k).Some? {
      UsedWhenFound(hash, d.ht0, k);
    } else if ChainFind(Bucket(hash, d.ht1, k), k).Some? {
      UsedWhenFound(hash, d.ht1, k);
    }
  }

  lemma AssignRefines<K(!new), V>(hash: K -> Word, d: Dict<K, V>, m: map<K, V>, k: K, v: V)
    requires Good(hash, d, m) && k in m
    ensures Good(hash, Assign(hash, d, k, v), m[k := v])
  {
    hide Inv, Find, Assign;
    AssignKeepsInv(hash, d, k, v);
    forall j { AssignFind(hash, d, k, v, j); }
    AssignCounts(hash, d, k, v);
    assert m[k := v].Keys == m.Keys + {k};
  }

  lemma AssignCounts<K, V>(hash: K -> Word, d: Dict<K, V>, k: K, v: V)
    ensures var u := Assign(hash, d, k, v); u.used0 == d.used0 && u.used1 == d.used1
  {
  }

  /** Which bucket the update of an existing key writes to. */
  lemma AssignCases<K(!new), V>(hash: K -> Word, d: Dict<K, V>, m: map<K, V>, k: K, v: V)
    requires Good(hash, d, m) && k in m
    ensures |d.ht0| > 0 ==> Index(hash(k), |d.ht0|) < |d.ht0|
    ensures if |d.ht0| > 0 && ChainFind(d.ht0[Index(hash(k), |d.ht0|)], k).Some? then
              var i := Index(hash(k), |d.ht0|);
              Assign(hash, d, k, v) == d.(ht0 := d.ht0[i := SetVal(d.ht0[i], k, v)])
            else
              && |d.ht1| > 0 && Index(hash(k), |d.ht1|) < |d.ht1|
              && var i := Index(hash(k), |d.ht1|);
                 Assign(hash, d, k, v) == d.(ht1 := d.ht1[i := SetVal(d.ht1[i], k, v)])
  {
    hide Find, Placed, AllDistinct, Apart, Total, SetVal;
    GoodFind(hash, d, m, k);
    FindSplit(hash, d, k);
    if |d.ht0| > 0 { IndexInRange(hash(k), |d.ht0|); }
    if |d.ht1| > 0 { IndexInRange(hash(k), |d.ht1|); }
  }

  lemma MoveRefines<K(!new), V>(hash: K -> Word, d: Dict<K, V>, m: map<K, V>, i: nat)
    requires Good(hash, d, m) && Rehashing(d) && d.rehashidx <= i < |d.ht0| && d.ht0[i] != []
    ensures Index(hash(d.ht0[i][0].key), |d.ht1|) < |d.ht1| && d.used0 > 0
    ensures Good(hash, MoveHead(hash, d, i), m)
  {
    CanMove(hash, d, i);
    MoveHeadKeepsInv(hash, d, i);
    forall k { MoveHeadFind(hash, d, i, k); }
  }

  lemma AdvanceRefines<K(!new), V>(hash: K -> Word, d: Dict<K, V>, m: map<K, V>)
    requires Good(hash, d, m) && Rehashing(d) && d.rehashidx < |d.ht0| && d.ht0[d.rehashidx] == []
    ensures Good(hash, d.(rehashidx := d.rehashidx + 1), m)
  {
    AdvanceKeeps(hash, d);
  }

  lemma FindNonEmpty<K(!new), V>(hash: K -> Word, d: Dict<K, V>, m: map<K, V>) returns (end: nat)
    requires Good(hash, d, m) && Rehashing(d) && d.used0 != 0
    ensures d.rehashidx <= end < |d.ht0| && d.ht0[end] != []
  {
    RehashIndexInRange(hash, d);
    end :| d.rehashidx <= end < |d.ht0| && d.ht0[end] != [];
  }

  lemma NothingLeft<K(!new), V>(hash: K -> Word, d: Dict<K, V>, m: map<K, V>)
    requires Good(hash, d, m) && d.used0 == 0
    ensures forall i | 0 <= i < |d.ht0| :: d.ht0[i] == []
  {
    TotalZero(d.ht0);
  }

  lemma SwapRefines<K(!new), V>(hash: K -> Word, d: Dict<K, V>, m: map<K, V>)
    requires Good(hash, d, m) && Rehashing(d) && d.used0 == 0
    ensures Good(hash, Swap(d), m)
  {
    SwapKeeps(hash, d);
  }
}
