/**
 Safe iterators of dict.c.  While one is live, rehash steps pause, but finds, additions, value
 updates and deletions go on, and an addition may start a rehash.  Keys are unique, so an entry
 pointer is its key.
 */
module DictIter {
  import opened Common
  import opened Words
  import opened DictModel

  datatype Iter<K> = Iter(table: nat, index: int, entry: Option<K>, nextEntry: Option<K>)

  function Tbl<K, V>(d: Dict<K, V>, table: nat): Buckets<K, V> {
    if table == 0 then d.ht0 else d.ht1
  }

  function ChainOf<K, V>(d: Dict<K, V>, it: Iter<K>): Chain<K, V> {
    if 0 <= it.index < |Tbl(d, it.table)| then Tbl(d, it.table)[it.index] else []
  }

  /** The chain from the entry with key `k` on. */
  function From<K(==), V>(c: Chain<K, V>, k: K): Chain<K, V> {
    if c == [] || c[0].key == k then c else From(c[1..], k)
  }

  function Head<K, V>(c: Chain<K, V>): Option<K> {
    if c == [] then None else Some(c[0].key)
  }

  /** `entry->next` of the entry with key `k`. */
  function After<K(==), V>(c: Chain<K, V>, k: K): Option<K> {
    var rest := From(c, k);
    if rest == [] then None else Head(rest[1..])
  }

  /** `dictNext`: the iterator after the call and the key of the entry returned. */
  function Next<K(==), V>(d: Dict<K, V>, it: Iter<K>): (Iter<K>, Option<K>)
    decreases if it.table == 0 then 1 else 0, |Tbl(d, it.table)| - it.index, if it.entry.Some? then 1 else 0
  {
    if it.entry.None? then
      var i := it.index + 1;
      if i < |Tbl(d, it.table)| then Land(d, it.(index := i))
      else if Rehashing(d) && it.table == 0 && |d.ht1| > 0 then Land(d, it.(table := 1, index := 0))
      else (it.(index := i), None)
    else if it.nextEntry.None? then Next(d, it.(entry := None))
    else
      var k := it.nextEntry.value;
      (it.(entry := Some(k), nextEntry := After(ChainOf(d, it), k)), Some(k))
  }

  /** Takes the head of the bucket just reached, or goes on. */
  function Land<K(==), V>(d: Dict<K, V>, it: Iter<K>): (Iter<K>, Option<K>)
    requires it.entry.None?
    decreases if it.table == 0 then 1 else 0, |Tbl(d, it.table)| - it.index, 1
  {
    var c := ChainOf(d, it);
    if c == [] then Next(d, it)
    else (it.(entry := Head(c), nextEntry := Head(c[1..])), Head(c))
  }

  datatype StepResult<K> = Go(it: Iter<K>) | Stop(it: Iter<K>, result: Option<K>)

  function Reach<K, V>(d: Dict<K, V>, it: Iter<K>): StepResult<K> {
    var c := ChainOf(d, it);
    if c == [] then Go(it) else Stop(it.(entry := Head(c), nextEntry := Head(c[1..])), Head(c))
  }

  /** One iteration of the loop of `dictNext`. */
  function Step<K(==), V>(d: Dict<K, V>, it: Iter<K>): StepResult<K> {
    if it.entry.None? then
      var i := it.index + 1;
      if i < |Tbl(d, it.table)| then Reach(d, it.(index := i))
      else if Rehashing(d) && it.table == 0 && |d.ht1| > 0 then Reach(d, it.(table := 1, index := 0))
      else Stop(it.(index := i), None)
    else if it.nextEntry.None? then Go(it.(entry := None))
    else
      var k := it.nextEntry.value;
      Stop(it.(entry := Some(k), nextEntry := After(ChainOf(d, it), k)), Some(k))
  }

  lemma NextBySteps<K, V>(d: Dict<K, V>, it: Iter<K>)
    ensures match Step(d, it)
            case Go(it') => Next(d, it) == Next(d, it')
            case Stop(it', r) => Next(d, it) == (it', r)
  {
  }

  // ---------- what is still to come ----------

  ghost function ChainKeys<K, V>(c: Chain<K, V>): set<K> {
    set e | e in c :: e.key
  }

  /** The keys in the buckets of `t` past index `i`. */
  ghost function Past<K, V>(t: Buckets<K, V>, i: int): set<K> {
    set j, e | 0 <= j < |t| && i < j && e in t[j] :: e.key
  }

  ghost function RestOfChain<K, V>(d: Dict<K, V>, it: Iter<K>): set<K> {
    if it.entry.Some? && it.nextEntry.Some? then ChainKeys(From(ChainOf(d, it), it.nextEntry.value)) else {}
  }

  ghost function Ahead<K, V>(d: Dict<K, V>, it: Iter<K>): set<K> {
    RestOfChain(d, it) + Past(Tbl(d, it.table), it.index) + if it.table == 0 then KeysOf(d.ht1) else {}
  }

  ghost predicate Valid<K, V>(d: Dict<K, V>, it: Iter<K>) {
    && it.table <= 1 && -1 <= it.index
    && (it.entry.Some? ==> 0 <= it.index < |Tbl(d, it.table)|)
    && (it.entry.Some? && it.nextEntry.Some? ==> it.nextEntry.value in ChainKeys(ChainOf(d, it)))
    && (it.table == 1 ==> Rehashing(d))
  }

  lemma {:induction false} FromMember<K, V>(c: Chain<K, V>, k: K)
    requires Distinct(c) && k in ChainKeys(c)
    ensures From(c, k) != [] && From(c, k)[0].key == k
    ensures Distinct(From(c, k)) && ChainKeys(From(c, k)) <= ChainKeys(c)
    ensures k !in ChainKeys(From(c, k)[1..]) && ChainKeys(From(c, k)) == ChainKeys(From(c, k)[1..]) + {k}
  {
    hide Distinct, ChainKeys;
    NoKeys(c);
    TailKeys(c);
    if c[0].key != k { FromMember(c[1..], k); }
  }

  lemma NoKeys<K, V>(c: Chain<K, V>)
    ensures ChainKeys(c) == {} <==> c == []
  {
    if c != [] { assert c[0] in c && c[0].key in ChainKeys(c); }
  }

  lemma TailKeys<K, V>(c: Chain<K, V>)
    requires Distinct(c) && c != []
    ensures Distinct(c[1..]) && c[0].key !in ChainKeys(c[1..]) && ChainKeys(c) == ChainKeys(c[1..]) + {c[0].key}
  {
    var r := c[1..];
    assert forall i | 0 <= i < |r| :: r[i] == c[i + 1];
    assert c == [c[0]] + r;
  }

  /** The suffix after an entry is the chain from the next one. */
  lemma {:induction false} FromNext<K, V>(c: Chain<K, V>, k: K)
    requires Distinct(c) && k in ChainKeys(c)
    ensures From(c, k) != []
    ensures var rest := From(c, k)[1..];
            rest != [] ==> rest[0].key in ChainKeys(c) && From(c, rest[0].key) == rest
  {
    FromMember(c, k);
    if c[0].key != k {
      assert c == [c[0]] + c[1..];
      assert k in ChainKeys(c[1..]);
      FromNext(c[1..], k);
      FromMember(c[1..], k);
      var rest := From(c, k)[1..];
      if rest != [] {
        assert rest[0] in From(c[1..], k);
        assert rest[0].key in ChainKeys(c[1..]);
        assert rest[0].key != c[0].key;
      }
    } else if |c| > 1 {
      assert c[1].key != c[0].key && c[1] in c;
      assert From(c, c[1].key) == From(c[1..], c[1].key);
    }
  }

  lemma PastStep<K, V>(t: Buckets<K, V>, i: int)
    requires 0 <= i < |t|
    ensures Past(t, i - 1) == ChainKeys(t[i]) + Past(t, i)
  {
  }

  lemma PastEnd<K, V>(t: Buckets<K, V>, i: int)
    ensures i + 1 >= |t| ==> Past(t, i) == {}
    ensures Past(t, -1) == KeysOf(t)
  {
  }

  /** An entry of a chain is in no later bucket and not in the other table. */
  lemma OnlyHere<K, V>(hash: K -> Word, d: Dict<K, V>, it: Iter<K>, k: K)
    requires Inv(hash, d) && it.table <= 1 && k in ChainKeys(ChainOf(d, it))
    ensures k !in Past(Tbl(d, it.table), it.index)
    ensures it.table == 0 ==> k !in KeysOf(d.ht1)
  {
    var t := Tbl(d, it.table);
    var e: Entry<K, V> :| e in t[it.index] && e.key == k;
    assert it.table == 0 ==> k in KeysOf(d.ht0);
  }

  ghost predicate TakesOne<K, V>(d: Dict<K, V>, it: Iter<K>, it': Iter<K>, r: Option<K>) {
    if r.None? then Ahead(d, it) == {}
    else
      && Valid(d, it') && it'.entry == r
      && r.value in Ahead(d, it) && Ahead(d, it') == Ahead(d, it) - {r.value}
  }

  lemma TakeHead<K, V>(hash: K -> Word, d: Dict<K, V>, it: Iter<K>)
    requires Inv(hash, d) && Valid(d, it) && it.entry.None?
    requires ChainOf(d, it) != []
    ensures var c := ChainOf(d, it);
            var it' := it.(entry := Head(c), nextEntry := Head(c[1..]));
            && Valid(d, it')
            && c[0].key !in Ahead(d, it')
            && Ahead(d, it') + {c[0].key} == ChainKeys(c) + Ahead(d, it)
  {
    hide Past, KeysOf;
    var c := ChainOf(d, it);
    var k := c[0].key;
    assert Distinct(c);
    assert c[0] in c;
    FromMember(c, k);
    FromNext(c, k);
    OnlyHere(hash, d, it, k);
    assert From(c, k) == c;
  }

  lemma TakeNext<K, V>(hash: K -> Word, d: Dict<K, V>, it: Iter<K>)
    requires Inv(hash, d) && Valid(d, it) && it.entry.Some? && it.nextEntry.Some?
    ensures TakesOne(d, it, Next(d, it).0, Next(d, it).1)
  {
    hide Past, KeysOf;
    var c, k := ChainOf(d, it), it.nextEntry.value;
    assert Distinct(c);
    FromMember(c, k);
    FromNext(c, k);
    OnlyHere(hash, d, it, k);
  }

  /** `dictNext` returns an entry still to come, once, and NULL only when none is left. */
  lemma {:induction false} NextTakesOne<K, V>(hash: K -> Word, d: Dict<K, V>, it: Iter<K>)
    requires Inv(hash, d) && Valid(d, it)
    ensures TakesOne(d, it, Next(d, it).0, Next(d, it).1)
    decreases if it.table == 0 then 1 else 0, |Tbl(d, it.table)| - it.index, if it.entry.Some? then 1 else 0
  {
    hide Past, KeysOf, Placed, AllDistinct, Apart;
    if it.entry.Some? {
      if it.nextEntry.Some? {
        TakeNext(hash, d, it);
      } else {
        NextTakesOne(hash, d, it.(entry := None));
      }
    } else {
      var t, i := Tbl(d, it.table), it.index + 1;
      PastEnd(t, it.index);
      if i < |t| {
        PastStep(t, i);
        LandTakesOne(hash, d, it.(index := i));
      } else if Rehashing(d) && it.table == 0 {
        PastEnd(d.ht1, 0);
        PastStep(d.ht1, 0);
        LandTakesOne(hash, d, it.(table := 1, index := 0));
      } else {
        PastEnd(d.ht1, 0);
        PastEnd(d.ht1, -1);
      }
    }
  }

  lemma {:induction false} LandTakesOne<K, V>(hash: K -> Word, d: Dict<K, V>, it: Iter<K>)
    requires Inv(hash, d) && Valid(d, it) && it.entry.None? && 0 <= it.index < |Tbl(d, it.table)|
    ensures var (it', r) := Land(d, it);
            if r.None? then ChainKeys(ChainOf(d, it)) + Ahead(d, it) == {}
            else
              && Valid(d, it') && it'.entry == r
              && r.value in ChainKeys(ChainOf(d, it)) + Ahead(d, it)
              && Ahead(d, it') == ChainKeys(ChainOf(d, it)) + Ahead(d, it) - {r.value}
    decreases if it.table == 0 then 1 else 0, |Tbl(d, it.table)| - it.index, 1
  {
    hide Past, KeysOf, Placed, AllDistinct, Apart;
    if ChainOf(d, it) == [] {
      NextTakesOne(hash, d, it);
    } else {
      TakeHead(hash, d, it);
    }
  }

  // ---------- what the other operations do to it ----------

  lemma {:induction false} FromAgrees<K, V>(c: Chain<K, V>, c': Chain<K, V>, n: K)
    requires |c| == |c'| && forall i | 0 <= i < |c| :: c[i].key == c'[i].key
    ensures ChainKeys(From(c, n)) == ChainKeys(From(c', n)) && ChainKeys(c) == ChainKeys(c')
  {
    if c != [] {
      assert c == [c[0]] + c[1..] && c' == [c'[0]] + c'[1..];
      FromAgrees(c[1..], c'[1..], n);
    }
  }

  lemma {:induction false} FromUnlink<K, V>(c: Chain<K, V>, k: K, n: K)
    requires Distinct(c) && n != k && n in ChainKeys(c)
    ensures ChainKeys(From(Unlink(c, k), n)) == ChainKeys(From(c, n)) - {k}
    ensures n in ChainKeys(Unlink(c, k))
  {
    assert c == [c[0]] + c[1..];
    UnlinkKeys(c, k);
    if c[0].key == n {
      assert Unlink(c, k)[0].key == n;
    } else {
      FromUnlink(c[1..], k, n);
      if c[0].key == k {
        FromMember(c[1..], n);
        assert k !in ChainKeys(c[1..]);
      } else {
        assert Unlink(c, k)[1..] == Unlink(c[1..], k);
      }
    }
  }

  lemma UnlinkKeys<K, V>(c: Chain<K, V>, k: K)
    requires Distinct(c)
    ensures ChainKeys(Unlink(c, k)) == ChainKeys(c) - {k}
  {
    UnlinkMembers(c, k);
  }

  /** A table one of whose chains changes, up to the keys in `drop`. */
  lemma PastUpdate<K, V>(t: Buckets<K, V>, i: nat, c: Chain<K, V>, drop: set<K>, at: int)
    requires i < |t| && ChainKeys(c) - drop == ChainKeys(t[i]) - drop
    ensures Past(t[i := c], at) - drop == Past(t, at) - drop
    ensures KeysOf(t[i := c]) - drop == KeysOf(t) - drop
  {
    var t' := t[i := c];
    PastWithin(t', t, i, drop, at);
    PastWithin(t, t', i, drop, at);
    PastEnd(t, 0);
    PastEnd(t', 0);
    PastWithin(t', t, i, drop, -1);
    PastWithin(t, t', i, drop, -1);
  }

  lemma PastWithin<K, V>(t: Buckets<K, V>, t': Buckets<K, V>, i: nat, drop: set<K>, at: int)
    requires i < |t| && |t'| == |t| && forall j | 0 <= j < |t| && j != i :: t'[j] == t[j]
    requires ChainKeys(t[i]) - drop <= ChainKeys(t'[i])
    ensures Past(t, at) - drop <= Past(t', at)
  {
    forall x | x in Past(t, at) - drop ensures x in Past(t', at) {
      var j, e :| 0 <= j < |t| && at < j && e in t[j] && e.key == x;
      if j == i {
        assert x in ChainKeys(t[i]) - drop;
        assert x in ChainKeys(t'[i]);
        var f: Entry<K, V> :| f in t'[i] && f.key == x;
      } else {
        assert e in t'[j];
      }
    }
  }

  /** Changing one chain, without moving what follows the saved entry, changes nothing ahead but `drop`. */
  lemma ChainChange<K, V>(d: Dict<K, V>, d': Dict<K, V>, it: Iter<K>, table: nat, i: nat, c: Chain<K, V>, drop: set<K>)
    requires Valid(d, it) && table <= 1 && i < |Tbl(d, table)| && d'.rehashidx == d.rehashidx
    requires Tbl(d', table) == Tbl(d, table)[i := c] && Tbl(d', 1 - table) == Tbl(d, 1 - table)
    requires ChainKeys(c) - drop == ChainKeys(Tbl(d, table)[i]) - drop
    requires it.nextEntry.Some? && it.nextEntry.value in ChainKeys(Tbl(d, table)[i]) ==>
               var n := it.nextEntry.value;
               n in ChainKeys(c) && ChainKeys(From(c, n)) - drop == ChainKeys(From(Tbl(d, table)[i], n)) - drop
    ensures Valid(d', it) && Ahead(d', it) - drop == Ahead(d, it) - drop
  {
    hide Past, KeysOf, ChainKeys, From;
    PastUpdate(Tbl(d, table), i, c, drop, it.index);
    assert RestOfChain(d', it) - drop == RestOfChain(d, it) - drop;
    var p, p' := Past(Tbl(d, it.table), it.index), Past(Tbl(d', it.table), it.index);
    assert p' - drop == p - drop;
    var q, q' := (if it.table == 0 then KeysOf(d.ht1) else {}), (if it.table == 0 then KeysOf(d'.ht1) else {});
    assert q' - drop == q - drop;
    var r, r' := RestOfChain(d, it), RestOfChain(d', it);
    assert (r + p + q) - drop == (r - drop) + (p - drop) + (q - drop);
    assert (r' + p' + q') - drop == (r' - drop) + (p' - drop) + (q' - drop);
  }

  lemma ExpandAhead<K, V>(hash: K -> Word, d: Dict<K, V>, it: Iter<K>, canResize: bool)
    requires Inv(hash, d) && Valid(d, it)
    ensures Valid(ExpandIfNeeded(d, canResize).0, it)
    ensures Ahead(ExpandIfNeeded(d, canResize).0, it) == Ahead(d, it)
  {
    var d' := ExpandIfNeeded(d, canResize).0;
    if d' != d {
      assert KeysOf(d'.ht1) == KeysOf(d.ht1);
      assert Past(d'.ht0, it.index) == Past(d.ht0, it.index);
    }
  }

  lemma InsertAhead<K, V>(hash: K -> Word, d: Dict<K, V>, it: Iter<K>, e: Entry<K, V>)
    requires Inv(hash, d) && Valid(d, it) && Find(hash, d, e.key).None?
    ensures Valid(Insert(hash, d, e), it)
    ensures Ahead(Insert(hash, d, e), it) - {e.key} == Ahead(d, it) - {e.key}
  {
    hide Past, KeysOf, Ahead, Valid, Inv;
    var table := if Rehashing(d) then 1 else 0;
    var t := Tbl(d, table);
    var i := if |t| > 0 then Index(hash(e.key), |t|) else 0;
    if i < |t| {
      FindSplit(hash, d, e.key);
      ChainFindIff(t[i], e.key);
      assert e.key !in ChainKeys(t[i]);
      var c := [e] + t[i];
      assert c[1..] == t[i];
      assert ChainKeys(c) == ChainKeys(t[i]) + {e.key};
      ChainChange(d, Insert(hash, d, e), it, table, i, c, {e.key});
    }
  }

  lemma DeleteAhead<K, V>(hash: K -> Word, d: Dict<K, V>, it: Iter<K>, k: K)
    requires Inv(hash, d) && Valid(d, it) && it.nextEntry != Some(k)
    ensures Valid(Delete(hash, d, k), it)
    ensures Ahead(Delete(hash, d, k), it) - {k} == Ahead(d, it) - {k}
  {
    hide Past, KeysOf, Ahead, Valid, Placed, Apart, Total, Shape;
    var d' := Delete(hash, d, k);
    if d' != d {
      var table := if ChainFind(Bucket(hash, d.ht0, k), k).Some? && d.used0 > 0 then 0 else 1;
      var c := Bucket(hash, Tbl(d, table), k);
      UnlinkKeys(c, k);
      if it.nextEntry.Some? && it.nextEntry.value in ChainKeys(c) {
        FromUnlink(c, k, it.nextEntry.value);
      }
      ChainChange(d, d', it, table, Index(hash(k), |Tbl(d, table)|), Unlink(c, k), {k});
    }
  }

  lemma AssignAhead<K, V>(hash: K -> Word, d: Dict<K, V>, it: Iter<K>, k: K, v: V)
    requires Inv(hash, d) && Valid(d, it)
    ensures Valid(Assign(hash, d, k, v), it)
    ensures Ahead(Assign(hash, d, k, v), it) == Ahead(d, it)
  {
    hide Past, KeysOf, Ahead, Valid, Inv;
    var d' := Assign(hash, d, k, v);
    if d' != d {
      var table := if ChainFind(Bucket(hash, d.ht0, k), k).Some? then 0 else 1;
      var c := Bucket(hash, Tbl(d, table), k);
      SetValEffect(c, k, v);
      FromAgrees(c, SetVal(c, k, v), if it.nextEntry.Some? then it.nextEntry.value else k);
      ChainChange(d, d', it, table, Index(hash(k), |Tbl(d, table)|), SetVal(c, k, v), {});
      assert Ahead(d', it) - {} == Ahead(d', it) && Ahead(d, it) - {} == Ahead(d, it);
    }
  }

  /** What `dictNext` returns is in the dictionary. */
  lemma ReturnedIsPresent<K, V>(hash: K -> Word, d: Dict<K, V>, it: Iter<K>)
    requires Inv(hash, d) && Valid(d, it) && Next(d, it).1.Some?
    ensures Find(hash, d, Next(d, it).1.value).Some?
  {
    hide Next, Ahead;
    NextTakesOne(hash, d, it);
    AheadIsPresent(hash, d, it, Next(d, it).1.value);
  }

  lemma AheadIsPresent<K, V>(hash: K -> Word, d: Dict<K, V>, it: Iter<K>, k: K)
    requires Inv(hash, d) && Valid(d, it) && k in Ahead(d, it)
    ensures Find(hash, d, k).Some?
  {
    FindSplit(hash, d, k);
    FoundIffKey(hash, d.ht0, k);
    FoundIffKey(hash, d.ht1, k);
    if k in RestOfChain(d, it) { FromMember(ChainOf(d, it), it.nextEntry.value); }
  }

  // ---------- whole iterations ----------

  datatype Event<K, V> =
    | NextCall
    | RehashCall
    | FindCall
    | AddCall(key: K, val: V, canResize: bool)
    | ReplaceCall(key: K, val: V, canResize: bool)
    | DeleteCall(key: K)

  datatype Run<K, V> = Run(d: Dict<K, V>, it: Iter<K>, out: seq<K>, done: bool)

  function Start<K, V>(d: Dict<K, V>): Run<K, V> {
    Run(d, Iter(0, -1, None, None), [], false)
  }

  /** What `dictRehash` does between two looks at its loops: an entry moves, a bucket is passed, or the tables swap. */
  function RehashMove<K, V>(hash: K -> Word, d: Dict<K, V>): Dict<K, V> {
    if !Rehashing(d) then d
    else if d.used0 == 0 then Swap(d)
    else if d.rehashidx < 0 || d.rehashidx >= |d.ht0| then d
    else if d.ht0[d.rehashidx] == [] then d.(rehashidx := d.rehashidx + 1)
    else if |d.ht1| > 0 && Index(hash(d.ht0[d.rehashidx][0].key), |d.ht1|) < |d.ht1|
    then MoveHead(hash, d, d.rehashidx)
    else d
  }

  /** The iterator takes its reference on the dictionary in its first `dictNext`. */
  predicate Started<K>(it: Iter<K>) {
    !(it.index == -1 && it.table == 0)
  }

  /**
   One call on the dictionary or its iterator.  The rehash steps that the calls make are events of their own,
   in pieces of any size; they do nothing once the iterator has started.
   */
  ghost function Apply<K, V>(hash: K -> Word, s: Run<K, V>, ev: Event<K, V>): Run<K, V> {
    match ev
    case NextCall =>
      var (it, r) := Next(s.d, s.it);
      if r.None? then s.(it := it, done := true) else s.(it := it, out := s.out + [r.value])
    case RehashCall => if Started(s.it) then s else s.(d := RehashMove(hash, s.d))
    case FindCall => s
    case AddCall(k, v, canResize) => s.(d := Add(hash, s.d, canResize, k, v).0)
    case ReplaceCall(k, v, canResize) =>
      var (d, added) := Add(hash, s.d, canResize, k, v);
      s.(d := if added then d else Assign(hash, d, k, v))
    case DeleteCall(k) => s.(d := Delete(hash, s.d, k))
  }

  /** The one restriction on the user: the saved next entry is not deleted. */
  ghost predicate Allowed<K, V>(s: Run<K, V>, ev: Event<K, V>) {
    && !s.done
    && (ev.DeleteCall? ==> s.it.nextEntry != Some(ev.key))
    && (ev.AddCall? || ev.ReplaceCall? ==> s.d.used0 * 2 <= MAX_SIZE)
  }

  ghost function AfterAll<K, V>(hash: K -> Word, s: Run<K, V>, evs: seq<Event<K, V>>): Run<K, V>
    decreases |evs|
  {
    if evs == [] then s else AfterAll(hash, Apply(hash, s, evs[0]), evs[1..])
  }

  ghost predicate Legal<K, V>(hash: K -> Word, s: Run<K, V>, evs: seq<Event<K, V>>)
    decreases |evs|
  {
    evs == [] || (Allowed(s, evs[0]) && Legal(hash, Apply(hash, s, evs[0]), evs[1..]))
  }

  /** Each key of `stay` has been returned once if it is behind the iterator and not at all if it is ahead. */
  ghost predicate OnTrack<K, V>(hash: K -> Word, s: Run<K, V>, stay: set<K>) {
    && Inv(hash, s.d)
    && (!s.done ==> Valid(s.d, s.it))
    && forall k | k in stay :: multiset(s.out)[k] == if !s.done && k in Ahead(s.d, s.it) then 0 else 1
  }

  lemma AddOnTrack<K, V>(hash: K -> Word, s: Run<K, V>, k: K, v: V, canResize: bool, stay: set<K>)
    requires OnTrack(hash, s, stay) && !s.done && s.d.used0 * 2 <= MAX_SIZE
    requires Find(hash, s.d, k).None? ==> k !in stay
    ensures OnTrack(hash, s.(d := Add(hash, s.d, canResize, k, v).0), stay)
  {
    hide Ahead, Valid, Inv, Find, Insert;
    var d := ExpandIfNeeded(s.d, canResize).0;
    ExpandIfNeededSucceeds(hash, s.d, canResize);
    ExpandAhead(hash, s.d, s.it, canResize);
    assert Find(hash, d, k) == Find(hash, s.d, k);
    if Find(hash, d, k).None? {
      InsertKeepsInv(hash, d, Entry(k, v));
      InsertAhead(hash, d, s.it, Entry(k, v));
      var d' := Insert(hash, d, Entry(k, v));
      forall j | j in stay ensures j in Ahead(d', s.it) <==> j in Ahead(s.d, s.it) {
        assert j in Ahead(d', s.it) - {k} <==> j in Ahead(d, s.it) - {k};
      }
    }
  }

  lemma DeleteOnTrack<K, V>(hash: K -> Word, s: Run<K, V>, k: K, stay: set<K>)
    requires OnTrack(hash, s, stay) && !s.done && s.it.nextEntry != Some(k) && k !in stay
    ensures OnTrack(hash, s.(d := Delete(hash, s.d, k)), stay)
  {
    hide Ahead, Valid, Inv, Delete;
    DeleteKeepsInv(hash, s.d, k);
    DeleteAhead(hash, s.d, s.it, k);
    var d' := Delete(hash, s.d, k);
    forall j | j in stay ensures j in Ahead(d', s.it) <==> j in Ahead(s.d, s.it) {
      assert j in Ahead(d', s.it) - {k} <==> j in Ahead(s.d, s.it) - {k};
    }
  }

  lemma RehashMoveInv<K, V>(hash: K -> Word, d: Dict<K, V>)
    requires Inv(hash, d)
    ensures Inv(hash, RehashMove(hash, d))
  {
    hide Find, Index, Placed, AllDistinct, Apart, Total;
    if Rehashing(d) {
      if d.used0 == 0 {
        SwapKeeps(hash, d);
      } else if d.rehashidx < |d.ht0| {
        if d.ht0[d.rehashidx] == [] {
          AdvanceKeeps(hash, d);
        } else {
          CanMove(hash, d, d.rehashidx);
          MoveHeadKeepsInv(hash, d, d.rehashidx);
        }
      }
    }
  }

  lemma RehashMoveFind<K, V>(hash: K -> Word, d: Dict<K, V>, k: K)
    requires Inv(hash, d)
    ensures Find(hash, RehashMove(hash, d), k) == Find(hash, d, k)
  {
    hide Find, Index, Placed, AllDistinct, Apart, Total;
    if Rehashing(d) {
      if d.used0 == 0 {
        SwapKeeps(hash, d);
      } else if d.rehashidx < |d.ht0| {
        if d.ht0[d.rehashidx] == [] {
          AdvanceKeeps(hash, d);
        } else {
          CanMove(hash, d, d.rehashidx);
          MoveHeadFind(hash, d, d.rehashidx, k);
        }
      }
    }
  }

  /** Before the iterator starts, every key of the dictionary is ahead. */
  lemma AllAhead<K, V>(hash: K -> Word, d: Dict<K, V>, it: Iter<K>, k: K)
    requires Inv(hash, d) && Valid(d, it) && !Started(it) && Find(hash, d, k).Some?
    ensures k in Ahead(d, it)
  {
    FindSplit(hash, d, k);
    FoundIffKey(hash, d.ht0, k);
    FoundIffKey(hash, d.ht1, k);
    PastEnd(d.ht0, 0);
  }

  lemma StillValid<K, V>(d: Dict<K, V>, d': Dict<K, V>, it: Iter<K>)
    requires Valid(d, it) && !Started(it)
    ensures Valid(d', it)
  {
  }

  lemma RehashOnTrack<K, V>(hash: K -> Word, s: Run<K, V>, stay: set<K>)
    requires OnTrack(hash, s, stay) && Kept(hash, s.d, stay) && !s.done && !Started(s.it)
    ensures OnTrack(hash, s.(d := RehashMove(hash, s.d)), stay)
  {
    hide Ahead, Valid, Inv, Find, RehashMove, Started;
    var d' := RehashMove(hash, s.d);
    StillValid(s.d, d', s.it);
    RehashMoveInv(hash, s.d);
    forall k | k in stay ensures k in Ahead(s.d, s.it) && k in Ahead(d', s.it) {
      RehashMoveFind(hash, s.d, k);
      AllAhead(hash, s.d, s.it, k);
      AllAhead(hash, d', s.it, k);
    }
  }

  ghost predicate Kept<K, V>(hash: K -> Word, d: Dict<K, V>, stay: set<K>) {
    forall k | k in stay :: Find(hash, d, k).Some?
  }

  lemma ApplyOnTrack<K, V>(hash: K -> Word, s: Run<K, V>, ev: Event<K, V>, stay: set<K>)
    requires OnTrack(hash, s, stay) && Kept(hash, s.d, stay) && Allowed(s, ev)
    requires forall k | k in stay :: ev != DeleteCall(k)
    ensures OnTrack(hash, Apply(hash, s, ev), stay)
  {
    hide Ahead, Valid, Inv, Find, Delete, Add, Assign, Next, RehashMove;
    match ev
    case NextCall => NextTakesOne(hash, s.d, s.it);
    case RehashCall => if !Started(s.it) { RehashOnTrack(hash, s, stay); }
    case FindCall =>
    case AddCall(k, v, canResize) => AddOnTrack(hash, s, k, v, canResize, stay);
    case ReplaceCall(k, v, canResize) =>
      AddOnTrack(hash, s, k, v, canResize, stay);
      var d := Add(hash, s.d, canResize, k, v).0;
      AssignKeepsInv(hash, d, k, v);
      AssignAhead(hash, d, s.it, k, v);
    case DeleteCall(k) => DeleteOnTrack(hash, s, k, stay);
  }

  lemma ApplyKeeps<K, V>(hash: K -> Word, s: Run<K, V>, ev: Event<K, V>, stay: set<K>)
    requires Inv(hash, s.d) && Kept(hash, s.d, stay) && Allowed(s, ev)
    requires forall k | k in stay :: ev != DeleteCall(k)
    ensures Kept(hash, Apply(hash, s, ev).d, stay)
  {
    hide Find, Delete, Assign, Next, Insert, Inv, RehashMove;
    match ev
    case NextCall =>
    case RehashCall =>
      forall j | j in stay ensures Find(hash, RehashMove(hash, s.d), j).Some? { RehashMoveFind(hash, s.d, j); }
    case FindCall =>
    case AddCall(k, v, canResize) => AddKeeps(hash, s.d, k, v, canResize, stay);
    case ReplaceCall(k, v, canResize) =>
      AddKeeps(hash, s.d, k, v, canResize, stay);
      var (d, added) := Add(hash, s.d, canResize, k, v);
      if !added {
        ExpandIfNeededSucceeds(hash, s.d, canResize);
        forall j | j in stay ensures Find(hash, Assign(hash, d, k, v), j).Some? { AssignFind(hash, d, k, v, j); }
      }
    case DeleteCall(k) =>
      forall j | j in stay ensures Find(hash, Delete(hash, s.d, k), j).Some? { DeleteFind(hash, s.d, k, j); }
  }

  lemma AddKeeps<K, V>(hash: K -> Word, d: Dict<K, V>, k: K, v: V, canResize: bool, stay: set<K>)
    requires Inv(hash, d) && Kept(hash, d, stay) && d.used0 * 2 <= MAX_SIZE
    ensures Kept(hash, Add(hash, d, canResize, k, v).0, stay)
  {
    hide Find, Insert, Inv;
    ExpandIfNeededSucceeds(hash, d, canResize);
    var d1 := ExpandIfNeeded(d, canResize).0;
    forall j | j in stay ensures Find(hash, Add(hash, d, canResize, k, v).0, j).Some? {
      if Find(hash, d1, k).None? { InsertFind(hash, d1, Entry(k, v), j); }
    }
  }

  lemma {:induction false} RunOnTrack<K, V>(hash: K -> Word, s: Run<K, V>, evs: seq<Event<K, V>>, stay: set<K>)
    requires OnTrack(hash, s, stay) && Kept(hash, s.d, stay) && Legal(hash, s, evs)
    requires forall k | k in stay :: DeleteCall(k) !in evs
    ensures OnTrack(hash, AfterAll(hash, s, evs), stay)
    decreases |evs|
  {
    hide OnTrack, Kept, Allowed, Apply;
    if evs != [] {
      assert Inv(hash, s.d) by { OnTrackInv(hash, s, stay); }
      ApplyOnTrack(hash, s, evs[0], stay);
      ApplyKeeps(hash, s, evs[0], stay);
      RunOnTrack(hash, Apply(hash, s, evs[0]), evs[1..], stay);
    }
  }

  lemma OnTrackInv<K, V>(hash: K -> Word, s: Run<K, V>, stay: set<K>)
    requires OnTrack(hash, s, stay)
    ensures Inv(hash, s.d)
  {
  }

  /**
   In any interleaving of calls during a safe iteration, an entry present from start to end is
   returned at most once at every point, and exactly once when the iteration has ended.
   */
  lemma SafeIterationExactlyOnce<K, V>(hash: K -> Word, d: Dict<K, V>, evs: seq<Event<K, V>>, k: K)
    requires Inv(hash, d) && Legal(hash, Start(d), evs)
    requires Find(hash, d, k).Some? && DeleteCall(k) !in evs
    ensures var s := AfterAll(hash, Start(d), evs);
            multiset(s.out)[k] <= 1 && (s.done ==> multiset(s.out)[k] == 1)
  {
    FindSplit(hash, d, k);
    FoundIffKey(hash, d.ht0, k);
    FoundIffKey(hash, d.ht1, k);
    PastEnd(d.ht0, 0);
    assert k in Ahead(d, Start(d).it);
    RunOnTrack(hash, Start(d), evs, {k});
  }
}
