/**
 The mutable dictionary of dict.c: two bucket arrays, the counters and `rehashidx`, updated in
 place.  `M` is the finite map the dictionary stands for; every operation is specified on it.
 A NULL table is an array of length zero.
 */
module DictTable {
  import opened Common
  import opened Words
  import opened DictModel
  import opened DictScan

  class HashTable<K(==, !new), V> {
    const hash: K -> Word
    var table0: array<Chain<K, V>>
    var used0: nat
    var table1: array<Chain<K, V>>
    var used1: nat
    var rehashidx: int
    var iterators: nat
    ghost var M: map<K, V>

    ghost function View(): Dict<K, V>
      reads this, table0, table1
    {
      Dict(table0[..], used0, table1[..], used1, rehashidx, iterators)
    }

    ghost predicate Valid()
      reads this, table0, table1
    {
      table0 != table1 && Good(hash, View(), M)
    }

    /** The arrays after a call are the ones before it or new ones. */
    twostate predicate Owned()
      reads this
    {
      fresh({table0, table1} - {old(table0), old(table1)})
    }

    constructor (hash: K -> Word)
      ensures Valid() && M == map[] && iterators == 0 && this.hash == hash
      ensures fresh(table0) && fresh(table1)
    {
      this.hash := hash;
      table0, used0 := new Chain<K, V>[0], 0;
      table1, used1 := new Chain<K, V>[0], 0;
      rehashidx, iterators := -1, 0;
      M := map[];
      new;
      assert View().ht0 == [] && View().ht1 == [];
      forall k ensures Find(hash, View(), k) == None {
        assert Bucket(hash, View().ht0, k) + Bucket(hash, View().ht1, k) == [];
      }
    }

    // ---------- growing ----------

    /** `_dictNextPower`. */
    static method NextPowerOf(size: nat) returns (p: nat)
      requires size <= MAX_SIZE
      ensures p == NextPower(size)
    {
      p := INITIAL_SIZE;
      while p < size
        invariant p > 0 && NextPower(size, p) == NextPower(size)
        decreases size - p
      {
        p := p * 2;
      }
    }

    /** `dictExpand`. */
    method ExpandTo(size: nat) returns (ok: bool)
      requires Valid() && size <= MAX_SIZE
      modifies this
      ensures Valid() && M == old(M) && Owned()
      ensures View() == Expand(old(View()), size).0 && ok == Expand(old(View()), size).1
      ensures old(table0.Length) > 0 ==> table0 == old(table0)
    {
      hide Good, TableSize;
      ExpandRefines(hash, View(), M, size);
      GoodShape(hash, View(), M);
      var realsize := NextPowerOf(size);
      if rehashidx != -1 || used0 > size || realsize == table0.Length {
        return false;
      }
      ghost var d := View();
      var n := new Chain<K, V>[realsize](_ => []);
      assert n[..] == EmptyTable(realsize);
      if table0.Length == 0 {
        table0, used0 := n, 0;
      } else {
        table1, used1, rehashidx := n, 0, 0;
      }
      assert View() == Expand(d, size).0;
      return true;
    }

    /** `_dictExpandIfNeeded`. */
    method GrowIfNeeded(canResize: bool) returns (ok: bool)
      requires Valid() && used0 * 2 <= MAX_SIZE
      modifies this
      ensures Valid() && M == old(M) && Owned()
      ensures View() == ExpandIfNeeded(old(View()), canResize).0
      ensures ok && table0.Length > 0 && iterators == old(iterators)
      ensures rehashidx == -1 ==> used0 < Limit(table0.Length, canResize)
      ensures old(table0.Length) > 0 ==> table0 == old(table0) && (old(rehashidx) != -1 ==> rehashidx == old(rehashidx))
    {
      assert Inv(hash, View());
      ExpandIfNeededSucceeds(hash, View(), canResize);
      LoadBounded(hash, View(), canResize);
      hide Good, Inv, Expand, Limit;
      if rehashidx != -1 {
        return true;
      }
      if table0.Length == 0 {
        ok := ExpandTo(INITIAL_SIZE);
        return;
      }
      if used0 >= table0.Length && (canResize || used0 / table0.Length > FORCE_RESIZE_RATIO) {
        ok := ExpandTo(used0 * 2);
        return;
      }
      return true;
    }

    // ---------- incremental rehashing ----------

    /** The body of the outer loop of `dictRehash`: every entry of one bucket moves to the second table. */
    method MoveBucket()
      requires Valid() && 0 <= rehashidx < table0.Length && table0[rehashidx] != []
      modifies this`used0, this`used1, this`rehashidx, table0, table1
      ensures Valid() && rehashidx == old(rehashidx) + 1 && table0[..] == old(table0[..])[old(rehashidx) := []]
    {
      hide Good, Index;
      var idx := rehashidx;
      var de := table0[idx];
      ghost var mid := View();
      assert mid.ht0[idx := de] == mid.ht0;
      while de != []
        invariant mid == View().(ht0 := table0[..][idx := de])
        invariant rehashidx == idx && table0[..] == old(table0[..])
        invariant Good(hash, mid, M)
      {
        MoveRefines(hash, mid, M, idx);
        var h := Index(hash(de[0].key), table1.Length);
        table1[h] := [de[0]] + table1[h];
        used0 := used0 - 1;
        used1 := used1 + 1;
        de := de[1..];
        mid := MoveHead(hash, mid, idx);
        assert mid.ht0 == table0[..][idx := de];
      }
      table0[idx] := [];
      assert table0[..] == mid.ht0;
      AdvanceRefines(hash, mid, M);
      rehashidx := rehashidx + 1;
    }

    /** The inner loop of `dictRehash`: skips empty buckets, giving up when no visits are left. */
    method SkipEmpty(visits: nat) returns (left: nat)
      requires Valid() && rehashidx != -1 && used0 != 0 && visits > 0
      modifies this`rehashidx
      ensures Valid() && rehashidx + left == old(rehashidx) + visits && left <= visits
      ensures left > 0 ==> rehashidx < table0.Length && table0[rehashidx] != []
    {
      hide Good;
      left := visits;
      GoodShape(hash, View(), M);
      ghost var end := FindNonEmpty(hash, View(), M);
      while table0[rehashidx] == []
        invariant old(rehashidx) <= rehashidx <= end && rehashidx + left == old(rehashidx) + visits
        invariant Valid() && left > 0
        decreases end - rehashidx
      {
        AdvanceRefines(hash, View(), M);
        rehashidx := rehashidx + 1;
        left := left - 1;
        if left == 0 {
          return;
        }
      }
    }

    /**
     `dictRehash(d, n)`; the result is true while entries are left to move.  A call that does not finish passes at least
     `n` buckets, and no call passes more than the `n` it moves and the `10 * n` empty ones it may visit.
     */
    method Rehash(n: nat) returns (more: bool)
      requires Valid()
      modifies this, table0, table1
      ensures Valid() && M == old(M) && iterators == old(iterators) && Owned()
      ensures more == (rehashidx != -1) && (old(table0.Length) > 0 ==> table0.Length > 0)
      ensures old(rehashidx) == -1 ==> View() == old(View())
      ensures old(rehashidx) != -1 && more ==>
                && old(rehashidx) + n <= rehashidx <= old(rehashidx) + 11 * n && rehashidx <= table0.Length
                && table0 == old(table0) && table1 == old(table1)
      ensures old(rehashidx) != -1 && !more ==> table0 == old(table1)
      ensures forall i | 0 <= old(rehashidx) + 11 * n <= i < old(table0.Length) && old(rehashidx) != -1 ::
                old(table0[i]) != [] ==> more
    {
      hide Good;
      GoodShape(hash, View(), M);
      if rehashidx == -1 {
        return false;
      }
      MoveBuckets(n);
      if used0 == 0 {
        NothingLeft(hash, View(), M);
        assert forall i | rehashidx <= i < table0.Length :: View().ht0[i] == table0[i];
        Finish();
        return false;
      }
      GoodShape(hash, View(), M);
      return true;
    }

    /** The outer loop of `dictRehash`. */
    method MoveBuckets(n: nat)
      requires Valid() && rehashidx != -1
      modifies this`used0, this`used1, this`rehashidx, table0, table1
      ensures Valid() && old(rehashidx) <= rehashidx <= old(rehashidx) + 11 * n
      ensures used0 != 0 ==> rehashidx >= old(rehashidx) + n
      ensures forall i | rehashidx <= i < table0.Length :: table0[i] == old(table0[i])
    {
      hide Good;
      GoodShape(hash, View(), M);
      var left: nat, emptyVisits: nat := n, 10 * n;
      while left > 0 && used0 != 0
        invariant Valid() && 0 <= old(rehashidx) <= rehashidx
        invariant left <= n && emptyVisits <= 10 * n && (n > 0 ==> emptyVisits > 0)
        invariant rehashidx == old(rehashidx) + (10 * n - emptyVisits) + (n - left)
        invariant forall i | rehashidx <= i < table0.Length :: table0[i] == old(table0[i])
        decreases left
      {
        emptyVisits := SkipEmpty(emptyVisits);
        if emptyVisits == 0 {
          return;
        }
        ghost var t, idx := table0[..], rehashidx;
        MoveBucket();
        assert forall i | idx < i < table0.Length :: table0[..][i] == t[i];
        left := left - 1;
      }
    }

    /** The end of `dictRehash`: the second table takes the place of the first. */
    method Finish()
      requires Valid() && rehashidx != -1 && used0 == 0
      modifies this
      ensures Valid() && M == old(M) && iterators == old(iterators) && Owned()
      ensures rehashidx == -1 && table0 == old(table1) && table0.Length > 0
    {
      hide Good;
      ghost var d := View();
      GoodShape(hash, d, M);
      SwapRefines(hash, d, M);
      table0, used0 := table1, used1;
      table1, used1 := new Chain<K, V>[0], 0;
      rehashidx := -1;
      assert View() == Swap(d);
    }

    /**
     `dictRehashMilliseconds`: batches of 100 until done or until the clock, here the number of
     unfinished batches it allows, runs out.
     */
    method RehashFor(budget: nat) returns (rehashes: nat)
      requires Valid()
      modifies this, table0, table1
      ensures Valid() && M == old(M) && iterators == old(iterators) && Owned()
      ensures 100 * budget >= old(table0.Length) ==> rehashidx == -1
      ensures rehashes <= 100 * (budget + 1) && rehashes <= old(table0.Length) && rehashes % 100 == 0
      ensures rehashidx != -1 ==> rehashes == 100 * (budget + 1)
    {
      hide Good;
      rehashes := 0;
      ghost var size := table0.Length;
      GoodShape(hash, View(), M);
      var more := Rehash(100);
      var batches := 0;
      while more
        invariant Valid() && M == old(M) && iterators == old(iterators) && Owned()
        invariant more == (rehashidx != -1) && rehashes == 100 * batches && rehashes <= size && batches <= budget
        invariant more ==> table0.Length == size && 100 * (batches + 1) <= rehashidx <= size
        decreases if more then size - rehashidx + 1 else 0
      {
        rehashes := rehashes + 100;
        batches := batches + 1;
        if batches > budget {
          break;
        }
        more := Rehash(100);
        GoodShape(hash, View(), M);
      }
    }

    /** A rehash in progress has gone on, or is over. */
    twostate predicate Stepped()
      reads this
    {
      old(rehashidx) != -1 && old(iterators) == 0 ==> table0 != old(table0) || rehashidx > old(rehashidx)
    }

    /** `_dictRehashStep`: rehashing pauses while safe iterators are live. */
    method RehashStep()
      requires Valid()
      modifies this, table0, table1
      ensures Valid() && M == old(M) && iterators == old(iterators) && Owned() && Stepped()
      ensures iterators > 0 || old(rehashidx) == -1 ==> View() == old(View())
      ensures old(table0.Length) > 0 ==> table0.Length > 0
    {
      if iterators == 0 {
        var _ := Rehash(1);
      }
    }

    // ---------- lookups and updates ----------

    method SearchChain(c: Chain<K, V>, key: K) returns (r: Option<V>)
      ensures r == ChainFind(c, key)
    {
      var he := c;
      while he != []
        invariant ChainFind(he, key) == ChainFind(c, key)
      {
        if he[0].key == key {
          return Some(he[0].val);
        }
        he := he[1..];
      }
      return None;
    }

    /** The search shared by `dictFind` and `_dictKeyIndex`: the first table, then, while rehashing, the second. */
    method Search(key: K) returns (r: Option<V>)
      requires Valid() && table0.Length > 0
      ensures r == Find(hash, View(), key)
      ensures r == if key in M then Some(M[key]) else None
    {
      GoodFind(hash, View(), M, key);
      GoodShape(hash, View(), M);
      FindSplit(hash, View(), key);
      IndexInRange(hash(key), table0.Length);
      hide Good, Find, Total;
      r := SearchChain(table0[Index(hash(key), table0.Length)], key);
      if r.Some? || rehashidx == -1 {
        return;
      }
      IndexInRange(hash(key), table1.Length);
      r := SearchChain(table1[Index(hash(key), table1.Length)], key);
    }

    /** `dictFind`. */
    method Lookup(key: K) returns (r: Option<V>)
      requires Valid()
      modifies this, table0, table1
      ensures Valid() && M == old(M) && iterators == old(iterators) && Owned() && (M != map[] ==> Stepped())
      ensures r == if key in M then Some(M[key]) else None
      ensures iterators > 0 ==> View() == old(View())
    {
      hide Good;
      EmptyMap(hash, View(), M);
      if used0 + used1 == 0 {
        return None;
      }
      if rehashidx != -1 {
        RehashStep();
      }
      GoodShape(hash, View(), M);
      EmptyMap(hash, View(), M);
      r := Search(key);
    }

    /** The second half of `dictAddRaw`: links a new entry at the head of its chain. */
    method LinkNew(key: K, val: V)
      requires Valid() && table0.Length > 0 && key !in M
      modifies this`used0, this`used1, this`M, table0, table1
      ensures Valid() && M == old(M)[key := val] && rehashidx == old(rehashidx) && table0 == old(table0)
      ensures View() == Insert(hash, old(View()), Entry(key, val))
    {
      hide Good, Index;
      ghost var d := View();
      GoodIndex(hash, d, M, key);
      AddRefines(hash, d, M, key, val);
      if rehashidx != -1 {
        var i := Index(hash(key), table1.Length);
        table1[i] := [Entry(key, val)] + table1[i];
        used1 := used1 + 1;
        assert View().ht1 == Push(d.ht1, i, Entry(key, val));
      } else {
        var i := Index(hash(key), table0.Length);
        table0[i] := [Entry(key, val)] + table0[i];
        used0 := used0 + 1;
        assert View().ht0 == Push(d.ht0, i, Entry(key, val));
      }
      M := M[key := val];
    }

    /** `_dictKeyIndex` finds the key, or it is linked. */
    method AddAbsent(key: K, val: V) returns (ok: bool)
      requires Valid() && table0.Length > 0
      modifies this`used0, this`used1, this`M, table0, table1
      ensures Valid() && ok == (key !in old(M)) && ok == Find(hash, old(View()), key).None?
      ensures M == (if ok then old(M)[key := val] else old(M))
      ensures View() == if ok then Insert(hash, old(View()), Entry(key, val)) else old(View())
    {
      hide Good, Insert, Find;
      var r := Search(key);
      if r.Some? {
        return false;
      }
      LinkNew(key, val);
      return true;
    }

    /** `dictAdd`. */
    method Insertion(key: K, val: V, canResize: bool) returns (ok: bool)
      requires Valid() && |M| * 2 <= MAX_SIZE
      modifies this, table0, table1
      ensures Valid() && iterators == old(iterators) && Owned() && Stepped()
      ensures ok == (key !in old(M))
      ensures M == if ok then old(M)[key := val] else old(M)
      ensures rehashidx == -1 ==> |M| <= Limit(table0.Length, canResize)
      ensures iterators > 0 ==> View() == Add(hash, old(View()), canResize, key, val).0
    {
      hide Good, Insert, ExpandIfNeeded, Limit;
      if rehashidx != -1 {
        RehashStep();
      }
      EmptyMap(hash, View(), M);
      var _ := GrowIfNeeded(canResize);
      EmptyMap(hash, View(), M);
      GoodShape(hash, View(), M);
      ok := AddAbsent(key, val);
    }

    /** `dictReplace`; true when the key was added from scratch. */
    method Replace(key: K, val: V, canResize: bool) returns (added: bool)
      requires Valid() && |M| * 2 <= MAX_SIZE
      modifies this, table0, table1
      ensures Valid() && iterators == old(iterators) && Owned()
      ensures added == (key !in old(M)) && M == old(M)[key := val]
      ensures added ==> Stepped()
      ensures iterators > 0 ==>
                var d := Add(hash, old(View()), canResize, key, val);
                View() == if added then d.0 else Assign(hash, d.0, key, val)
    {
      hide Good, Add, Assign;
      added := Insertion(key, val, canResize);
      if added {
        return;
      }
      var entry := Lookup(key);
      SetExisting(key, val);
    }

    /** `dictSetVal` on the entry that holds the key. */
    method SetExisting(key: K, val: V)
      requires Valid() && key in M
      modifies this`M, table0, table1
      ensures Valid() && M == old(M)[key := val] && View() == Assign(hash, old(View()), key, val)
    {
      hide Good, Index, Assign, SetVal, ChainFind;
      AssignCases(hash, View(), M, key, val);
      AssignRefines(hash, View(), M, key, val);
      if table0.Length > 0 {
        var i := Index(hash(key), table0.Length);
        var r := SearchChain(table0[i], key);
        if r.Some? {
          var c := SetChainVal(table0[i], key, val);
          StoreFirst(i, c);
          M := M[key := val];
          return;
        }
      }
      var i := Index(hash(key), table1.Length);
      var c := SetChainVal(table1[i], key, val);
      StoreSecond(i, c);
      M := M[key := val];
    }

    /** Walks a chain to its entry for `key` and overwrites the value. */
    static method SetChainVal(c: Chain<K, V>, key: K, val: V) returns (r: Chain<K, V>)
      ensures r == SetVal(c, key, val)
    {
      var i := 0;
      while i < |c| && c[i].key != key
        invariant i <= |c|
        invariant SetVal(c, key, val) == c[..i] + SetVal(c[i..], key, val)
      {
        assert c[i..][1..] == c[i + 1..];
        i := i + 1;
      }
      if i == |c| {
        assert c[i..] == [] && c[..i] == c;
        return c;
      }
      assert c[i..][1..] == c[i + 1..];
      r := c[..i] + [Entry(key, val)] + c[i + 1..];
    }

    /** Walks a chain with its predecessor and unlinks the entry for `key`. */
    static method UnlinkEntry(c: Chain<K, V>, key: K) returns (r: Chain<K, V>, found: bool)
      ensures r == Unlink(c, key) && found == ChainFind(c, key).Some?
    {
      var i := 0;
      while i < |c| && c[i].key != key
        invariant i <= |c|
        invariant Unlink(c, key) == c[..i] + Unlink(c[i..], key)
        invariant ChainFind(c, key) == ChainFind(c[i..], key)
      {
        assert c[i..][1..] == c[i + 1..];
        i := i + 1;
      }
      if i == |c| {
        assert c[i..] == [] && c[..i] == c;
        return c, false;
      }
      assert c[i..][1..] == c[i + 1..];
      return c[..i] + c[i + 1..], true;
    }

    /** `dictGenericDelete`. */
    method Remove(key: K) returns (ok: bool)
      requires Valid()
      modifies this, table0, table1
      ensures Valid() && iterators == old(iterators) && Owned()
      ensures ok == (key in old(M)) && M == old(M) - {key} && Stepped()
      ensures iterators > 0 ==> View() == Delete(hash, old(View()), key)
    {
      hide Good, Delete;
      EmptyMap(hash, View(), M);
      GoodShape(hash, View(), M);
      if table0.Length == 0 {
        EmptyDelete(hash, View(), key);
        return false;
      }
      if rehashidx != -1 {
        RehashStep();
      }
      ok := UnlinkKey(key);
    }

    /** The search loop of `dictGenericDelete` over the two tables. */
    method UnlinkKey(key: K) returns (ok: bool)
      requires Valid() && table0.Length > 0
      modifies this`used0, this`used1, this`M, table0, table1
      ensures Valid() && ok == (key in old(M)) && M == old(M) - {key}
      ensures View() == Delete(hash, old(View()), key)
    {
      hide Good, Index, Delete, Unlink, ChainFind;
      ghost var d := View();
      GoodIndex(hash, d, M, key);
      DeleteFirst(hash, d, M, key);
      ok := UnlinkFirst(key, Index(hash(key), table0.Length));
      if !ok {
        if rehashidx != -1 {
          DeleteSecond(hash, d, M, key);
          ok := UnlinkSecond(key, Index(hash(key), table1.Length));
        } else {
          DeleteNone(hash, d, M, key);
        }
      }
      assert View() == Delete(hash, d, key);
      DeleteRefines(hash, d, M, key);
      M := M - {key};
    }

    /** Unlinks the key from bucket `i` of the first table, if it is there. */
    method UnlinkFirst(key: K, i: nat) returns (found: bool)
      requires i < table0.Length && table0 != table1 && (ChainFind(table0[i], key).Some? ==> used0 > 0)
      modifies this`used0, table0
      ensures found == ChainFind(old(View()).ht0[i], key).Some?
      ensures View() == if !found then old(View())
                        else var d := old(View()); d.(ht0 := d.ht0[i := Unlink(d.ht0[i], key)], used0 := d.used0 - 1)
    {
      hide Unlink, ChainFind;
      var c;
      c, found := UnlinkEntry(table0[i], key);
      if found {
        StoreFirst(i, c);
        used0 := used0 - 1;
      }
    }

    method UnlinkSecond(key: K, i: nat) returns (found: bool)
      requires i < table1.Length && table0 != table1 && (ChainFind(table1[i], key).Some? ==> used1 > 0)
      modifies this`used1, table1
      ensures found == ChainFind(old(View()).ht1[i], key).Some?
      ensures View() == if !found then old(View())
                        else var d := old(View()); d.(ht1 := d.ht1[i := Unlink(d.ht1[i], key)], used1 := d.used1 - 1)
    {
      hide Unlink, ChainFind;
      var c;
      c, found := UnlinkEntry(table1[i], key);
      if found {
        StoreSecond(i, c);
        used1 := used1 - 1;
      }
    }

    /** Makes a chain the bucket `i` of the first table. */
    method StoreFirst(i: nat, c: Chain<K, V>)
      requires i < table0.Length && table0 != table1
      modifies table0
      ensures View() == old(View()).(ht0 := old(View()).ht0[i := c])
    {
      ghost var d := View();
      table0[i] := c;
      assert View().ht0 == d.ht0[i := c];
    }

    method StoreSecond(i: nat, c: Chain<K, V>)
      requires i < table1.Length && table0 != table1
      modifies table1
      ensures View() == old(View()).(ht1 := old(View()).ht1[i := c])
    {
      ghost var d := View();
      table1[i] := c;
      assert View().ht1 == d.ht1[i := c];
    }

    // ---------- scanning ----------

    /** Passes every entry of a chain to the callback, here a list of the entries passed so far. */
    static method EmitChain(out: Chain<K, V>, c: Chain<K, V>) returns (r: Chain<K, V>)
      ensures r == out + c
    {
      r := out;
      var i := 0;
      while i < |c|
        invariant i <= |c| && r == out + c[..i]
      {
        r := r + [c[i]];
        i := i + 1;
      }
    }

    /** The do-while loop of `dictScan` over the expansions of the cursor in the larger table. */
    static method EmitExpansions(t: array<Chain<K, V>>, out: Chain<K, V>, v0: Word, m0: Word, m1: Word,
                                 ghost a: nat, ghost b: nat)
      returns (r: Chain<K, V>, v: Word)
      requires a < b <= |v0| && t.Length == Pow2(b)
      requires m0 == SizeMask(v0, Pow2(a)) && m1 == SizeMask(v0, Pow2(b))
      ensures r == out + ChainsAt(t[..], Expansion(v0, a, b)) && v[..a] == v0[..a]
    {
      hide Pow2, Val, Index, ExpandStep, SizeMask, Expansion, ChainsAt, ChainAt;
      r, v := out, v0;
      var more := true;
      while more
        invariant v[..a] == v0[..a]
        invariant out + ChainsAt(t[..], Expansion(v0, a, b)) ==
                  r + if more then ChainsAt(t[..], Expansion(v, a, b)) else []
        decreases more, Pow2(b - a) - Val(v[a..b])
      {
        ghost var emitted := r;
        SameMask(v, v0, a);
        LoopStep(t[..], v, a, b);
        var i := Index(v, t.Length);
        r := EmitChain(r, t[i]);
        v := ExpandStep(v, m0);
        SameMask(v, v0, a);
        SameMask(v, v0, b);
        more := And(v, Xor(m0, m1)) != Zeros(|v|);
        Regroup(emitted, t[i], if more then ChainsAt(t[..], Expansion(v, a, b)) else []);
      }
    }

    /** `dictScan`. */
    method Scan(v0: Word) returns (v: Word, out: Chain<K, V>)
      requires Valid()
      ensures Shape(View()) && v == Next(View(), v0) && out == Emitted(View(), v0)
    {
      hide Good, Pow2, Index, Expansion, NextCursor, ChainAt, ChainsAt, SizeMask;
      GoodShape(hash, View(), M);
      EmptyMap(hash, View(), M);
      if used0 + used1 == 0 {
        return Zeros(|v0|), [];
      }
      var m0;
      ghost var a := LowBits(View());
      if rehashidx == -1 {
        v := v0;
        m0 := SizeMask(v, table0.Length);
        InBounds(View().ht0, v, a);
        out := EmitChain([], table0[Index(v, table0.Length)]);
      } else {
        v, out, m0 := ScanBoth(v0);
      }
      SameMask(v, v0, a);
      NextCursorLow(v, v0, a);
      v := Advance(v, m0);
    }

    /** The part of `dictScan` for two tables. */
    method ScanBoth(v0: Word) returns (v: Word, out: Chain<K, V>, m0: Word)
      requires Shape(View()) && rehashidx != -1 && used0 + used1 > 0 && table0 != table1
      ensures out == Emitted(View(), v0) && v[..LowBits(View())] == v0[..LowBits(View())]
      ensures m0 == SizeMask(v0, |Smaller(View())|)
    {
      hide Pow2, Index, Expansion, ChainAt, ChainsAt, SizeMask, LowBits, HighBits;
      ghost var a, b := LowBits(View()), HighBits(View());
      var t0, t1 := table0, table1;
      if t0.Length > t1.Length {
        t0, t1 := table1, table0;
      }
      m0 := SizeMask(v0, t0.Length);
      var m1 := SizeMask(v0, t1.Length);
      InBounds(t0[..], v0, a);
      out := EmitChain([], t0[Index(v0, t0.Length)]);
      out, v := EmitExpansions(t1, out, v0, m0, m1, a, b);
    }
  }

  lemma InBounds<K, V>(t: Buckets<K, V>, v: Word, a: nat)
    requires a <= |v| && |t| == Pow2(a)
    ensures |t| > 0 && Index(v, |t|) < |t| && ChainAt(t, v) == t[Index(v, |t|)]
  {
    hide Index, Pow2;
    SameChain(v, v, a);
  }

  /** `v |= ~m0; v = rev(v); v++; v = rev(v);` with the loop of `rev`. */
  method Advance(v0: Word, m0: Word) returns (v: Word)
    ensures v == NextCursor(v0, m0)
  {
    v := Or(v0, Not(m0));
    v := Reverse(v);
    v := Inc(v);
    v := Reverse(v);
  }
}
