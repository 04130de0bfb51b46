/** A database of db.c: the main dictionary, the dictionary of expiry times and the index from slots to keys. */
module Keyspace {
  import opened Common
  import opened SlotIndex

  type Object = nat

  /** What time and role a command sees. */
  datatype Env = Env(now: int, loading: bool, slave: bool)

  datatype Reply = NoKey | Zero | Done

  /** The key has an expiry time and that time has passed. */
  predicate Expired(expires: map<Key, int>, key: Key, env: Env) {
    key in expires && expires[key] >= 0 && !env.loading && env.now > expires[key]
  }

  /** A lookup for writing removes the key: it has expired, and it is not for the master of this server to say so. */
  predicate Dropped(expires: map<Key, int>, key: Key, env: Env) {
    Expired(expires, key, env) && !env.slave
  }

  /** The keys of one slot. */
  function SlotKeys(dict: map<Key, Object>, slotOf: Key -> nat, slot: nat): set<Key> {
    set k | k in dict.Keys && slotOf(k) == slot
  }

  /** The index holds exactly the keys of the dictionary, each under its own slot, in order. */
  ghost predicate Indexed(dict: map<Key, Object>, slotOf: Key -> nat, index: seq<Entry>) {
    && Sorted(index)
    && (forall e | e in index :: e.key in dict && e.slot == slotOf(e.key))
    && (forall k | k in dict :: Entry(slotOf(k), k) in index)
  }

  lemma IndexAdd(dict: map<Key, Object>, slotOf: Key -> nat, index: seq<Entry>, key: Key, val: Object)
    requires Indexed(dict, slotOf, index) && key !in dict
    ensures Indexed(dict[key := val], slotOf, Insert(index, Entry(slotOf(key), key)))
  {
    hide Sorted, Insert;
    InsertSorted(index, Entry(slotOf(key), key));
  }

  lemma IndexDelete(dict: map<Key, Object>, slotOf: Key -> nat, index: seq<Entry>, key: Key)
    requires Indexed(dict, slotOf, index)
    ensures Indexed(dict - {key}, slotOf, Delete(index, Entry(slotOf(key), key)))
  {
    hide Sorted, Delete;
    DeleteSorted(index, Entry(slotOf(key), key));
  }

  lemma IndexSorted(dict: map<Key, Object>, slotOf: Key -> nat, index: seq<Entry>)
    requires Indexed(dict, slotOf, index)
    ensures Sorted(index)
  {
  }

  /** There is only one index for a dictionary. */
  lemma IndexUnique(dict: map<Key, Object>, slotOf: Key -> nat, s: seq<Entry>, t: seq<Entry>)
    requires Indexed(dict, slotOf, s) && Indexed(dict, slotOf, t)
    ensures s == t
  {
    hide Sorted;
    forall x
      ensures x in s <==> x in t
    {
      assert x in s ==> x == Entry(slotOf(x.key), x.key);
      assert x in t ==> x == Entry(slotOf(x.key), x.key);
    }
    SortedUnique(s, t);
  }

  /** The stretch of a slot lists its keys, each once. */
  lemma StretchKeys(dict: map<Key, Object>, slotOf: Key -> nat, index: seq<Entry>, slot: nat)
    requires Indexed(dict, slotOf, index)
    ensures First(index, slot) <= First(index, slot + 1)
    ensures var part := index[First(index, slot)..First(index, slot + 1)];
            && |part| == |SlotKeys(dict, slotOf, slot)|
            && (forall e | e in part :: e.slot == slot && e.key in SlotKeys(dict, slotOf, slot))
            && (forall k | k in SlotKeys(dict, slotOf, slot) :: Entry(slot, k) in part)
  {
    hide Sorted, First, SlotKeys;
    Stretch(index, slot);
    var f, l := First(index, slot), First(index, slot + 1);
    var part := index[f..l];
    SortedSlice(index, f, l);
    StretchMembers(dict, slotOf, index, slot, f, l);
    EntriesCount(part);
    SameCount(part, SlotKeys(dict, slotOf, slot), slot);
  }

  lemma StretchMembers(dict: map<Key, Object>, slotOf: Key -> nat, index: seq<Entry>, slot: nat, f: nat, l: nat)
    requires Indexed(dict, slotOf, index) && f <= l <= |index|
    requires forall i | 0 <= i < |index| :: index[i].slot == slot <==> f <= i < l
    ensures forall e | e in index[f..l] :: e.slot == slot && e.key in SlotKeys(dict, slotOf, slot)
    ensures forall k | k in SlotKeys(dict, slotOf, slot) :: Entry(slot, k) in index[f..l]
  {
    hide Sorted;
    var part := index[f..l];
    forall e | e in part
      ensures e.slot == slot && e.key in SlotKeys(dict, slotOf, slot)
    {
      var i :| 0 <= i < |part| && part[i] == e;
      assert index[f + i] == e && e in index;
    }
    forall k | k in SlotKeys(dict, slotOf, slot)
      ensures Entry(slot, k) in part
    {
      assert Entry(slot, k) in index;
      var i :| 0 <= i < |index| && index[i] == Entry(slot, k);
      assert part[i - f] == index[i];
    }
  }

  lemma SortedSlice(s: seq<Entry>, f: nat, l: nat)
    requires Sorted(s) && f <= l <= |s|
    ensures Sorted(s[f..l])
  {
    hide Before;
    var part := s[f..l];
    forall i, j | 0 <= i < j < |part|
      ensures Before(part[i], part[j])
    {
      assert part[i] == s[f + i] && part[j] == s[f + j];
    }
  }

  lemma SameCount(part: seq<Entry>, keys: set<Key>, slot: nat)
    requires forall e | e in part :: e.slot == slot && e.key in keys
    requires forall k | k in keys :: Entry(slot, k) in part
    ensures |Entries(part)| == |keys|
  {
    KeySetCount(keys, slot);
    assert Entries(part) == set k | k in keys :: Entry(slot, k);
  }

  lemma {:induction false} KeySetCount(keys: set<Key>, slot: nat)
    ensures |set k | k in keys :: Entry(slot, k)| == |keys|
  {
    if keys != {} {
      var x :| x in keys;
      KeySetCount(keys - {x}, slot);
      assert (set k | k in keys :: Entry(slot, k)) ==
             (set k | k in keys - {x} :: Entry(slot, k)) + {Entry(slot, x)};
    } else {
      assert (set k | k in keys :: Entry(slot, k)) == {};
    }
  }

  class Db {
    var dict: map<Key, Object>
    var expires: map<Key, int>
    var index: seq<Entry>
    const cluster: bool
    const slotOf: Key -> nat

    /** Every expiry time belongs to a key, and in cluster mode the index agrees with the dictionary. */
    ghost predicate Valid()
      reads this
    {
      expires.Keys <= dict.Keys && (cluster ==> Indexed(dict, slotOf, index))
    }

    constructor (cluster: bool, slotOf: Key -> nat)
      ensures Valid() && dict == map[] && expires == map[] && this.cluster == cluster && this.slotOf == slotOf
    {
      this.cluster, this.slotOf := cluster, slotOf;
      dict, expires, index := map[], map[], [];
    }

    /** The caller has checked that the key is not there; the source aborts otherwise. */
    method Add(key: Key, val: Object)
      requires Valid() && key !in dict
      modifies this
      ensures Valid() && dict == old(dict)[key := val] && expires == old(expires)
    {
      hide Indexed;
      if cluster { IndexAdd(dict, slotOf, index, key, val); }
      dict := dict[key := val];
      if cluster { index := Insert(index, Entry(slotOf(key), key)); }
    }

    method Overwrite(key: Key, val: Object)
      requires Valid() && key in dict
      modifies this
      ensures Valid() && dict == old(dict)[key := val] && expires == old(expires)
    {
      dict := dict[key := val];
    }

    method Remove(key: Key) returns (removed: bool)
      requires Valid()
      modifies this
      ensures Valid() && removed == (key in old(dict))
      ensures dict == old(dict) - {key} && expires == old(expires) - {key}
      ensures cluster ==> index == if removed then Delete(old(index), Entry(slotOf(key), key)) else old(index)
    {
      hide Indexed, Delete;
      if cluster { IndexDelete(dict, slotOf, index, key); }
      if |expires| > 0 { expires := expires - {key}; }
      if key in dict {
        dict := dict - {key};
        if cluster { index := Delete(index, Entry(slotOf(key), key)); }
        removed := true;
      } else {
        removed := false;
      }
    }

    /** The time, or -1 without one.  The safety check that the key is in the dictionary always succeeds. */
    method GetExpire(key: Key) returns (when: int)
      requires Valid()
      ensures when == if key in expires then expires[key] else -1
    {
      if |expires| == 0 || key !in expires { return -1; }
      assert key in dict;
      return expires[key];
    }

    method SetExpire(key: Key, when: int)
      requires Valid() && key in dict
      modifies this`expires
      ensures Valid() && expires == old(expires)[key := when]
    {
      expires := expires[key := when];
    }

    method RemoveExpire(key: Key) returns (removed: bool)
      requires Valid() && key in dict
      modifies this`expires
      ensures Valid() && expires == old(expires) - {key} && removed == (key in old(expires))
    {
      removed := key in expires;
      expires := expires - {key};
    }

    /** Answers whether the key has expired; on a master it is then gone, on a slave it stays. */
    method ExpireIfNeeded(key: Key, env: Env) returns (expired: bool)
      requires Valid()
      modifies this
      ensures Valid() && expired == Expired(old(expires), key, env)
      ensures expired <==> key in old(expires) && 0 <= old(expires)[key] < env.now && !env.loading
      ensures Dropped(old(expires), key, env) ==> dict == old(dict) - {key} && expires == old(expires) - {key}
      ensures !Dropped(old(expires), key, env) ==> dict == old(dict) && expires == old(expires)
    {
      hide Indexed;
      var when := GetExpire(key);
      if when < 0 { return false; }
      if env.loading { return false; }
      if env.slave { return env.now > when; }
      if env.now <= when { return false; }
      expired := Remove(key);
    }

    method LookupWrite(key: Key, env: Env) returns (val: Option<Object>)
      requires Valid()
      modifies this
      ensures Valid()
      ensures Dropped(old(expires), key, env) ==> dict == old(dict) - {key} && expires == old(expires) - {key}
      ensures !Dropped(old(expires), key, env) ==> dict == old(dict) && expires == old(expires)
      ensures val == if key in dict then Some(dict[key]) else None
    {
      var _ := ExpireIfNeeded(key, env);
      val := if key in dict then Some(dict[key]) else None;
    }

    /** The key has the value and no expiry time, whether or not it was there, had one, or had expired. */
    method SetKey(key: Key, val: Object, env: Env)
      requires Valid()
      modifies this
      ensures Valid() && dict == old(dict)[key := val] && expires == old(expires) - {key}
    {
      hide Indexed;
      var found := LookupWrite(key, env);
      if found.None? {
        Add(key, val);
      } else {
        Overwrite(key, val);
      }
      var _ := RemoveExpire(key);
    }

    /**
     EXPIRE and its relatives, for an absolute time; the clock is read again after the lookup.  A time that has
     passed deletes the key on a master; on a slave, and while loading, it is stored as it is, even -1.
     */
    method Expire(key: Key, when: int, env: Env, now: int) returns (found: bool)
      requires Valid()
      modifies this
      ensures Valid() && found == (key in old(dict) && !Dropped(old(expires), key, env))
      ensures !found || (when <= now && !env.loading && !env.slave) ==>
                dict == old(dict) - {key} && expires == old(expires) - {key}
      ensures found && !(when <= now && !env.loading && !env.slave) ==>
                dict == old(dict) && expires == old(expires)[key := when]
    {
      hide Indexed;
      var val := LookupWrite(key, env);
      if val.None? { return false; }
      if when <= now && !env.loading && !env.slave {
        var _ := Remove(key);
      } else {
        SetExpire(key, when);
      }
      return true;
    }

    /**
     RENAME, and RENAMENX with `nx`.  The clock is read at each lookup.  The value goes to the new name, and
     so does the expiry time, unless that time is the number -1, which the source takes for no time.
     */
    method Rename(from: Key, to: Key, nx: bool, first: Env, second: Env) returns (reply: Reply)
      requires Valid()
      modifies this
      ensures Valid()
      ensures reply.NoKey? <==> from !in old(dict) || Dropped(old(expires), from, first)
      ensures reply.NoKey? ==> dict == old(dict) - {from} && expires == old(expires) - {from}
      ensures !reply.NoKey? && from == to ==> dict == old(dict) && expires == old(expires) && reply == (if nx then Zero else Done)
      ensures !reply.NoKey? && from != to ==>
                (reply.Zero? <==> nx && to in old(dict) && !Dropped(old(expires), to, second))
      ensures reply.Zero? ==> dict == old(dict) && expires == old(expires)
      ensures reply.Done? && from != to ==>
                && dict == (old(dict) - {from})[to := old(dict)[from]]
                && expires == Carried(old(expires), from, to)
      ensures reply.Done? && from != to ==>
                from !in expires && (to in expires ==> from in old(expires)) && expires - {from, to} == old(expires) - {from, to}
      ensures reply.Done? && from != to && from in old(expires) ==>
                ((to in expires && expires[to] == old(expires)[from]) <==> old(expires)[from] != -1)
    {
      hide Indexed;
      var val := LookupWrite(from, first);
      if val.None? { return NoKey; }
      if from == to { return if nx then Zero else Done; }
      var expire := GetExpire(from);
      var target := LookupWrite(to, second);
      if target.Some? && nx { return Zero; }
      Transfer(from, to, val.value, expire, target.Some?);
      return Done;
    }

    /** The part of RENAME that writes. */
    method Transfer(from: Key, to: Key, val: Object, expire: int, present: bool)
      requires Valid() && from != to && from in dict && present == (to in dict)
      modifies this
      ensures Valid() && dict == (old(dict) - {from})[to := val]
      ensures expires == if expire != -1 then (old(expires) - {from})[to := expire] else old(expires) - {from, to}
    {
      hide Indexed;
      MapMoves(dict, from, to, val);
      MapMoves(expires, from, to, expire);
      if present {
        var _ := Remove(to);
      }
      Add(to, val);
      if expire != -1 { SetExpire(to, expire); }
      var _ := Remove(from);
    }

    // ---------- the index ----------

    /** The first keys of a slot in the order of the index, at most `count` of them. */
    method GetKeysInSlot(slot: nat, count: nat) returns (keys: seq<Key>)
      requires Valid() && cluster
      ensures keys == Listed(index, slot, count)
      ensures |keys| == if count < |SlotKeys(dict, slotOf, slot)| then count else |SlotKeys(dict, slotOf, slot)|
      ensures forall k | k in keys :: k in SlotKeys(dict, slotOf, slot)
    {
      hide SlotKeys, Indexed, Sorted, Less, First;
      ListedInSlot(dict, slotOf, index, slot, count);
      IndexSorted(dict, slotOf, index);
      Stretch(index, slot);
      keys := [];
      ghost var f, l := First(index, slot), First(index, slot + 1);
      var n := First(index, slot);
      var left := count;
      while n < |index| && index[n].slot == slot && left > 0
        invariant f <= n <= l && |keys| == n - f && left == count - (n - f)
        invariant forall i | 0 <= i < |keys| :: keys[i] == index[f + i].key
        decreases left
      {
        keys := keys + [index[n].key];
        n := n + 1;
        left := left - 1;
      }
    }

    /** The ranks of the first and last entry of a slot give the number of its keys. */
    method CountKeysInSlot(slot: nat) returns (count: int)
      requires Valid() && cluster
      ensures count == |SlotKeys(dict, slotOf, slot)|
    {
      hide SlotKeys, Indexed, Sorted, First, FirstInRange, LastInRange, GetRank;
      StretchKeys(dict, slotOf, index, slot);
      IndexSorted(dict, slotOf, index);
      Ranks(index, slot);
      count := 0;
      var e := FirstInRange(index, slot);
      if e.Some? {
        var rank := GetRank(index, e.value);
        count := |index| - (rank - 1);
        e := LastInRange(index, slot);
        if e.Some? {
          rank := GetRank(index, e.value);
          count := count - (|index| - rank);
        }
      }
    }

    /** Exactly the keys of the slot are removed, and their number is returned. */
    method DelKeysInSlot(slot: nat) returns (removed: nat)
      requires Valid() && cluster
      modifies this
      ensures Valid() && removed == |SlotKeys(old(dict), slotOf, slot)|
      ensures dict == old(dict) - SlotKeys(old(dict), slotOf, slot)
      ensures expires == old(expires) - SlotKeys(old(dict), slotOf, slot)
    {
      hide SlotKeys, Indexed, First, Sorted, Less, Delete, Following, KeysOf, Cut;
      SlotKeysListed(dict, slotOf, index, slot);
      IndexSorted(dict, slotOf, index);
      Stretch(index, slot);
      ghost var before := index;
      ghost var f, l := First(index, slot), First(index, slot + 1);
      removed := 0;
      var n := FirstInRange(index, slot);
      NoKeys(before, f);
      while n.Some? && n.value.slot == slot
        invariant Valid() && f + removed <= l && index == Cut(before, f, removed)
        invariant f + removed < l ==> n.Some?
        invariant n.Some? ==> f + removed < |before| && n.value == before[f + removed]
        invariant dict == old(dict) - KeysOf(before[f..f + removed])
        invariant expires == old(expires) - KeysOf(before[f..f + removed])
        decreases l - removed
      {
        var key := n.value.key;
        CutMore(dict, slotOf, before, f, removed);
        CutKeys(before, f, removed);
        n := Following(index, n.value);
        var _ := Remove(key);
        removed := removed + 1;
      }
    }
  }

  ghost function Cut(s: seq<Entry>, f: nat, r: nat): seq<Entry>
    requires f + r <= |s|
  {
    s[..f] + s[f + r..]
  }

  lemma NoKeys(s: seq<Entry>, f: nat)
    requires f <= |s|
    ensures Cut(s, f, 0) == s && KeysOf(s[f..f + 0]) == {}
  {
  }

  lemma CutSlices(s: seq<Entry>, f: nat, r: nat)
    requires f + r < |s|
    ensures var index := Cut(s, f, r);
            && |index| == |s| - r && index[f] == s[f + r] && index[..f] == s[..f] && index[f + 1..] == s[f + r + 1..]
            && (f + r + 1 < |s| ==> index[f + 1] == s[f + r + 1])
  {
  }

  lemma CutKeys(s: seq<Entry>, f: nat, r: nat)
    requires f + r < |s|
    ensures KeysOf(s[f..f + r + 1]) == KeysOf(s[f..f + r]) + {s[f + r].key}
  {
    assert s[f..f + r + 1] == s[f..f + r] + [s[f + r]];
  }

  /** Deleting the entry where the stretch was cut makes the cut longer by one, and its successor comes next. */
  lemma CutMore(dict: map<Key, Object>, slotOf: Key -> nat, s: seq<Entry>, f: nat, r: nat)
    requires f + r < |s| && Indexed(dict, slotOf, Cut(s, f, r))
    ensures var index, e := Cut(s, f, r), s[f + r];
            && e.key in dict && e == Entry(slotOf(e.key), e.key)
            && Delete(index, e) == Cut(s, f, r + 1)
            && Following(index, e) == (if f + r + 1 < |s| then Some(s[f + r + 1]) else None)
  {
    hide Sorted, Place;
    var index, e := Cut(s, f, r), s[f + r];
    CutSlices(s, f, r);
    hide Cut;
    assert e in index;
    PlaceOf(index, e, f);
    CutIs(s, f, r + 1);
  }

  lemma CutIs(s: seq<Entry>, f: nat, r: nat)
    requires f + r <= |s|
    ensures Cut(s, f, r) == s[..f] + s[f + r..]
  {
  }

  lemma SlotKeysListed(dict: map<Key, Object>, slotOf: Key -> nat, index: seq<Entry>, slot: nat)
    requires Indexed(dict, slotOf, index)
    ensures var f, l := First(index, slot), First(index, slot + 1);
            f <= l && l - f == |SlotKeys(dict, slotOf, slot)| && KeysOf(index[f..l]) == SlotKeys(dict, slotOf, slot)
  {
    hide Indexed, SlotKeys, First;
    StretchKeys(dict, slotOf, index, slot);
    var part := index[First(index, slot)..First(index, slot + 1)];
    forall k | k in SlotKeys(dict, slotOf, slot)
      ensures k in KeysOf(part)
    {
      assert Entry(slot, k) in part;
    }
  }

  /** `n->level[0].forward` */
  function Following(index: seq<Entry>, e: Entry): Option<Entry> {
    var p := Place(index, e) + 1;
    if p < |index| then Some(index[p]) else None
  }

  ghost function KeysOf(s: seq<Entry>): set<Key> {
    set e | e in s :: e.key
  }

  lemma ListedInSlot(dict: map<Key, Object>, slotOf: Key -> nat, index: seq<Entry>, slot: nat, count: nat)
    requires Indexed(dict, slotOf, index)
    ensures var keys := Listed(index, slot, count);
            && |keys| == (if count < |SlotKeys(dict, slotOf, slot)| then count else |SlotKeys(dict, slotOf, slot)|)
            && forall k | k in keys :: k in SlotKeys(dict, slotOf, slot)
  {
    hide Indexed, SlotKeys, First;
    StretchKeys(dict, slotOf, index, slot);
    var f, l := First(index, slot), First(index, slot + 1);
    var part := index[f..l];
    var keys := Listed(index, slot, count);
    forall k | k in keys
      ensures k in SlotKeys(dict, slotOf, slot)
    {
      var i :| 0 <= i < |keys| && keys[i] == k;
      assert part[i] == index[f + i];
    }
  }

  lemma MapMoves<T>(m: map<Key, T>, from: Key, to: Key, val: T)
    requires from != to
    ensures (m - {to})[to := val] - {from} == (m - {from})[to := val] == m[to := val] - {from}
    ensures m - {to} - {from} == m - {from, to}
    ensures to !in m ==> m - {from} == m - {from, to}
  {
  }

  /** The expiry times after a rename. */
  ghost function Carried(expires: map<Key, int>, from: Key, to: Key): map<Key, int> {
    var rest := expires - {from, to};
    if from in expires && expires[from] != -1 then rest[to := expires[from]] else rest
  }

  /** A slave is told PEXPIREAT -1 for its only key, and then RENAME: the time is stored, and lost. */
  method LoseTime(slotOf: Key -> nat, now: int) returns (stored: map<Key, int>, left: map<Key, int>, dict: map<Key, Object>)
    ensures stored == map["a" := -1] && left == map[] && dict == map["b" := 1]
  {
    var env := Env(now, false, true);
    var db := new Db(false, slotOf);
    assert "a"[0] != "b"[0];
    db.Add("a", 1);
    var found := db.Expire("a", -1, env, now);
    stored := db.expires;
    var reply := db.Rename("a", "b", false, env, env);
    left, dict := db.expires, db.dict;
  }
}
