/** The iterator object of dict.c, in its safe form, over the mutable dictionary. */
module DictIterator {
  import opened Common
  import opened Words
  import opened DictModel
  import opened DictTable
  import DictIter

  class SafeIterator<K(==, !new), V> {
    const d: HashTable<K, V>
    var table: nat
    var index: int
    var entry: Option<K>
    var nextEntry: Option<K>

    function It(): DictIter.Iter<K>
      reads this
    {
      DictIter.Iter(table, index, entry, nextEntry)
    }

    /** Before the first call the iterator holds no reference on the dictionary. */
    predicate Started()
      reads this
    {
      DictIter.Started(It())
    }

    /** `dictGetSafeIterator`. */
    constructor (d: HashTable<K, V>)
      ensures this.d == d && !Started() && It() == DictIter.Start(d.View()).it
    {
      this.d := d;
      table, index, entry, nextEntry := 0, -1, None, None;
    }

    /** `dictNext`. */
    method Next() returns (r: Option<K>)
      requires d.Valid() && DictIter.Valid(d.View(), It())
      modifies this, d`iterators
      ensures d.Valid() && d.M == old(d.M)
      ensures d.View() == old(d.View()).(iterators := old(d.iterators) + if old(Started()) then 0 else 1)
      ensures Started() && (It(), r) == DictIter.Next(d.View(), old(It()))
    {
      hide Good, DictIter.Valid, DictIter.Next;
      if index == -1 && table == 0 {
        GoodPaused(d.hash, d.View(), d.M, d.iterators + 1);
        d.iterators := d.iterators + 1;
        ValidPaused(old(d.View()), d.iterators, It());
      }
      r := Seek();
    }

    /** The loop of `dictNext`. */
    method Seek() returns (r: Option<K>)
      requires d.Valid() && DictIter.Valid(d.View(), It())
      modifies this
      ensures Started() && (It(), r) == DictIter.Next(d.View(), old(It()))
    {
      hide Good, DictIter.Next, DictIter.Step, DictIter.ChainKeys;
      SecondTable(d.hash, d.View(), d.M);
      ghost var v, it := d.View(), It();
      ghost var result := DictIter.Next(v, it);
      var stop := false;
      r := None;
      while !stop
        invariant d.View() == v && 0 <= table <= 1 && -1 <= index
        invariant entry.Some? ==> 0 <= index < |DictIter.Tbl(v, table)|
        invariant !stop ==> DictIter.Next(v, It()) == result
        invariant stop ==> Started() && (It(), r) == result
        decreases !stop, if table == 0 then 1 else 0, |DictIter.Tbl(v, table)| - index, if entry.Some? then 1 else 0
      {
        DictIter.NextBySteps(v, It());
        r, stop := Turn();
      }
    }

    /** One iteration of the loop. */
    method Turn() returns (r: Option<K>, stop: bool)
      requires d.rehashidx != -1 ==> d.table1.Length > 0
      requires 0 <= table <= 1 && -1 <= index && (entry.Some? ==> index < |DictIter.Tbl(d.View(), table)| && index >= 0)
      modifies this
      ensures DictIter.Step(d.View(), old(It())) == if stop then DictIter.Stop(It(), r) else DictIter.Go(It())
      ensures 0 <= table <= 1 && -1 <= index && Started()
      ensures entry.Some? ==> 0 <= index < |DictIter.Tbl(d.View(), table)|
      ensures !stop ==> old(table) == 0 || table == 1
      ensures !stop && old(table) == table ==>
                old(index) < index <= |DictIter.Tbl(d.View(), table)| || (old(index) == index && old(entry).Some? && entry.None?)
    {
      hide DictIter.After;
      r, stop := None, false;
      if entry.None? {
        index := index + 1;
        if index >= (if table == 0 then d.table0 else d.table1).Length {
          if d.rehashidx != -1 && table == 0 {
            table, index := 1, 0;
          } else {
            return None, true;
          }
        }
        var chain := (if table == 0 then d.table0 else d.table1)[index];
        if chain != [] {
          entry := Some(chain[0].key);
          nextEntry := DictIter.Head(chain[1..]);
          return entry, true;
        }
      } else {
        entry := nextEntry;
        if entry.Some? {
          nextEntry := DictIter.After((if table == 0 then d.table0 else d.table1)[index], entry.value);
          return entry, true;
        }
      }
    }

    /** `dictReleaseIterator`: drops the reference taken by the first `Next`. */
    method Release()
      requires d.Valid() && (Started() ==> d.iterators > 0)
      modifies d`iterators
      ensures d.Valid() && d.M == old(d.M)
      ensures d.iterators == old(d.iterators) - if Started() then 1 else 0
    {
      hide Good;
      if !(index == -1 && table == 0) {
        GoodPaused(d.hash, d.View(), d.M, d.iterators - 1);
        d.iterators := d.iterators - 1;
      }
    }
  }

  lemma ValidPaused<K, V>(d: Dict<K, V>, n: nat, it: DictIter.Iter<K>)
    requires DictIter.Valid(d, it)
    ensures DictIter.Valid(d.(iterators := n), it)
  {
  }

  lemma SecondTable<K(!new), V>(hash: K -> Word, d: Dict<K, V>, m: map<K, V>)
    requires Good(hash, d, m)
    ensures Rehashing(d) ==> |d.ht1| > 0
  {
  }

  lemma GoodPaused<K(!new), V>(hash: K -> Word, d: Dict<K, V>, m: map<K, V>, n: nat)
    requires Good(hash, d, m)
    ensures Good(hash, d.(iterators := n), m)
  {
    assert forall k :: Find(hash, d.(iterators := n), k) == Find(hash, d, k);
  }
}
