/**
 The sorted set `slots_to_keys` that db.c keeps in cluster mode: entries ordered by slot and then by key.
 The skip list behind it is a sequence here; rank and range queries are those of that sequence.
 */
module SlotIndex {
  import opened Common

  type Key = string

  datatype Entry = Entry(slot: nat, key: Key)

  /** `memcmp` order of byte strings. */
  predicate Less(a: Key, b: Key) {
    b != [] && (a == [] || a[0] < b[0] || (a[0] == b[0] && Less(a[1..], b[1..])))
  }

  lemma {:induction false} LessTotal(a: Key, b: Key)
    ensures a == b || Less(a, b) || Less(b, a)
    ensures !(Less(a, b) && Less(b, a)) && !Less(a, a)
  {
    if a != [] && b != [] {
      LessTotal(a[1..], b[1..]);
      assert a == [a[0]] + a[1..] && b == [b[0]] + b[1..];
    }
    if a != [] { LessTotal(a[1..], a[1..]); }
  }

  lemma {:induction false} LessTransitive(a: Key, b: Key, c: Key)
    requires Less(a, b) && Less(b, c)
    ensures Less(a, c)
  {
    if a != [] && a[0] == b[0] == c[0] {
      LessTransitive(a[1..], b[1..], c[1..]);
    }
  }

  predicate Before(a: Entry, b: Entry) {
    a.slot < b.slot || (a.slot == b.slot && Less(a.key, b.key))
  }

  lemma BeforeTotal(a: Entry, b: Entry)
    ensures a == b || Before(a, b) || Before(b, a)
    ensures !(Before(a, b) && Before(b, a)) && !Before(a, a)
  {
    LessTotal(a.key, b.key);
  }

  lemma BeforeTransitive(a: Entry, b: Entry, c: Entry)
    requires Before(a, b) && Before(b, c)
    ensures Before(a, c)
  {
    if a.slot == b.slot == c.slot { LessTransitive(a.key, b.key, c.key); }
  }

  ghost predicate Sorted(s: seq<Entry>) {
    forall i, j | 0 <= i < j < |s| :: Before(s[i], s[j])
  }

  /** How many entries come before `e`. */
  function Place(s: seq<Entry>, e: Entry): (p: nat)
    ensures p <= |s|
    ensures forall i | 0 <= i < p :: Before(s[i], e)
    ensures p < |s| ==> !Before(s[p], e)
  {
    if s != [] && Before(s[0], e) then 1 + Place(s[1..], e) else 0
  }

  function Insert(s: seq<Entry>, e: Entry): seq<Entry> {
    var p := Place(s, e);
    s[..p] + [e] + s[p..]
  }

  function Delete(s: seq<Entry>, e: Entry): seq<Entry> {
    var p := Place(s, e);
    if p < |s| && s[p] == e then s[..p] + s[p + 1..] else s
  }

  /** In a sorted sequence an entry is at its place. */
  lemma PlaceOf(s: seq<Entry>, e: Entry, i: nat)
    requires Sorted(s) && i < |s| && s[i] == e
    ensures Place(s, e) == i
  {
    hide Before;
    BeforeTotal(e, e);
  }

  lemma AfterPlace(s: seq<Entry>, e: Entry, j: nat)
    requires Sorted(s) && e !in s && Place(s, e) <= j < |s|
    ensures Before(e, s[j])
  {
    hide Before;
    var p := Place(s, e);
    BeforeTotal(s[p], e);
    assert s[p] in s;
    if p < j { BeforeTransitive(e, s[p], s[j]); }
  }

  lemma InsertOrdered(s: seq<Entry>, e: Entry)
    requires Sorted(s) && e !in s
    ensures Sorted(Insert(s, e))
  {
    hide Before, Place;
    var p, t := Place(s, e), Insert(s, e);
    forall i, j | 0 <= i < j < |t|
      ensures Before(t[i], t[j])
    {
      if i == p {
        AfterPlace(s, e, j - 1);
      } else if j != p {
        assert Before(s[if i < p then i else i - 1], s[if j < p then j else j - 1]);
      }
    }
  }

  lemma InsertMembers(s: seq<Entry>, e: Entry, x: Entry)
    ensures x in Insert(s, e) <==> x in s || x == e
  {
    hide Before, Place;
    var p := Place(s, e);
    assert s == s[..p] + s[p..];
  }

  lemma InsertSorted(s: seq<Entry>, e: Entry)
    requires Sorted(s) && e !in s
    ensures Sorted(Insert(s, e))
    ensures forall x :: x in Insert(s, e) <==> x in s || x == e
  {
    hide Sorted, Insert;
    InsertOrdered(s, e);
    forall x ensures x in Insert(s, e) <==> x in s || x == e { InsertMembers(s, e, x); }
  }

  lemma DeleteSorted(s: seq<Entry>, e: Entry)
    requires Sorted(s)
    ensures Sorted(Delete(s, e))
    ensures forall x :: x in Delete(s, e) <==> x in s && x != e
  {
    hide Before;
    var p, t := Place(s, e), Delete(s, e);
    BeforeTotal(e, e);
    if e in s {
      var i :| 0 <= i < |s| && s[i] == e;
      PlaceOf(s, e, i);
      assert s == s[..p] + [e] + s[p + 1..];
      assert forall j | 0 <= j < |s| && j != p :: s[j] != e;
    }
  }

  /** Two sorted sequences of the same entries are the same: the index is a function of the keys. */
  lemma {:induction false} SortedUnique(s: seq<Entry>, t: seq<Entry>)
    requires Sorted(s) && Sorted(t) && (forall x :: x in s <==> x in t)
    ensures s == t
  {
    hide Before;
    assert t == [] || t[0] in t;
    if s != [] {
      assert s[0] in t && t != [] && t[0] in s;
      var i :| 0 <= i < |t| && t[i] == s[0];
      var j :| 0 <= j < |s| && s[j] == t[0];
      assert i > 0 ==> Before(t[0], s[0]);
      assert j > 0 ==> Before(s[0], t[0]);
      BeforeTotal(s[0], t[0]);
      Tail(s, s[0]);
      Tail(t, t[0]);
      SortedUnique(s[1..], t[1..]);
      assert s == [s[0]] + s[1..] && t == [t[0]] + t[1..];
    }
  }

  lemma Tail(s: seq<Entry>, e: Entry)
    requires s != [] && Sorted(s) && e == s[0]
    ensures Sorted(s[1..]) && forall x :: x in s[1..] <==> x in s && x != e
  {
    hide Before;
    BeforeTotal(e, e);
    assert s == [e] + s[1..];
    assert forall i | 0 < i < |s| :: s[i] != e;
  }

  // ---------- the entries of one slot ----------

  /** The first entry of a slot or a later one. */
  function First(s: seq<Entry>, slot: nat): (f: nat)
    ensures f <= |s|
    ensures forall i | 0 <= i < f :: s[i].slot < slot
    ensures f < |s| ==> s[f].slot >= slot
  {
    if s != [] && s[0].slot < slot then 1 + First(s[1..], slot) else 0
  }

  /** `zslFirstInRange` for the range of one slot. */
  function FirstInRange(s: seq<Entry>, slot: nat): Option<Entry> {
    var f := First(s, slot);
    if f < |s| && s[f].slot == slot then Some(s[f]) else None
  }

  /** `zslLastInRange` for the range of one slot. */
  function LastInRange(s: seq<Entry>, slot: nat): Option<Entry> {
    var l := First(s, slot + 1);
    if l > 0 && s[l - 1].slot == slot then Some(s[l - 1]) else None
  }

  /** `zslGetRank`: the position from 1 on, 0 for an entry that is not there. */
  function GetRank(s: seq<Entry>, e: Entry): nat {
    var p := Place(s, e);
    if p < |s| && s[p] == e then p + 1 else 0
  }

  /** The slot's entries are one stretch of the sequence. */
  lemma Stretch(s: seq<Entry>, slot: nat)
    requires Sorted(s)
    ensures First(s, slot) <= First(s, slot + 1)
    ensures forall i | 0 <= i < |s| :: s[i].slot == slot <==> First(s, slot) <= i < First(s, slot + 1)
  {
    hide Less;
    var f, l := First(s, slot), First(s, slot + 1);
    assert f < |s| ==> forall j | f < j < |s| :: Before(s[f], s[j]);
    assert l < |s| ==> forall j | l < j < |s| :: Before(s[l], s[j]);
  }

  /** Where the range queries find the ends of the stretch. */
  lemma Ranks(s: seq<Entry>, slot: nat)
    requires Sorted(s)
    ensures var f, l := First(s, slot), First(s, slot + 1);
            var a, b := FirstInRange(s, slot), LastInRange(s, slot);
            && f <= l
            && (f == l ==> a.None?)
            && (f < l ==> a.Some? && b.Some? && GetRank(s, a.value) == f + 1 && GetRank(s, b.value) == l)
  {
    hide Before, Sorted;
    Stretch(s, slot);
    var f, l := First(s, slot), First(s, slot + 1);
    if f < l {
      PlaceOf(s, s[f], f);
      PlaceOf(s, s[l - 1], l - 1);
    }
  }

  /** The keys of at most `count` entries of a slot. */
  function Listed(s: seq<Entry>, slot: nat, count: nat): seq<Key> {
    var f, l := First(s, slot), First(s, slot + 1);
    var n := if f + count < l then count else if f <= l then l - f else 0;
    seq(n, i requires 0 <= i < n => s[f + i].key)
  }

  lemma ListedSorted(s: seq<Entry>, slot: nat, count: nat)
    requires Sorted(s)
    ensures var keys := Listed(s, slot, count);
            forall i, j | 0 <= i < j < |keys| :: Less(keys[i], keys[j])
  {
    hide Less, First;
    Stretch(s, slot);
    var keys := Listed(s, slot, count);
    var f := First(s, slot);
    forall i, j | 0 <= i < j < |keys|
      ensures Less(keys[i], keys[j])
    {
      assert Before(s[f + i], s[f + j]);
    }
  }

  ghost function Entries(s: seq<Entry>): set<Entry> {
    set x | x in s
  }

  lemma {:induction false} EntriesCount(s: seq<Entry>)
    requires Sorted(s)
    ensures |Entries(s)| == |s|
  {
    hide Before;
    if s != [] {
      Tail(s, s[0]);
      EntriesCount(s[1..]);
      assert Entries(s) == {s[0]} + Entries(s[1..]);
    }
  }
}
