/**
 How often a scan passes an entry to the callback: never twice in one call, never twice in a scan during which no
 table shrinks, and on a dictionary that does not change exactly once.
 */
module DictScanOnce {
  import opened Arith
  import opened Words
  import opened DictModel
  import opened DictScan

  // ---------- one call ----------

  lemma ConcatDistinct<K, V>(c: Chain<K, V>, d: Chain<K, V>)
    requires Distinct(c) && Distinct(d)
    requires forall e, f | e in c && f in d :: e.key != f.key
    ensures Distinct(c + d)
  {
    var s := c + d;
    forall i, j | 0 <= i < j < |s| ensures s[i].key != s[j].key {
      if i < |c| <= j { assert s[i] in c && s[j] in d; }
    }
  }

  /** An entry of the chain at a cursor has the cursor's low bits. */
  lemma ChainHasBits<K, V>(hash: K -> Word, t: Buckets<K, V>, v: Word, b: nat, e: Entry<K, V>)
    requires Placed(hash, t) && b <= WIDTH && |t| == Pow2(b) && e in ChainAt(t, v)
    ensures hash(e.key)[..b] == v[..b] && e.key in KeysOf(t)
  {
    hide Index, Pow2;
    SameChain(hash(e.key), v, b);
  }

  ghost predicate Below(h: Word, v: Word, a: nat, b: nat)
    requires a < b <= WIDTH
  {
    h[..a] == v[..a] && Val(v[a..b]) <= Val(h[a..b])
  }

  /** The loop over the larger table reads no chain twice. */
  lemma {:induction false} LoopDistinct<K, V>(hash: K -> Word, t: Buckets<K, V>, v: Word, a: nat, b: nat)
    requires Placed(hash, t) && AllDistinct(t) && a < b <= WIDTH && |t| == Pow2(b)
    ensures var c := ChainsAt(t, Expansion(v, a, b));
            Distinct(c) && forall e | e in c :: Below(hash(e.key), v, a, b) && e.key in KeysOf(t)
    decreases Pow2(b - a) - Val(v[a..b])
  {
    hide Index, Pow2, Val, Expansion, ChainsAt, ExpandStep, SizeMask, And, Xor, KeysOf, Placed;
    var n := ExpandStep(v, SizeMask(v, Pow2(a)));
    var more := And(n, Xor(SizeMask(n, Pow2(a)), SizeMask(n, Pow2(b)))) != Zeros(|n|);
    LoopStep(t, v, a, b);
    var first := t[Index(v, |t|)];
    forall e | e in first
      ensures Below(hash(e.key), v, a, b) && Val(hash(e.key)[a..b]) == Val(v[a..b]) && e.key in KeysOf(t)
    {
      ChainHasBits(hash, t, v, b, e);
      LowBitsOf(hash(e.key), v, a, b);
    }
    if more {
      LoopDistinct(hash, t, n, a, b);
      ConcatDistinct(first, ChainsAt(t, Expansion(n, a, b)));
    } else {
      assert first + [] == first;
    }
  }

  lemma LowBitsOf(h: Word, v: Word, a: nat, b: nat)
    requires a < b <= WIDTH && h[..b] == v[..b]
    ensures h[..a] == v[..a] && h[a..b] == v[a..b]
  {
    assert h[..a] == h[..b][..a] && v[..a] == v[..b][..a];
    assert h[a..b] == h[..b][a..] && v[a..b] == v[..b][a..];
  }

  /** In every valid state, one call passes no key twice, and only keys of the cursor's bucket in the smaller table. */
  lemma CallPassesOnce<K, V>(hash: K -> Word, d: Dict<K, V>, v: Word)
    requires Inv(hash, d)
    ensures Shape(d) && Distinct(Emitted(d, v))
    ensures forall e | e in Emitted(d, v) :: |d.ht0| > 0 && hash(e.key)[..LowBits(d)] == v[..LowBits(d)]
  {
    hide Index, Pow2, ChainAt, ChainsAt, Expansion, KeysOf, Placed, Total, LowBits, HighBits;
    if d.used0 + d.used1 > 0 && |d.ht0| > 0 {
      var a := LowBits(d);
      var near := ChainAt(Smaller(d), v);
      ChainAtDistinct(Smaller(d), v);
      forall e | e in near
        ensures hash(e.key)[..a] == v[..a] && e.key in KeysOf(Smaller(d))
      {
        ChainHasBits(hash, Smaller(d), v, a, e);
      }
      if Rehashing(d) {
        LoopDistinct(hash, Larger(d), v, a, HighBits(d));
        ConcatDistinct(near, ChainsAt(Larger(d), Expansion(v, a, HighBits(d))));
      }
    }
  }

  lemma ChainAtDistinct<K, V>(t: Buckets<K, V>, v: Word)
    requires AllDistinct(t)
    ensures Distinct(ChainAt(t, v))
  {
  }

  // ---------- a whole scan ----------

  ghost predicate Shapes<K, V>(ds: seq<Dict<K, V>>) {
    forall i | 0 <= i < |ds| :: Shape(ds[i])
  }

  /** What the first `n` calls pass to the callback, in order. */
  ghost function Passed<K, V>(ds: seq<Dict<K, V>>, vs: seq<Word>, n: nat): Chain<K, V>
    requires n <= |ds| && |vs| == |ds| + 1 && Shapes(ds)
  {
    if n == 0 then [] else Passed(ds, vs, n - 1) + Emitted(ds[n - 1], vs[n - 1])
  }

  lemma ScanShapes<K, V>(hash: K -> Word, ds: seq<Dict<K, V>>, vs: seq<Word>)
    requires Scan(hash, ds, vs)
    ensures Shapes(ds)
  {
    forall i | 0 <= i < |ds| ensures Shape(ds[i]) { InvShape(hash, ds[i]); }
  }

  /** A call that does not end the scan finds entries, and leaves no bits above the smaller mask. */
  lemma CallGoesOn<K, V>(hash: K -> Word, ds: seq<Dict<K, V>>, vs: seq<Word>, i: nat)
    requires Scan(hash, ds, vs) && i + 1 < |ds|
    ensures Shape(ds[i]) && |ds[i].ht0| > 0 && ds[i].used0 + ds[i].used1 > 0
    ensures vs[i + 1][LowBits(ds[i])..] == Zeros(WIDTH - LowBits(ds[i])) && Pos(vs[i]) < Pos(vs[i + 1])
  {
    hide Inv, Pos, LowBits, Shape, NextCursor;
    InvShape(hash, ds[i]);
    assert vs[i + 1] == Next(ds[i], vs[i]) && vs[i + 1] != Zeros(WIDTH);
    NextGrows(ds[i], vs[i]);
  }

  /** Without a shrink, every cursor is the first position of its bucket. */
  lemma CursorStarts<K, V>(hash: K -> Word, ds: seq<Dict<K, V>>, vs: seq<Word>, i: nat)
    requires Scan(hash, ds, vs) && NoShrink(ds) && i < |ds| && |ds[i].ht0| > 0
    ensures Shape(ds[i]) && vs[i][LowBits(ds[i])..] == Zeros(WIDTH - LowBits(ds[i]))
  {
    hide Inv, Pos, Next, Smaller, Pow2;
    InvShape(hash, ds[i]);
    if i > 0 {
      CallGoesOn(hash, ds, vs, i - 1);
      var a, b := LowBits(ds[i - 1]), LowBits(ds[i]);
      assert |Smaller(ds[i - 1])| <= |Smaller(ds[i])|;
      if b < a { Pow2Strict(b, a); }
      assert vs[i][b..] == vs[i][a..][b - a..];
    }
  }

  /** From the first position of a bucket, the bucket lies between the cursor and the next one. */
  lemma BucketBetween(v: Word, h: Word, a: nat)
    requires a <= WIDTH && v[a..] == Zeros(WIDTH - a) && h[..a] == v[..a]
    ensures var n := Pos(NextCursor(v, SizeMask(v, Pow2(a))));
            Pos(v) <= Pos(h) && (n > 0 ==> Pos(h) < n)
  {
    hide Pos, Pow2, NextCursor, SizeMask;
    BucketIsInterval(v, h, a);
    PosConcat(v[..a], v[a..]);
    assert v == v[..a] + v[a..];
    PosZeros(WIDTH - a);
    NextCursorPos(v, a);
  }

  /** A call passes only keys between its cursor and the one it returns. */
  lemma PassedBetween<K, V>(hash: K -> Word, ds: seq<Dict<K, V>>, vs: seq<Word>, i: nat, e: Entry<K, V>)
    requires Scan(hash, ds, vs) && NoShrink(ds) && i < |ds| && Shape(ds[i]) && e in Emitted(ds[i], vs[i])
    ensures Pos(vs[i]) <= Pos(hash(e.key)) && (i + 1 < |ds| ==> Pos(hash(e.key)) < Pos(vs[i + 1]))
  {
    hide Inv, Pos, Pow2, NextCursor, SizeMask, Emitted, NoShrink, Shape;
    CallPassesOnce(hash, ds[i], vs[i]);
    CursorStarts(hash, ds, vs, i);
    BucketBetween(vs[i], hash(e.key), LowBits(ds[i]));
    if i + 1 < |ds| { CallGoesOn(hash, ds, vs, i); }
  }

  lemma {:induction false} CursorsIncrease<K, V>(hash: K -> Word, ds: seq<Dict<K, V>>, vs: seq<Word>, i: nat, j: nat)
    requires Scan(hash, ds, vs) && i <= j < |ds|
    ensures Pos(vs[i]) <= Pos(vs[j])
  {
    hide Scan, Pos;
    if i < j {
      CursorsIncrease(hash, ds, vs, i, j - 1);
      CallGoesOn(hash, ds, vs, j - 1);
    }
  }

  lemma {:induction false} FromPassed<K, V>(ds: seq<Dict<K, V>>, vs: seq<Word>, n: nat, e: Entry<K, V>) returns (i: nat)
    requires n <= |ds| && |vs| == |ds| + 1 && Shapes(ds) && e in Passed(ds, vs, n)
    ensures i < n && e in Emitted(ds[i], vs[i])
  {
    hide Emitted, Shape;
    if e in Emitted(ds[n - 1], vs[n - 1]) { i := n - 1; } else { i := FromPassed(ds, vs, n - 1, e); }
  }

  lemma {:induction false} InPassed<K, V>(ds: seq<Dict<K, V>>, vs: seq<Word>, n: nat, i: nat, e: Entry<K, V>)
    requires i < n <= |ds| && |vs| == |ds| + 1 && Shapes(ds) && e in Emitted(ds[i], vs[i])
    ensures e in Passed(ds, vs, n)
  {
    hide Emitted, Shape;
    if i < n - 1 { InPassed(ds, vs, n - 1, i, e); }
  }

  lemma {:induction false} PassedDistinct<K, V>(hash: K -> Word, ds: seq<Dict<K, V>>, vs: seq<Word>, n: nat)
    requires Scan(hash, ds, vs) && NoShrink(ds) && n <= |ds| && Shapes(ds)
    ensures Distinct(Passed(ds, vs, n))
  {
    hide Inv, Emitted, Shape, Pos, NoShrink, Next;
    if n > 0 {
      PassedDistinct(hash, ds, vs, n - 1);
      CallPassesOnce(hash, ds[n - 1], vs[n - 1]);
      forall e, f | e in Passed(ds, vs, n - 1) && f in Emitted(ds[n - 1], vs[n - 1])
        ensures e.key != f.key
      {
        var i := FromPassed(ds, vs, n - 1, e);
        PassedBetween(hash, ds, vs, i, e);
        CursorsIncrease(hash, ds, vs, i + 1, n - 1);
        PassedBetween(hash, ds, vs, n - 1, f);
      }
      ConcatDistinct(Passed(ds, vs, n - 1), Emitted(ds[n - 1], vs[n - 1]));
    }
  }

  /**
   Without a shrink between calls, whatever else happens to the dictionary, a scan passes no key twice, and every key
   that is present throughout once.
   */
  lemma ScanPassesOnce<K, V>(hash: K -> Word, ds: seq<Dict<K, V>>, vs: seq<Word>, k: K)
    requires Scan(hash, ds, vs) && NoShrink(ds)
    ensures Shapes(ds) && Distinct(Passed(ds, vs, |ds|))
    ensures (forall i | 0 <= i < |ds| :: Find(hash, ds[i], k).Some?) ==> Emits(Passed(ds, vs, |ds|), k)
  {
    hide Inv, Emitted, Shape, Pos, Next, Find;
    ScanShapes(hash, ds, vs);
    PassedDistinct(hash, ds, vs, |ds|);
    if forall i | 0 <= i < |ds| :: Find(hash, ds[i], k).Some? {
      ScanWithoutShrink(hash, ds, vs, k);
      var i :| 0 <= i < |ds| && Emits(Emitted(ds[i], vs[i]), k);
      var e :| e in Emitted(ds[i], vs[i]) && e.key == k;
      InPassed(ds, vs, |ds|, i, e);
    }
  }

  /** A scan of a dictionary that does not change passes exactly its entries, each once. */
  lemma UnchangedScan<K(!new), V>(hash: K -> Word, d: Dict<K, V>, m: map<K, V>, ds: seq<Dict<K, V>>, vs: seq<Word>)
    requires Good(hash, d, m) && Scan(hash, ds, vs) && forall i | 0 <= i < |ds| :: ds[i] == d
    ensures Shapes(ds) && multiset(Passed(ds, vs, |ds|)) == multiset(set k | k in m :: Entry(k, m[k]))
  {
    hide Inv, Emitted, Shape, Next, Find, Represents;
    ScanShapes(hash, ds, vs);
    PassedDistinct(hash, ds, vs, |ds|);
    var out, all := Passed(ds, vs, |ds|), set k | k in m :: Entry(k, m[k]);
    forall e | e in out ensures e in all {
      var i := FromPassed(ds, vs, |ds|, e);
      EmittedArePresent(hash, d, vs[i], e);
      GoodFind(hash, d, m, e.key);
    }
    forall e | e in all ensures e in out {
      GoodFind(hash, d, m, e.key);
      ScanPassesOnce(hash, ds, vs, e.key);
      var f :| f in out && f.key == e.key;
      var i := FromPassed(ds, vs, |ds|, f);
      EmittedArePresent(hash, d, vs[i], f);
    }
    OneEach(out, all);
  }

  /** Pairwise different members, counted. */
  lemma {:induction false} OneEach<K, V>(c: Chain<K, V>, s: set<Entry<K, V>>)
    requires Distinct(c) && forall e :: e in c <==> e in s
    ensures multiset(c) == multiset(s)
  {
    if c == [] {
      assert s == {};
    } else {
      var e := c[0];
      assert c == [e] + c[1..];
      assert forall f | f in c[1..] :: f.key != e.key;
      OneEach(c[1..], s - {e});
      assert multiset(s) == multiset{e} + multiset(s - {e});
    }
  }

  /** Such a scan exists: from the zero cursor, calls on an unchanging dictionary come back to it. */
  lemma ScanEnds<K, V>(hash: K -> Word, d: Dict<K, V>) returns (ds: seq<Dict<K, V>>, vs: seq<Word>)
    requires Inv(hash, d)
    ensures Scan(hash, ds, vs) && forall i | 0 <= i < |ds| :: ds[i] == d
  {
    hide Inv, Shape, CursorsFrom;
    InvShape(hash, d);
    var zero: Word := Zeros(WIDTH);
    if d.used0 + d.used1 == 0 || |d.ht0| == 0 {
      ds, vs := [d], [zero, zero];
    } else {
      vs := CursorsFrom(d, zero);
      ds := seq(|vs| - 1, _ => d);
      assert Follows(d, vs);
    }
  }
}
