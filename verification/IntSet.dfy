/** The sorted packed integer set of intset.c over its byte buffer, with the in-place width upgrade. */
module IntSet {
  import opened Arith
  import opened IntSetBytes

  const INT64_LIMIT := 0x8000_0000_0000_0000

  ghost predicate IsInt64(v: int) {
    -INT64_LIMIT <= v < INT64_LIMIT
  }

  ghost predicate IsWidth(n: nat) {
    n == INT16 || n == INT32 || n == INT64
  }

  /** `_intsetValueEncoding`. */
  function ValueEncoding(v: int): nat {
    if v < -0x8000_0000 || v > 0x7FFF_FFFF then INT64
    else if v < -0x8000 || v > 0x7FFF then INT32
    else INT16
  }

  /** The encoding is the narrowest that holds the value: wider ones do, narrower ones do not. */
  lemma EncodingFits(v: int, n: nat)
    requires IsInt64(v) && IsWidth(n)
    ensures InRange(v, n) <==> ValueEncoding(v) <= n
  {
    Limits();
  }

  lemma NarrowerFits(v: int, n: nat, m: nat)
    requires IsWidth(n) && IsWidth(m) && n <= m && InRange(v, n)
    ensures InRange(v, m)
  {
    Limits();
  }

  ghost predicate Increasing(s: seq<int>) {
    forall i, j | 0 <= i < j < |s| :: s[i] < s[j]
  }

  function InsertAt(s: seq<int>, pos: nat, v: int): seq<int>
    requires pos <= |s|
  {
    s[..pos] + [v] + s[pos..]
  }

  function RemoveAt(s: seq<int>, pos: nat): seq<int>
    requires pos < |s|
  {
    s[..pos] + s[pos + 1..]
  }

  /** Where `v` is, or where it would have to go. */
  ghost predicate Position(s: seq<int>, v: int, found: bool, pos: nat) {
    && pos <= |s|
    && (found ==> pos < |s| && s[pos] == v)
    && (!found ==> (forall i | 0 <= i < pos :: s[i] < v) && (forall i | pos <= i < |s| :: v < s[i]))
  }

  lemma PositionDecides(s: seq<int>, v: int, found: bool, pos: nat)
    requires Increasing(s) && Position(s, v, found, pos)
    ensures found <==> v in s
  {
  }

  lemma InsertKeepsOrder(s: seq<int>, v: int, pos: nat)
    requires Increasing(s) && Position(s, v, false, pos)
    ensures Increasing(InsertAt(s, pos, v))
    ensures (set x | x in InsertAt(s, pos, v)) == (set x | x in s) + {v}
  {
    assert s == s[..pos] + s[pos..];
    forall x | x in s ensures x in InsertAt(s, pos, v) {}
  }

  lemma RemoveKeepsOrder(s: seq<int>, v: int, pos: nat)
    requires Increasing(s) && Position(s, v, true, pos)
    ensures Increasing(RemoveAt(s, pos))
    ensures (set x | x in RemoveAt(s, pos)) == (set x | x in s) - {v}
  {
    var t := RemoveAt(s, pos);
    assert s == s[..pos] + [s[pos]] + s[pos + 1..];
    forall x | x in t ensures x != v {
      var i :| 0 <= i < |t| && t[i] == x;
      assert t[i] == if i < pos then s[i] else s[i + 1];
    }
  }

  // ---------- what the byte operations do to the elements ----------

  /** Growing by one element, moving the tail up and storing the value inserts it. */
  lemma InsertBytes(b: Buffer, n: nat, len: nat, pos: nat, v: int, grown: Buffer)
    requires IsWidth(n) && |b| == len * n && pos <= len && InRange(v, n)
    requires |grown| == (len + 1) * n && grown[..|b|] == b
    ensures pos * n + n <= |grown| && (len - pos) * n + pos * n == len * n
    ensures var moved := Move(grown, pos * n, pos * n + n, (len - pos) * n);
            Elems(Put(moved, pos * n, n, v), n, len + 1) == InsertAt(Elems(b, n, len), pos, v)
  {
    hide Encode, Decode, Put, Move;
    Split(pos, len, n);
    var moved := Move(grown, pos * n, pos * n + n, (len - pos) * n);
    var c := Put(moved, pos * n, n, v);
    forall i | 0 <= i < len + 1 ensures Elems(c, n, len + 1)[i] == InsertAt(Elems(b, n, len), pos, v)[i] {
      InsertedAt(b, n, len, pos, v, grown, i);
    }
  }

  lemma Split(pos: nat, len: nat, n: nat)
    requires pos <= len && n > 0
    ensures (len - pos) * n + pos * n == len * n && (len + 1) * n == len * n + n
    ensures 0 <= pos * n <= len * n && (len - pos) * n >= 0
  {
    MulNonNegative(len - pos, n);
    MulNonNegative(pos, n);
  }

  lemma InsertedAt(b: Buffer, n: nat, len: nat, pos: nat, v: int, grown: Buffer, i: nat)
    requires IsWidth(n) && |b| == len * n && pos <= len && InRange(v, n) && i < len + 1
    requires |grown| == (len + 1) * n && grown[..|b|] == b
    requires pos * n + n <= |grown| && (len - pos) * n + pos * n == len * n
    ensures var moved := Move(grown, pos * n, pos * n + n, (len - pos) * n);
            Elems(Put(moved, pos * n, n, v), n, len + 1)[i] == InsertAt(Elems(b, n, len), pos, v)[i]
  {
    hide Encode, Decode, Put, Move;
    var o, count := pos * n, (len - pos) * n;
    var moved := Move(grown, o, o + n, count);
    var c := Put(moved, o, n, v);
    ElemAt(c, n, len + 1, i);
    GetPut(moved, o, n, v, i * n, n);
    if i < pos {
      OffsetOrder(i, pos, n);
      MovedGet(grown, o, o + n, count, i * n, n);
      PrefixElem(b, n, len, grown, i);
    } else if i > pos {
      SameOrLater(pos, i - 1, n);
      NextOffset(i, n);
      OffsetOrder(i - 1, len, n);
      MovedGet(grown, o, o + n, count, (i - 1) * n - o, n);
      PrefixElem(b, n, len, grown, i - 1);
    }
  }

  lemma NextOffset(i: nat, n: nat)
    requires i > 0
    ensures i * n == (i - 1) * n + n
  {
  }

  /** A buffer that starts with another has its elements. */
  lemma PrefixElem(b: Buffer, n: nat, len: nat, grown: Buffer, i: nat)
    requires n > 0 && |b| == len * n && i < len && |b| <= |grown| && grown[..|b|] == b
    ensures 0 <= i * n && i * n + n <= |b| && Get(grown, i * n, n) == Elems(b, n, len)[i]
  {
    hide Decode;
    ElemAt(b, n, len, i);
    OffsetOrder(i, len, n);
    var g := grown[..|b|];
    assert forall k | 0 <= k < |b| :: grown[k] == g[k];
    SameSlice(grown, i * n, b, i * n, n);
  }

  lemma SameOrLater(i: nat, j: nat, n: nat)
    requires i <= j && n > 0
    ensures i * n <= j * n
  {
    if i < j { OffsetOrder(i, j, n); }
  }

  /** Moving the tail down over an element and dropping the last one removes it. */
  lemma RemoveBytes(b: Buffer, n: nat, len: nat, pos: nat)
    requires IsWidth(n) && |b| == len * n && pos < len
    ensures pos * n + n <= |b| && (len - pos - 1) * n + (pos * n + n) == len * n && (len - 1) * n + n == len * n
    ensures var moved := Move(b, pos * n + n, pos * n, (len - pos - 1) * n);
            Elems(moved[..(len - 1) * n], n, len - 1) == RemoveAt(Elems(b, n, len), pos)
  {
    hide Encode, Decode, Move;
    Split(pos + 1, len, n);
    NextOffset(pos + 1, n);
    NextOffset(len, n);
    MulNonNegative(pos, n);
    var moved := Move(b, pos * n + n, pos * n, (len - pos - 1) * n);
    var c := moved[..(len - 1) * n];
    forall i | 0 <= i < len - 1 ensures Elems(c, n, len - 1)[i] == RemoveAt(Elems(b, n, len), pos)[i] {
      RemovedAt(b, n, len, pos, i);
    }
  }

  lemma RemovedAt(b: Buffer, n: nat, len: nat, pos: nat, i: nat)
    requires IsWidth(n) && |b| == len * n && pos < len && i < len - 1
    requires pos * n + n <= |b| && (len - pos - 1) * n + (pos * n + n) == len * n && (len - 1) * n + n == len * n
    ensures var moved := Move(b, pos * n + n, pos * n, (len - pos - 1) * n);
            Elems(moved[..(len - 1) * n], n, len - 1)[i] == RemoveAt(Elems(b, n, len), pos)[i]
  {
    hide Encode, Decode, Move;
    var o, count := pos * n, (len - pos - 1) * n;
    var moved := Move(b, o + n, o, count);
    var c := moved[..(len - 1) * n];
    PrefixElem(c, n, len - 1, moved, i);
    if i < pos {
      OffsetOrder(i, pos, n);
      MovedGet(b, o + n, o, count, i * n, n);
      ElemAt(b, n, len, i);
    } else {
      SameOrLater(pos, i, n);
      OffsetOrder(i, len - 1, n);
      MovedGet(b, o + n, o, count, i * n - o, n);
      NextOffset(i + 1, n);
      ElemAt(b, n, len, i + 1);
    }
  }

  // ---------- the upgrade ----------

  /**
   Midway through an upgrade from width `n` to `m`: elements from `i` on are at the new width, shifted
   by `shift`, and those before it still at the old width.
   */
  ghost predicate Upgrading(b: Buffer, s: seq<int>, i: nat, n: nat, m: nat, shift: nat)
    requires n > 0 && m > 0 && i <= |s| && |s| * n <= |b| && (|s| + 1) * m <= |b| && shift <= 1
  {
    && (forall k {:trigger s[k]} | 0 <= k < i :: ElemIn(b, k, |s|, n) == s[k])
    && (forall k {:trigger s[k]} | i <= k < |s| :: ElemIn(b, k + shift, |s| + 1, m) == s[k])
  }

  ghost function ElemIn(b: Buffer, k: nat, len: nat, n: nat): int
    requires n > 0 && k < len && len * n <= |b|
  {
    Within(k, len, n, |b|);
    Get(b, k * n, n)
  }

  /** Writing element `i - 1` at the new width overwrites no element still to be read. */
  lemma UpgradeStep(b: Buffer, s: seq<int>, i: nat, n: nat, m: nat, shift: nat)
    requires IsWidth(n) && IsWidth(m) && n < m && 0 < i <= |s| && shift <= 1
    requires |s| * n <= |b| && (|s| + 1) * m <= |b| && Upgrading(b, s, i, n, m, shift)
    ensures 0 <= (i - 1) * n && (i - 1) * n + n <= |b| && Get(b, (i - 1) * n, n) == s[i - 1]
    ensures 0 <= (i - 1 + shift) * m && (i - 1 + shift) * m + m <= |b|
    ensures Upgrading(Put(b, (i - 1 + shift) * m, m, s[i - 1]), s, i - 1, n, m, shift)
  {
    hide Encode, Decode, Put, Get;
    var x, at := s[i - 1], (i - 1 + shift) * m;
    Within(i - 1, |s|, n, |b|);
    Within(i - 1 + shift, |s| + 1, m, |b|);
    assert ElemIn(b, i - 1, |s|, n) == x;
    assert InRange(x, m) by { GetInRange(b, (i - 1) * n, n); NarrowerFits(x, n, m); }
    var c := Put(b, at, m, x);
    forall k | 0 <= k < i - 1 ensures ElemIn(c, k, |s|, n) == s[k] {
      Within(k, |s|, n, |b|);
      BeforeNew(k, i - 1, n, m, shift);
      GetPut(b, at, m, x, k * n, n);
    }
    forall k | i - 1 <= k < |s| ensures ElemIn(c, k + shift, |s| + 1, m) == s[k] {
      Within(k + shift, |s| + 1, m, |b|);
      if k > i - 1 { OffsetOrder(i - 1 + shift, k + shift, m); }
      GetPut(b, at, m, x, (k + shift) * m, m);
    }
  }

  lemma GetInRange(b: Buffer, off: nat, n: nat)
    requires n > 0 && off + n <= |b|
    ensures InRange(Get(b, off, n), n)
  {
  }

  /** The old place of an element ends before the new place of a later one. */
  lemma BeforeNew(k: nat, i: nat, n: nat, m: nat, shift: nat)
    requires k < i && 0 < n <= m
    ensures k * n + n <= (i + shift) * m
  {
    OffsetOrder(k, i, n);
    MulNonNegative(i, m - n);
    assert i * (m - n) == i * m - i * n;
    SameOrLater(i, i + shift, m);
  }

  lemma UpgradeStart(b: Buffer, n: nat, len: nat, grown: Buffer, m: nat, shift: nat)
    requires IsWidth(n) && IsWidth(m) && n < m && shift <= 1 && |b| == len * n
    requires |grown| == (len + 1) * m && |b| <= |grown| && grown[..|b|] == b
    ensures Upgrading(grown, Elems(b, n, len), len, n, m, shift)
  {
    hide Decode, Get;
    forall k | 0 <= k < len ensures ElemIn(grown, k, len, n) == Elems(b, n, len)[k] { PrefixElem(b, n, len, grown, k); }
  }

  /** The gap left by the shift takes the new value. */
  lemma UpgradeEnd(b: Buffer, s: seq<int>, n: nat, m: nat, shift: nat, v: int)
    requires IsWidth(n) && IsWidth(m) && shift <= 1 && InRange(v, m)
    requires |s| * n <= |b| && |b| == (|s| + 1) * m && Upgrading(b, s, 0, n, m, shift)
    ensures var at := if shift == 1 then 0 else |s| * m;
            && at + m <= |b|
            && Elems(Put(b, at, m, v), m, |s| + 1) == if shift == 1 then [v] + s else s + [v]
  {
    hide Encode, Decode, Put, Get;
    var gap := if shift == 1 then 0 else |s|;
    Within(gap, |s| + 1, m, |b|);
    var c := Put(b, gap * m, m, v);
    var want := if shift == 1 then [v] + s else s + [v];
    forall i | 0 <= i < |s| + 1 ensures Elems(c, m, |s| + 1)[i] == want[i] {
      ElemAt(c, m, |s| + 1, i);
      Within(i, |s| + 1, m, |b|);
      if i < gap { OffsetOrder(i, gap, m); }
      if gap < i { OffsetOrder(gap, i, m); }
      GetPut(b, gap * m, m, v, i * m, m);
      if i != gap { assert ElemIn(b, (i - shift) + shift, |s| + 1, m) == s[i - shift]; }
    }
  }

  /** A value too wide for the encoding lies outside all the elements, on the side of its sign. */
  lemma WideValueIsExtreme(s: seq<int>, n: nat, v: int)
    requires IsWidth(n) && IsInt64(v) && ValueEncoding(v) > n && forall x | x in s :: InRange(x, n)
    ensures if v < 0 then Position(s, v, false, 0) else Position(s, v, false, |s|)
  {
    Limits();
    forall i | 0 <= i < |s| ensures InRange(s[i], n) { assert s[i] in s; }
  }

  lemma ElemsInRange(b: Buffer, n: nat, len: nat)
    requires n > 0 && len * n <= |b|
    ensures forall x | x in Elems(b, n, len) :: InRange(x, n)
  {
    hide Decode, Elems, InRange, Get;
    var s := Elems(b, n, len);
    forall x | x in s ensures InRange(x, n) {
      var i :| 0 <= i < |s| && s[i] == x;
      ElemAt(b, n, len, i);
      GetInRange(b, i * n, n);
    }
  }

  // ---------- the set ----------

  class Set {
    var encoding: nat
    var length: nat
    var contents: array<Byte>

    ghost predicate Sized()
      reads this, contents
    {
      IsWidth(encoding) && contents.Length == length * encoding
    }

    ghost function Values(): (s: seq<int>)
      reads this, contents
      requires Sized()
    {
      Elems(contents[..], encoding, length)
    }

    ghost predicate Valid()
      reads this, contents
    {
      Sized() && Increasing(Values())
    }

    /** The finite set of 64-bit integers that the buffer stands for. */
    ghost function Members(): set<int>
      reads this, contents
      requires Sized()
    {
      set x | x in Values()
    }

    /** `intsetNew`. */
    constructor ()
      ensures Valid() && Members() == {} && fresh(contents)
    {
      encoding, length := INT16, 0;
      contents := new Byte[0];
      new;
      assert Values() == [];
    }

    /** `_intsetGet`. */
    method GetAt(pos: nat) returns (v: int)
      requires Sized() && pos < length
      ensures v == Values()[pos]
    {
      Within(pos, length, encoding, contents.Length);
      v := Decode(contents[pos * encoding..pos * encoding + encoding]);
    }

    /** `intsetSearch`. */
    method Search(value: int) returns (found: bool, pos: nat)
      requires Valid()
      ensures Position(Values(), value, found, pos)
    {
      hide Decode, Elems;
      ghost var s := Values();
      assert |s| == length && Increasing(s);
      if length == 0 {
        return false, 0;
      }
      var last := GetAt(length - 1);
      if value > last {
        return false, length;
      }
      var first := GetAt(0);
      if value < first {
        return false, 0;
      }
      var min, max := 0, length - 1;
      while max >= min
        invariant 0 <= min <= length && -1 <= max < length && min <= max + 1
        invariant forall i | 0 <= i < min :: s[i] < value
        invariant forall i | max < i < length :: value < s[i]
        decreases max - min + 1
      {
        var mid := (min + max) / 2;
        var cur := GetAt(mid);
        if value > cur {
          min := mid + 1;
        } else if value < cur {
          max := mid - 1;
        } else {
          return true, mid;
        }
      }
      return false, min;
    }

    /** `intsetFind`. */
    method Contains(value: int) returns (found: bool)
      requires Valid() && IsInt64(value)
      ensures found <==> value in Members()
    {
      if ValueEncoding(value) > encoding {
        ElemsInRange(contents[..], encoding, length);
        WideValueIsExtreme(Values(), encoding, value);
        PositionDecides(Values(), value, false, if value < 0 then 0 else length);
        return false;
      }
      var pos;
      found, pos := Search(value);
      PositionDecides(Values(), value, found, pos);
    }

    /** `zrealloc` of the contents. */
    static method Resize(a: array<Byte>, size: nat) returns (b: array<Byte>)
      ensures fresh(b) && b.Length == size
      ensures var k := if a.Length < size then a.Length else size; b[..k] == a[..k]
    {
      b := new Byte[size](_ => 0);
      var i := 0;
      while i < size && i < a.Length
        invariant i <= size && i <= a.Length && b[..i] == a[..i]
      {
        b[i] := a[i];
        i := i + 1;
      }
    }

    /** `_intsetSet` at a byte offset. */
    static method Store(a: array<Byte>, off: nat, n: nat, v: int)
      requires off + n <= a.Length
      modifies a
      ensures a[..] == Put(old(a[..]), off, n, v)
    {
      hide Encode, Stored;
      ghost var b := a[..];
      var i, w := 0, v;
      ghost var e := Encode(v, n);
      StoredNone(b, e, off);
      while i < n
        invariant i <= n && e == e[..i] + Encode(w, n - i)
        invariant a[..] == Stored(b, e, off, i)
      {
        NextByte(e, i, w, n);
        StoreByte(b, e, off, i);
        a[off + i] := w % 256;
        w := w / 256;
        i := i + 1;
      }
      StoredAll(b, off, n, v);
    }

    /** `memmove`. */
    static method MoveBytes(a: array<Byte>, src: nat, dst: nat, count: nat)
      requires src + count <= a.Length && dst + count <= a.Length
      modifies a
      ensures a[..] == Move(old(a[..]), src, dst, count)
    {
      ghost var b := a[..];
      forall k | 0 <= k < count {
        a[dst + k] := a[src + k];
      }
      assert forall k | 0 <= k < a.Length :: a[k] == Move(b, src, dst, count)[k];
    }

    /** The back-to-front loop of `intsetUpgradeAndAdd`. */
    static method Widen(a: array<Byte>, len: nat, n: nat, m: nat, shift: nat, ghost s: seq<int>)
      requires IsWidth(n) && IsWidth(m) && n < m && shift <= 1 && len == |s|
      requires len * n <= a.Length && (len + 1) * m == a.Length && Upgrading(a[..], s, len, n, m, shift)
      modifies a
      ensures Upgrading(a[..], s, 0, n, m, shift)
    {
      hide Encode, Decode, Put, Upgrading;
      var i := len;
      while i > 0
        invariant 0 <= i <= len
        invariant Upgrading(a[..], s, i, n, m, shift)
      {
        UpgradeStep(a[..], s, i, n, m, shift);
        i := i - 1;
        var x := Decode(a[i * n..i * n + n]);
        assert a[i * n..i * n + n] == a[..][i * n..i * n + n];
        Store(a, (i + shift) * m, m, x);
      }
    }

    /** `intsetUpgradeAndAdd`. */
    method UpgradeAndAdd(value: int)
      requires Valid() && IsInt64(value) && ValueEncoding(value) > encoding
      modifies this
      ensures Valid() && fresh(contents) && encoding == ValueEncoding(value)
      ensures Values() == InsertAt(old(Values()), if value < 0 then 0 else old(length), value)
      ensures Members() == old(Members()) + {value} && value !in old(Members())
    {
      hide Encode, Decode, Elems, Put, Upgrading, Limit;
      var n, m := encoding, ValueEncoding(value);
      var shift := if value < 0 then 1 else 0;
      ghost var s, b := Values(), contents[..];
      ElemsInRange(b, n, length);
      WideValueIsExtreme(s, n, value);
      PositionDecides(s, value, false, if value < 0 then 0 else length);
      InsertKeepsOrder(s, value, if value < 0 then 0 else length);
      Widths(length, n, m);
      var a := Resize(contents, (length + 1) * m);
      assert a[..][..|b|] == b;
      UpgradeStart(b, n, length, a[..], m, shift);
      Widen(a, length, n, m, shift, s);
      EncodingFits(value, m);
      UpgradeEnd(a[..], s, n, m, shift, value);
      Store(a, if shift == 1 then 0 else length * m, m, value);
      encoding, length, contents := m, length + 1, a;
      assert Values() == InsertAt(s, if value < 0 then 0 else |s|, value);
    }

    /** `intsetAdd`. */
    method Add(value: int) returns (success: bool)
      requires Valid() && IsInt64(value)
      modifies this
      ensures Valid() && (contents == old(contents) || fresh(contents))
      ensures success <==> value !in old(Members())
      ensures Members() == old(Members()) + {value}
      ensures encoding == if ValueEncoding(value) > old(encoding) then ValueEncoding(value) else old(encoding)
    {
      hide Encode, Decode, Elems, Limit;
      if ValueEncoding(value) > encoding {
        UpgradeAndAdd(value);
        return true;
      }
      var found, pos := Search(value);
      PositionDecides(Values(), value, found, pos);
      if found {
        return false;
      }
      InsertNew(value, pos);
      return true;
    }

    /** The end of `intsetAdd`: grow by one, move the tail if there is one, store the value. */
    method InsertNew(value: int, pos: nat)
      requires Valid() && IsInt64(value) && ValueEncoding(value) <= encoding && Position(Values(), value, false, pos)
      modifies this`length, this`contents
      ensures Valid() && fresh(contents)
      ensures Values() == InsertAt(old(Values()), pos, value) && Members() == old(Members()) + {value}
    {
      hide Encode, Decode, Elems, Put, Move, Limit, Increasing;
      ghost var s, b := Values(), contents[..];
      InsertKeepsOrder(s, value, pos);
      EncodingFits(value, encoding);
      var n := encoding;
      Split(pos, length, n);
      var a := Resize(contents, (length + 1) * n);
      assert a[..][..|b|] == b;
      InsertBytes(b, n, length, pos, value, a[..]);
      if pos < length {
        MoveBytes(a, pos * n, pos * n + n, (length - pos) * n);
      } else {
        MoveNothing(a[..], pos * n, pos * n + n);
      }
      Store(a, pos * n, n, value);
      length, contents := length + 1, a;
      assert Values() == InsertAt(s, pos, value);
    }

    /** `intsetRemove`. */
    method Delete(value: int) returns (success: bool)
      requires Valid() && IsInt64(value)
      modifies this`length, this`contents, contents
      ensures Valid()
      ensures success <==> value in old(Members())
      ensures Members() == old(Members()) - {value} && encoding == old(encoding)
    {
      hide Encode, Decode, Elems, Move, Limit;
      if ValueEncoding(value) > encoding {
        ElemsInRange(contents[..], encoding, length);
        WideValueIsExtreme(Values(), encoding, value);
        PositionDecides(Values(), value, false, if value < 0 then 0 else length);
        return false;
      }
      var found, pos := Search(value);
      PositionDecides(Values(), value, found, pos);
      if !found {
        return false;
      }
      RemoveOld(value, pos);
      return true;
    }

    /** The end of `intsetRemove`: the tail moves over the element and the buffer shrinks. */
    method RemoveOld(value: int, pos: nat)
      requires Valid() && Position(Values(), value, true, pos)
      modifies this`length, this`contents, contents
      ensures Valid() && Values() == RemoveAt(old(Values()), pos) && Members() == old(Members()) - {value}
    {
      hide Encode, Decode, Elems, Move, Limit, Increasing;
      ghost var s, b := Values(), contents[..];
      RemoveKeepsOrder(s, value, pos);
      var n := encoding;
      RemoveBytes(b, n, length, pos);
      MulNonNegative(pos, n);
      MulNonNegative(length - 1, n);
      if pos < length - 1 {
        MoveBytes(contents, pos * n + n, pos * n, (length - pos - 1) * n);
      } else {
        MoveNothing(b, pos * n + n, pos * n);
      }
      var a := Resize(contents, (length - 1) * n);
      assert a[..] == Move(b, pos * n + n, pos * n, (length - pos - 1) * n)[..(length - 1) * n];
      length, contents := length - 1, a;
      assert Values() == RemoveAt(s, pos);
    }
  }

  /** The next byte of an encoding, and what is left of it. */
  lemma NextByte(e: Buffer, i: nat, w: int, n: nat)
    requires i < n && |e| == n && e == e[..i] + Encode(w, n - i)
    ensures e[i] == w % 256 && e == e[..i + 1] + Encode(w / 256, n - (i + 1))
  {
    var rest := Encode(w, n - i);
    assert rest == [w % 256] + Encode(w / 256, n - i - 1);
    assert e[i] == rest[0] && e[..i + 1] == e[..i] + [rest[0]];
  }

  /** A buffer into which the first `i` bytes of `e` have been written. */
  ghost function Stored(b: Buffer, e: Buffer, off: nat, i: nat): (c: Buffer)
    requires i <= |e| && off + |e| <= |b|
    ensures |c| == |b|
  {
    b[..off] + e[..i] + b[off + i..]
  }

  lemma StoredNone(b: Buffer, e: Buffer, off: nat)
    requires off + |e| <= |b|
    ensures Stored(b, e, off, 0) == b && e == e[..0] + e
  {
  }

  lemma StoreByte(b: Buffer, e: Buffer, off: nat, i: nat)
    requires i < |e| && off + |e| <= |b|
    ensures Stored(b, e, off, i)[off + i := e[i]] == Stored(b, e, off, i + 1)
  {
  }

  lemma StoredAll(b: Buffer, off: nat, n: nat, v: int)
    requires off + n <= |b|
    ensures Stored(b, Encode(v, n), off, n) == Put(b, off, n, v)
  {
    var e := Encode(v, n);
    assert e[..n] == e;
  }

  lemma MoveNothing(b: Buffer, src: nat, dst: nat)
    requires src <= |b| && dst <= |b|
    ensures Move(b, src, dst, 0) == b
  {
  }

  lemma Widths(len: nat, n: nat, m: nat)
    requires 0 < n < m
    ensures 0 <= len * n <= (len + 1) * m && len * n < (len + 1) * m
  {
    MulNonNegative(len, m - n);
    assert len * (m - n) == len * m - len * n;
    MulNonNegative(len, n);
  }
}
