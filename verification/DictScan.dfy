/**
 The stateless scan of dict.c.  A cursor is a word; one call emits the chains at the cursor and
 returns the cursor incremented from its high-order bit.  The position of a word is the number read
 from its bits in reverse, so that cursors advance through increasing positions.
 */
module DictScan {
  import opened Arith
  import opened Common
  import opened Words
  import opened DictModel

  // ---------- cursor arithmetic, as dictScan computes it ----------

  /** `v |= ~m0; v = rev(v); v++; v = rev(v);` */
  function NextCursor(v: Word, m0: Word): Word {
    Rev(Inc(Rev(Or(v, Not(m0)))))
  }

  /** `(((v | m0) + 1) & ~m0) | (v & m0)` */
  function ExpandStep(v: Word, m0: Word): Word {
    Or(And(Inc(Or(v, m0)), Not(m0)), And(v, m0))
  }

  /** The `sizemask` of a table with `n` buckets. */
  function SizeMask(v: Word, n: nat): Word
    requires n > 0
  {
    OfNat(|v|, n - 1)
  }

  // ---------- rev ----------

  /** The index that bit `i` comes from once the blocks of `p` bits have been put in reverse order. */
  ghost function Flip(p: int, i: int): int
    requires p > 0
  {
    WIDTH - p - (i - i % p) + i % p
  }

  /** Bit `i` lies in the upper half of its block of `2 * p` bits. */
  ghost predicate Upper(p: int, i: int)
    requires p > 0
  {
    i % (2 * p) >= p
  }

  /** Splitting every block of `2 * s` bits in two: where each half comes from, and the new mask. */
  lemma Halves(s: int, i: int)
    requires 0 < s && 0 <= i
    ensures !Upper(s, i) ==> Flip(s, i) == Flip(2 * s, i + s)
    ensures Upper(s, i) ==> i >= s && Flip(s, i) == Flip(2 * s, i - s)
    ensures Upper(s, i) <==> !Upper(2 * s, i) == (i >= s && !Upper(2 * s, i - s))
  {
    ModHalf(i, s);
    ModHalf(i, 2 * s);
    ModPlus(i, s, 2 * s);
    ModMinus(i, s, 2 * s);
    ModMinus(i, s, 4 * s);
    assert i < s ==> i % (4 * s) == i by {
      if i < s { DivModUnique(i, 4 * s, 0, i); }
    }
  }

  lemma FlipInRange(m: int, p: int, i: int)
    requires p > 0 && m * (2 * p) == WIDTH && 0 <= i < WIDTH
    ensures 0 <= Flip(p, i) < WIDTH && (!Upper(p, i) ==> i + p < WIDTH)
  {
    assert (2 * m) * p == WIDTH;
    BlockBound(2 * m, p, i);
    BlockBound(m, 2 * p, i);
  }

  ghost predicate Alternating(mask: Word, p: nat)
    requires p > 0
  {
    forall i | 0 <= i < |mask| :: mask[i] <==> !Upper(p, i)
  }

  ghost predicate Flipped(w: Word, v: Word, p: nat)
    requires p > 0
  {
    forall i | 0 <= i < |v| :: 0 <= Flip(p, i) < |w| && v[i] == w[Flip(p, i)]
  }

  /** One iteration of `rev`. */
  lemma SwapHalves(w: Word, v: Word, mask: Word, n: nat, s: nat)
    requires s > 0 && n * (2 * s) == |w| && Flipped(w, v, 2 * s) && Alternating(mask, 2 * s)
    ensures var m := Xor(mask, Shl(mask, s));
            && Alternating(m, s)
            && Flipped(w, Or(And(Shr(v, s), m), And(Shl(v, s), Not(m))), s)
  {
    hide Upper, Flip;
    var m := Xor(mask, Shl(mask, s));
    forall i | 0 <= i < |w| ensures m[i] <==> !Upper(s, i) { Halves(s, i); }
    var u := Or(And(Shr(v, s), m), And(Shl(v, s), Not(m)));
    forall i | 0 <= i < |u| ensures 0 <= Flip(s, i) < |w| && u[i] == w[Flip(s, i)] {
      Halves(s, i);
      FlipInRange(n, s, i);
    }
  }

  /** `rev`: swaps ever smaller blocks until single bits are in reverse order. */
  method Reverse(w: Word) returns (v: Word)
    ensures v == Rev(w)
  {
    hide Alternating, Flipped;
    v := w;
    var s := WIDTH / 2;
    var mask: Word := Ones(WIDTH);
    ghost var n, p: nat := 1, WIDTH;
    OneBlock(w, mask);
    while s > 0
      invariant s == 0 || s == 1 || s == 2 || s == 4 || s == 8 || s == 16 || s == 32
      invariant p == (if s == 0 then 1 else 2 * s) && n * p == |w|
      invariant Alternating(mask, p) && Flipped(w, v, p)
      decreases s
    {
      SwapHalves(w, v, mask, n, s);
      mask := Xor(mask, Shl(mask, s));
      v := Or(And(Shr(v, s), mask), And(Shl(v, s), Not(mask)));
      n, p, s := 2 * n, s, s / 2;
    }
    SingleBits(w, v);
  }

  lemma OneBlock(w: Word, mask: Word)
    requires mask == Ones(WIDTH)
    ensures Alternating(mask, WIDTH) && Flipped(w, w, WIDTH)
  {
  }

  lemma SingleBits(w: Word, v: Word)
    requires Flipped(w, v, 1)
    ensures v == Rev(w)
  {
    forall i | 0 <= i < |w| ensures v[i] == Rev(w)[i] { assert Flip(1, i) == |w| - 1 - i; }
  }

  // ---------- positions ----------

  ghost function Pos(w: Bits): nat {
    Val(Rev(w))
  }

  lemma PosBound(w: Bits)
    ensures Pos(w) < Pow2(|w|)
  {
    ValBound(Rev(w));
  }

  lemma PosInjective(x: Bits, y: Bits)
    requires |x| == |y| && Pos(x) == Pos(y)
    ensures x == y
  {
    ValInjective(Rev(x), Rev(y));
    RevRev(x);
    RevRev(y);
  }

  lemma PosConcat(x: Bits, y: Bits)
    ensures Pos(x + y) == Pos(x) * Pow2(|y|) + Pos(y)
  {
    hide Val, Pow2;
    RevConcat(x, y);
    assert |Rev(y)| == |y|;
    ValConcat(Rev(y), Rev(x));
    MulCommutes(Pow2(|y|), Val(Rev(x)));
  }

  lemma PosZeros(k: nat)
    ensures Pos(Zeros(k)) == 0
  {
    assert Rev(Zeros(k)) == Zeros(k);
    ValZeros(k);
  }

  /** The words that share the low `a` bits of `v` are exactly those in one interval of positions. */
  lemma BucketIsInterval(v: Word, h: Word, a: nat)
    requires a <= |v|
    ensures h[..a] == v[..a] <==>
            Pos(v[..a]) * Pow2(|v| - a) <= Pos(h) < (Pos(v[..a]) + 1) * Pow2(|v| - a)
  {
    hide Pos, Pow2;
    var p := Pow2(|v| - a);
    assert h == h[..a] + h[a..];
    PosConcat(h[..a], h[a..]);
    PosBound(h[a..]);
    var x, y, z := Pos(h[..a]), Pos(v[..a]), Pos(h[a..]);
    MulSucc(y, p);
    if y * p <= x * p + z < (y + 1) * p {
      MulGap(x, y, p);
      MulGap(y, x, p);
      PosInjective(h[..a], v[..a]);
    }
  }

  /** The next cursor starts where the interval of the current bucket ends. */
  lemma NextCursorPos(v: Word, a: nat)
    requires a <= |v|
    ensures Pos(NextCursor(v, SizeMask(v, Pow2(a)))) ==
            if Pos(v[..a]) + 1 == Pow2(a) then 0 else (Pos(v[..a]) + 1) * Pow2(|v| - a)
  {
    hide Val, Pow2, Rev, Inc, NextCursor, SizeMask;
    var k, u := |v|, Rev(v[..a]);
    NextCursorBits(v, a);
    ValAbove(k - a, Inc(u));
    ValInc(u);
  }

  lemma ValAbove(k: nat, w: Bits)
    ensures Val(Zeros(k) + w) == Val(w) * Pow2(k)
  {
    hide Val, Pow2;
    ValConcat(Zeros(k), w);
    ValZeros(k);
    MulCommutes(Pow2(k), Val(w));
  }

  lemma NextCursorBits(v: Word, a: nat)
    requires a <= |v|
    ensures Rev(NextCursor(v, SizeMask(v, Pow2(a)))) == Zeros(|v| - a) + Inc(Rev(v[..a]))
  {
    hide Rev, Inc, Pow2, OfNat;
    var k := |v|;
    var w := Or(v, Not(SizeMask(v, Pow2(a))));
    MaskBits(k, a);
    assert w == v[..a] + Ones(k - a);
    RevConcat(v[..a], Ones(k - a));
    RevOnes(k - a);
    IncOnes(k - a, Rev(v[..a]));
    RevRev(Inc(Rev(w)));
  }

  /** Only the bits under the mask decide the next cursor. */
  lemma NextCursorLow(v: Word, w: Word, a: nat)
    requires a <= |v| && v[..a] == w[..a]
    ensures NextCursor(v, SizeMask(v, Pow2(a))) == NextCursor(w, SizeMask(w, Pow2(a)))
  {
    hide NextCursor, Rev, Inc, Pow2;
    NextCursorBits(v, a);
    NextCursorBits(w, a);
    RevRev(NextCursor(v, SizeMask(v, Pow2(a))));
    RevRev(NextCursor(w, SizeMask(w, Pow2(a))));
  }

  lemma RevOnes(k: nat)
    ensures Rev(Ones(k)) == Ones(k)
  {
  }

  // ---------- expansions into the larger table ----------

  lemma {:induction false} IncPrefix(w: Bits, k: nat)
    requires k <= |w|
    ensures Inc(w)[..k] == Inc(w[..k])
  {
    if k > 0 {
      assert w[..k][1..] == w[1..][..k - 1];
      IncPrefix(w[1..], k - 1);
    }
  }

  /** Stepping leaves the low bits alone and increments the bits between the two masks. */
  lemma ExpandStepBits(v: Word, a: nat, b: nat)
    requires a <= b <= |v|
    ensures var n := ExpandStep(v, SizeMask(v, Pow2(a)));
            n[..a] == v[..a] && n[a..b] == Inc(v[a..b])
  {
    hide Inc, Pow2, OfNat;
    var m0 := SizeMask(v, Pow2(a));
    MaskBits(|v|, a);
    assert Or(v, m0) == Ones(a) + v[a..];
    IncOnes(a, v[a..]);
    var n := ExpandStep(v, m0);
    assert n == v[..a] + Inc(v[a..]);
    IncPrefix(v[a..], b - a);
    assert v[a..][..b - a] == v[a..b];
    assert n[a..b] == Inc(v[a..])[..b - a];
  }

  /** The loop condition `v & (m0 ^ m1)` tests the bits between the two masks. */
  lemma MaskDifference(v: Word, a: nat, b: nat)
    requires a <= b <= |v|
    ensures And(v, Xor(SizeMask(v, Pow2(a)), SizeMask(v, Pow2(b)))) == Zeros(|v|) <==> v[a..b] == Zeros(b - a)
  {
    hide Pow2, OfNat;
    MaskBits(|v|, a);
    MaskBits(|v|, b);
    var w := And(v, Xor(SizeMask(v, Pow2(a)), SizeMask(v, Pow2(b))));
    assert forall i | 0 <= i < |v| :: w[i] == (a <= i < b && v[i]);
    if v[a..b] == Zeros(b - a) {
      forall i | a <= i < b ensures !v[i] { assert v[a..b][i - a] == Zeros(b - a)[i - a]; }
      assert w == Zeros(|v|);
    }
    if w == Zeros(|v|) {
      forall i | a <= i < b ensures !v[i] { assert w[i] == Zeros(|v|)[i]; }
      assert v[a..b] == Zeros(b - a);
    }
  }

  lemma StepGrows(v: Word, a: nat, b: nat)
    requires a < b <= |v|
    ensures var n := ExpandStep(v, SizeMask(v, Pow2(a)));
            if n[a..b] == Zeros(b - a) then Val(v[a..b]) + 1 == Pow2(b - a)
            else Val(n[a..b]) == Val(v[a..b]) + 1 < Pow2(b - a)
  {
    hide Val, Pow2, Inc, ExpandStep;
    var n := ExpandStep(v, SizeMask(v, Pow2(a)));
    ExpandStepBits(v, a, b);
    ValInc(v[a..b]);
    ValBound(n[a..b]);
    ValZeros(b - a);
    if Val(n[a..b]) == 0 { ValInjective(n[a..b], Zeros(b - a)); }
  }

  /** The cursors at which the do-while loop reads the larger table. */
  ghost function Expansion(v: Word, a: nat, b: nat): (cs: seq<Word>)
    requires a < b <= |v|
    decreases Pow2(b - a) - Val(v[a..b])
  {
    var n := ExpandStep(v, SizeMask(v, Pow2(a)));
    StepGrows(v, a, b);
    if n[a..b] == Zeros(b - a) then [v] else [v] + Expansion(n, a, b)
  }

  ghost predicate Visits(cs: seq<Word>, h: Word, b: nat)
    requires b <= |h|
  {
    exists c | c in cs :: c[..b] == h[..b]
  }

  /** Of the buckets that extend the cursor's low bits, the loop reads those numerically at or above it. */
  lemma {:induction false} ExpansionCovers(v: Word, h: Word, a: nat, b: nat)
    requires a < b <= |v| && h[..a] == v[..a]
    ensures Visits(Expansion(v, a, b), h, b) <==> Val(h[a..b]) >= Val(v[a..b])
    decreases Pow2(b - a) - Val(v[a..b])
  {
    hide Val, Pow2, ExpandStep;
    var n := ExpandStep(v, SizeMask(v, Pow2(a)));
    StepGrows(v, a, b);
    ExpandStepBits(v, a, b);
    ValBound(h[a..b]);
    SameLowBits(v, h, a, b);
    if n[a..b] == Zeros(b - a) {
      assert v in Expansion(v, a, b);
    } else {
      ExpansionCovers(n, h, a, b);
      assert Expansion(v, a, b) == [v] + Expansion(n, a, b);
      assert v in Expansion(v, a, b);
    }
  }

  lemma SameLowBits(v: Word, h: Word, a: nat, b: nat)
    requires a < b <= |v| && h[..a] == v[..a]
    ensures v[..b] == h[..b] <==> Val(v[a..b]) == Val(h[a..b])
  {
    hide Val;
    assert v[..b] == v[..a] + v[a..b] && h[..b] == h[..a] + h[a..b];
    if Val(v[a..b]) == Val(h[a..b]) { ValInjective(v[a..b], h[a..b]); }
    if v[..b] == h[..b] { assert v[..b][a..] == v[a..b] && h[..b][a..] == h[a..b]; }
  }

  // ---------- when the numeric order of the loop agrees with the scan order ----------

  /** Read from the low end: ones, then zeros.  Numerically, one less than a power of two. */
  ghost predicate OnesThenZeros(m: Bits) {
    forall i, j | 0 <= i < j < |m| :: m[j] ==> m[i]
  }

  lemma PosHead(w: Bits)
    requires w != []
    ensures Pos(w) == Bit(w[0]) * Pow2(|w| - 1) + Pos(w[1..])
  {
    hide Pos, Pow2;
    assert w == [w[0]] + w[1..];
    PosConcat([w[0]], w[1..]);
    PosSingle(w[0]);
  }

  lemma PosSingle(b: bool)
    ensures Pos([b]) == Bit(b)
  {
    var w := Rev([b]);
    assert w == [b] && w[1..] == [];
    assert Val(w) == Bit(b) + 2 * Val(w[1..]);
  }

  lemma {:induction false} OrdersAgree(x: Bits, m: Bits)
    requires |x| == |m| && OnesThenZeros(m) && Val(x) < Val(m)
    ensures Pos(x) < Pos(m)
  {
    if m != [] {
      PosHead(x);
      PosHead(m);
      PosBound(x[1..]);
      if !m[0] {
        assert m == Zeros(|m|);
        ValZeros(|m|);
      } else if x[0] {
        OrdersAgree(x[1..], m[1..]);
      }
    }
  }

  lemma {:induction false} ValSet(w: Bits, i: nat)
    requires i < |w| && !w[i]
    ensures Val(w[i := true]) == Val(w) + Pow2(i)
  {
    if i == 0 {
      assert w[0 := true][1..] == w[1..];
    } else {
      assert w[i := true][1..] == w[1..][i - 1 := true];
      ValSet(w[1..], i - 1);
    }
  }

  lemma PosSet(w: Bits, i: nat)
    requires i < |w| && !w[i]
    ensures Pos(w[i := true]) == Pos(w) + Pow2(|w| - 1 - i)
  {
    hide Val, Pow2;
    assert Rev(w[i := true]) == Rev(w)[|w| - 1 - i := true];
    ValSet(Rev(w), |w| - 1 - i);
  }

  /** Otherwise moving a one below a zero gives a smaller number at a later position. */
  lemma OrdersDisagree(m: Bits, i: nat, j: nat) returns (x: Bits)
    requires i < j < |m| && !m[i] && m[j]
    ensures |x| == |m| && Val(x) < Val(m) && Pos(x) > Pos(m)
  {
    hide Val, Pow2, Pos;
    var base := m[j := false];
    x := base[i := true];
    assert base[j := true] == m;
    ValSet(base, i);
    ValSet(base, j);
    PosSet(base, i);
    PosSet(base, j);
    Pow2Strict(i, j);
    Pow2Strict(|m| - 1 - j, |m| - 1 - i);
  }

  lemma Pow2Strict(a: nat, b: nat)
    requires a < b
    ensures Pow2(a) < Pow2(b)
  {
    Pow2Monotone(a + 1, b);
  }

  /**
   The loop reads every bucket that is still due, whatever the hash, exactly when the cursor bits
   between the two masks are ones followed by zeros.
   */
  lemma LoopCoversIff(v: Word, a: nat, b: nat)
    requires a < b <= |v|
    ensures (forall h: Word | h[..a] == v[..a] && Pos(h) >= Pos(v) :: Visits(Expansion(v, a, b), h, b))
            <==> OnesThenZeros(v[a..b])
  {
    hide Val, Pow2, Pos, Expansion, Visits;
    var m := v[a..b];
    if OnesThenZeros(m) {
      forall h: Word | h[..a] == v[..a] && Pos(h) >= Pos(v) ensures Visits(Expansion(v, a, b), h, b) {
        ExpansionCovers(v, h, a, b);
        if Val(h[a..b]) < Val(m) {
          OrdersAgree(h[a..b], m);
          MiddleOrder(h, v, a, b);
        }
      }
    } else {
      var i, j :| 0 <= i < j < |m| && m[j] && !m[i];
      var x := OrdersDisagree(m, i, j);
      var h: Word := v[..a] + x + v[b..];
      assert h[..a] == v[..a] && h[a..b] == x && h[b..] == v[b..];
      MiddleOrder(v, h, a, b);
      ExpansionCovers(v, h, a, b);
    }
  }

  /** With equal low bits, the bits between the masks decide the order of positions. */
  lemma MiddleOrder(x: Word, y: Word, a: nat, b: nat)
    requires a < b <= |x| && x[..a] == y[..a] && Pos(x[a..b]) < Pos(y[a..b])
    ensures Pos(x) < Pos(y)
  {
    hide Pos, Pow2;
    var p, q := Pow2(b - a), Pow2(|x| - b);
    assert x == (x[..a] + x[a..b]) + x[b..] && y == (y[..a] + y[a..b]) + y[b..];
    PosConcat(x[..a] + x[a..b], x[b..]);
    PosConcat(y[..a] + y[a..b], y[b..]);
    PosConcat(x[..a], x[a..b]);
    PosConcat(y[..a], y[a..b]);
    PosBound(x[b..]);
    MulGap(Pos(x[..a] + x[a..b]), Pos(y[..a] + y[a..b]), q);
  }

  /** A size ratio of two, or a cursor within the smaller table, always meets the condition. */
  lemma SafeCursors(v: Word, a: nat, b: nat)
    requires a < b <= |v|
    ensures b == a + 1 || v[a..b] == Zeros(b - a) ==> OnesThenZeros(v[a..b])
  {
    if v[a..b] == Zeros(b - a) {
      forall j | 0 <= j < b - a ensures !v[a..b][j] { assert v[a..b][j] == Zeros(b - a)[j]; }
    }
  }

  // ---------- one call ----------

  ghost function Log(n: nat): (a: nat)
    requires IsPow2(n)
    ensures a <= WIDTH && n == Pow2(a)
  {
    var a: nat :| a <= WIDTH && n == Pow2(a);
    a
  }

  ghost function Smaller<K, V>(d: Dict<K, V>): Buckets<K, V> {
    if Rehashing(d) && |d.ht0| > |d.ht1| then d.ht1 else d.ht0
  }

  ghost function Larger<K, V>(d: Dict<K, V>): Buckets<K, V> {
    if Rehashing(d) && |d.ht0| > |d.ht1| then d.ht0 else d.ht1
  }

  /** The exponents of the two table sizes. */
  ghost function LowBits<K, V>(d: Dict<K, V>): (a: nat)
    requires Shape(d) && |d.ht0| > 0
    ensures a <= WIDTH && |Smaller(d)| == Pow2(a)
  {
    Log(|Smaller(d)|)
  }

  ghost function HighBits<K, V>(d: Dict<K, V>): (b: nat)
    requires Shape(d) && Rehashing(d)
    ensures LowBits(d) < b <= WIDTH && |Larger(d)| == Pow2(b)
  {
    var b := Log(|Larger(d)|);
    if b <= LowBits(d) then Pow2Monotone(b, LowBits(d)); b else b
  }

  function ChainAt<K, V>(t: Buckets<K, V>, v: Word): Chain<K, V> {
    if |t| > 0 && Index(v, |t|) < |t| then t[Index(v, |t|)] else []
  }

  function ChainsAt<K, V>(t: Buckets<K, V>, cs: seq<Word>): Chain<K, V> {
    if cs == [] then [] else ChainAt(t, cs[0]) + ChainsAt(t, cs[1..])
  }

  /** The entries one call of `dictScan` passes to the callback. */
  ghost function Emitted<K, V>(d: Dict<K, V>, v: Word): Chain<K, V>
    requires Shape(d)
  {
    if d.used0 + d.used1 == 0 || |d.ht0| == 0 then []
    else if !Rehashing(d) then ChainAt(d.ht0, v)
    else ChainAt(Smaller(d), v) + ChainsAt(Larger(d), Expansion(v, LowBits(d), HighBits(d)))
  }

  /** The cursor one call of `dictScan` returns. */
  ghost function Next<K, V>(d: Dict<K, V>, v: Word): Word
    requires Shape(d)
  {
    if d.used0 + d.used1 == 0 || |d.ht0| == 0 then Zeros(|v|)
    else NextCursor(v, SizeMask(v, |Smaller(d)|))
  }

  /** The condition on a call made while rehashing. */
  ghost predicate SafeCall<K, V>(d: Dict<K, V>, v: Word)
    requires Shape(d)
  {
    Rehashing(d) ==> OnesThenZeros(v[LowBits(d)..HighBits(d)])
  }

  ghost predicate Emits<K, V>(c: Chain<K, V>, k: K) {
    exists e | e in c :: e.key == k
  }

  // ---------- coverage over a whole scan ----------

  lemma SameChain(v: Word, h: Word, a: nat)
    requires a <= |v|
    ensures Index(v, Pow2(a)) == Index(h, Pow2(a)) <==> v[..a] == h[..a]
    ensures Index(v, Pow2(a)) < Pow2(a)
  {
    hide Val, Pow2, Index;
    IndexIsPrefix(v, a);
    IndexIsPrefix(h, a);
    if Val(v[..a]) == Val(h[..a]) { ValInjective(v[..a], h[..a]); }
  }

  lemma SameMask(v: Word, w: Word, a: nat)
    ensures SizeMask(v, Pow2(a)) == SizeMask(w, Pow2(a))
  {
  }

  /** One round of the loop over the larger table. */
  lemma LoopStep<K, V>(t: Buckets<K, V>, v: Word, a: nat, b: nat)
    requires a < b <= |v| && |t| == Pow2(b)
    ensures Index(v, |t|) < |t|
    ensures var n := ExpandStep(v, SizeMask(v, Pow2(a)));
            var more := And(n, Xor(SizeMask(n, Pow2(a)), SizeMask(n, Pow2(b)))) != Zeros(|n|);
            && n[..a] == v[..a]
            && (more ==> Val(n[a..b]) == Val(v[a..b]) + 1 < Pow2(b - a))
            && ChainsAt(t, Expansion(v, a, b)) ==
                 t[Index(v, |t|)] + if more then ChainsAt(t, Expansion(n, a, b)) else []
  {
    hide Pow2, Val, Index, ExpandStep, SizeMask, And, Xor;
    var n := ExpandStep(v, SizeMask(v, Pow2(a)));
    SameChain(v, v, b);
    StepGrows(v, a, b);
    ExpandStepBits(v, a, b);
    MaskDifference(n, a, b);
    if n[a..b] != Zeros(b - a) {
      var cs := [v] + Expansion(n, a, b);
      assert cs[1..] == Expansion(n, a, b);
    } else {
      assert [v][1..] == [];
    }
  }

  lemma {:induction false} InChainsAt<K, V>(t: Buckets<K, V>, cs: seq<Word>, c: Word, e: Entry<K, V>)
    requires c in cs && e in ChainAt(t, c)
    ensures e in ChainsAt(t, cs)
  {
    if cs[0] != c { InChainsAt(t, cs[1..], c, e); }
  }

  /** A key whose hash the cursor has not passed is emitted if its low bits are the cursor's. */
  lemma EmitsDue<K, V>(hash: K -> Word, d: Dict<K, V>, v: Word, k: K)
    requires Shape(d) && Find(hash, d, k).Some? && |d.ht0| > 0 && d.used0 + d.used1 > 0
    requires SafeCall(d, v) && Pos(v) <= Pos(hash(k))
    requires hash(k)[..LowBits(d)] == v[..LowBits(d)]
    ensures Emits(Emitted(d, v), k)
  {
    hide Index, Pow2, Pos, Expansion, OnesThenZeros;
    var h, a := hash(k), LowBits(d);
    var e := Entry(k, Find(hash, d, k).value);
    SameChain(v, h, a);
    FindSplit(hash, d, k);
    ChainFindIff(Bucket(hash, Smaller(d), k), k);
    if e in Bucket(hash, Smaller(d), k) {
      assert e in ChainAt(Smaller(d), v);
    } else {
      ChainFindIff(Bucket(hash, Larger(d), k), k);
      assert e in Bucket(hash, Larger(d), k);
      var b := HighBits(d);
      LoopCoversIff(v, a, b);
      assert Visits(Expansion(v, a, b), h, b);
      var c :| c in Expansion(v, a, b) && c[..b] == h[..b];
      SameChain(c, h, b);
      InChainsAt(Larger(d), Expansion(v, a, b), c, e);
    }
  }

  /** A call passes no hash that is still due without emitting its key. */
  lemma CallAdvances<K, V>(hash: K -> Word, d: Dict<K, V>, v: Word, k: K)
    requires Inv(hash, d) && Find(hash, d, k).Some?
    requires SafeCall(d, v) && Pos(v) <= Pos(hash(k))
    ensures Emits(Emitted(d, v), k) || 0 < Pos(Next(d, v)) <= Pos(hash(k))
  {
    FoundIsCounted(hash, d, k);
    hide Inv, Find, Pow2, Pos, OnesThenZeros, Emitted, NextCursor;
    assert Shape(d) by { InvShape(hash, d); }
    var h, a := hash(k), LowBits(d);
    if h[..a] == v[..a] {
      EmitsDue(hash, d, v, k);
    } else {
      NextStaysBelow(v, h, a);
    }
  }

  /** If a due word is not in the cursor's bucket, the next cursor does not pass it. */
  lemma NextStaysBelow(v: Word, h: Word, a: nat)
    requires a <= |v| && h[..a] != v[..a] && Pos(v) <= Pos(h)
    ensures 0 < Pos(NextCursor(v, SizeMask(v, Pow2(a)))) <= Pos(h)
  {
    hide Pow2, Pos, NextCursor;
    var y, p := Pos(v[..a]), Pow2(|v| - a);
    BucketIsInterval(v, h, a);
    BucketIsInterval(v, v, a);
    NextCursorPos(v, a);
    PosBound(h);
    Pow2Add(a, |v| - a);
    assert y + 1 != Pow2(a);
    MulPositive(y + 1, p);
  }

  lemma InvShape<K, V>(hash: K -> Word, d: Dict<K, V>)
    requires Inv(hash, d)
    ensures Shape(d)
  {
  }

  lemma FoundIsCounted<K, V>(hash: K -> Word, d: Dict<K, V>, k: K)
    requires Inv(hash, d) && Find(hash, d, k).Some?
    ensures d.used0 + d.used1 > 0 && |d.ht0| > 0
  {
    FindSplit(hash, d, k);
    if ChainFind(Bucket(hash, d.ht0, k), k).Some? {
      UsedWhenFound(hash, d.ht0, k);
    } else {
      UsedWhenFound(hash, d.ht1, k);
    }
  }

  /**
   A whole scan: `ds[i]` is the dictionary at call `i`, with anything done to it between calls,
   and `vs[i]` the cursor passed.  It starts at zero and ends at the first zero returned.
   */
  ghost predicate Scan<K, V>(hash: K -> Word, ds: seq<Dict<K, V>>, vs: seq<Word>) {
    && |ds| > 0 && |vs| == |ds| + 1
    && (forall i | 0 <= i < |ds| :: Inv(hash, ds[i]) && vs[i + 1] == Next(ds[i], vs[i]))
    && vs[0] == Zeros(WIDTH) && vs[|ds|] == Zeros(WIDTH)
    && (forall i | 0 < i < |ds| :: vs[i] != Zeros(WIDTH))
  }

  /** Every key present at every call of a scan is emitted by some call. */
  lemma ScanCoversKeys<K, V>(hash: K -> Word, ds: seq<Dict<K, V>>, vs: seq<Word>, k: K)
    requires Scan(hash, ds, vs)
    requires forall i | 0 <= i < |ds| :: Find(hash, ds[i], k).Some?
    requires forall i | 0 <= i < |ds| :: SafeCall(ds[i], vs[i])
    ensures exists i :: 0 <= i < |ds| && Emits(Emitted(ds[i], vs[i]), k)
  {
    PosZeros(WIDTH);
    if forall i | 0 <= i < |ds| :: !Emits(Emitted(ds[i], vs[i]), k) {
      CursorStaysBelow(hash, ds, vs, k, |ds|);
      assert false;
    }
  }

  ghost predicate NoShrink<K, V>(ds: seq<Dict<K, V>>) {
    forall i | 0 < i < |ds| :: |Smaller(ds[i - 1])| <= |Smaller(ds[i])|
  }

  /** Without a shrink between calls, the cursor has no bits above the smaller mask: nothing is ever missed. */
  lemma ScanWithoutShrink<K, V>(hash: K -> Word, ds: seq<Dict<K, V>>, vs: seq<Word>, k: K)
    requires Scan(hash, ds, vs)
    requires forall i | 0 <= i < |ds| :: Find(hash, ds[i], k).Some?
    requires NoShrink(ds)
    ensures exists i :: 0 <= i < |ds| && Emits(Emitted(ds[i], vs[i]), k)
  {
    hide Inv, Find, Emitted, Emits, Next, SafeCall, Smaller;
    forall i | 0 <= i < |ds|
      ensures Shape(ds[i]) && SafeCall(ds[i], vs[i])
    {
      InvShape(hash, ds[i]);
      if i == 0 {
        SafeWithin(ds[0], vs[0], 0);
      } else {
        var d := ds[i - 1];
        FoundIsCounted(hash, d, k);
        InvShape(hash, d);
        NextGrows(d, vs[i - 1]);
        assert vs[(i - 1) + 1] == Next(d, vs[i - 1]);
        LowBitsGrow(hash, d, ds[i], k);
        SafeWithin(ds[i], vs[i], LowBits(d));
      }
    }
    ScanCoversKeys(hash, ds, vs, k);
  }

  lemma LowBitsGrow<K, V>(hash: K -> Word, d: Dict<K, V>, e: Dict<K, V>, k: K)
    requires Inv(hash, d) && Inv(hash, e) && Find(hash, d, k).Some? && Find(hash, e, k).Some?
    requires |Smaller(d)| <= |Smaller(e)|
    ensures Shape(d) && Shape(e) && |d.ht0| > 0 && |e.ht0| > 0 && LowBits(d) <= LowBits(e)
  {
    FoundIsCounted(hash, d, k);
    FoundIsCounted(hash, e, k);
    hide Inv, Find, Pow2, Smaller;
    InvShape(hash, d);
    InvShape(hash, e);
    if LowBits(e) < LowBits(d) { Pow2Strict(LowBits(e), LowBits(d)); }
  }

  /** A cursor without bits from some position of the smaller mask on meets the condition of a call. */
  lemma SafeWithin<K, V>(d: Dict<K, V>, v: Word, a: nat)
    requires Shape(d) && a <= WIDTH && v[a..] == Zeros(WIDTH - a) && (Rehashing(d) ==> a <= LowBits(d))
    ensures SafeCall(d, v)
  {
    if Rehashing(d) {
      var l, b := LowBits(d), HighBits(d);
      forall j | 0 <= j < b - l ensures !v[l..b][j] { assert v[l..b][j] == v[a..][l - a + j]; }
      assert v[l..b] == Zeros(b - l);
      SafeCursors(v, l, b);
    }
  }

  lemma {:induction false} CursorStaysBelow<K, V>(hash: K -> Word, ds: seq<Dict<K, V>>, vs: seq<Word>, k: K, n: nat)
    requires Scan(hash, ds, vs) && n <= |ds|
    requires forall i | 0 <= i < |ds| :: Find(hash, ds[i], k).Some? && SafeCall(ds[i], vs[i])
    requires forall i | 0 <= i < n :: !Emits(Emitted(ds[i], vs[i]), k)
    ensures Pos(vs[n]) <= Pos(hash(k)) && (n > 0 ==> Pos(vs[n]) > 0)
  {
    hide Inv, Find, Pos, Emitted, Emits, SafeCall, Next;
    if n == 0 {
      PosZeros(WIDTH);
    } else {
      CursorStaysBelow(hash, ds, vs, k, n - 1);
      CallAdvances(hash, ds[n - 1], vs[n - 1], k);
    }
  }

  /** What a call emits is in the dictionary. */
  lemma EmittedArePresent<K, V>(hash: K -> Word, d: Dict<K, V>, v: Word, e: Entry<K, V>)
    requires Inv(hash, d) && e in Emitted(d, v)
    ensures Find(hash, d, e.key) == Some(e.val)
  {
    FindSplit(hash, d, e.key);
    OneTable(hash, d, e.key);
    if Rehashing(d) && e in ChainsAt(Larger(d), Expansion(v, LowBits(d), HighBits(d))) {
      var c := FromChainsAt(Larger(d), Expansion(v, LowBits(d), HighBits(d)), e);
      ChainAtIsBucket(hash, Larger(d), c, e);
    } else {
      ChainAtIsBucket(hash, Smaller(d), v, e);
    }
  }

  lemma {:induction false} FromChainsAt<K, V>(t: Buckets<K, V>, cs: seq<Word>, e: Entry<K, V>) returns (c: Word)
    requires e in ChainsAt(t, cs)
    ensures c in cs && e in ChainAt(t, c)
  {
    if e in ChainAt(t, cs[0]) { c := cs[0]; } else { c := FromChainsAt(t, cs[1..], e); }
  }

  lemma ChainAtIsBucket<K, V>(hash: K -> Word, t: Buckets<K, V>, v: Word, e: Entry<K, V>)
    requires Placed(hash, t) && AllDistinct(t) && e in ChainAt(t, v)
    ensures ChainFind(Bucket(hash, t, e.key), e.key) == Some(e.val)
  {
    InBucket(hash, t, Index(v, |t|), e);
    ChainFindMember(ChainAt(t, v), e);
  }

  lemma {:induction false} ChainFindMember<K, V>(c: Chain<K, V>, e: Entry<K, V>)
    requires Distinct(c) && e in c
    ensures ChainFind(c, e.key) == Some(e.val)
  {
    if c[0] != e {
      assert e in c[1..];
      ChainFindMember(c[1..], e);
    }
  }

  // ---------- a shrink by four or more can lose a key ----------

  lemma NextGrows<K, V>(d: Dict<K, V>, v: Word)
    requires Shape(d) && |d.ht0| > 0 && d.used0 + d.used1 > 0
    ensures Next(d, v)[LowBits(d)..] == Zeros(|v| - LowBits(d))
    ensures Next(d, v) != Zeros(|v|) ==> Pos(v) < Pos(Next(d, v)) < Pow2(|v|)
  {
    hide Pow2, Pos, NextCursor, Rev, Inc;
    var a, n := LowBits(d), Next(d, v);
    NextCursorBits(v, a);
    RevRev(n);
    RevConcat(Zeros(|v| - a), Inc(Rev(v[..a])));
    RevZeros(|v| - a);
    NextCursorPos(v, a);
    BucketIsInterval(v, v, a);
    PosBound(n);
    if Pos(n) == 0 {
      PosZeros(|v|);
      PosInjective(n, Zeros(|v|));
    }
  }

  lemma RevZeros(k: nat)
    ensures Rev(Zeros(k)) == Zeros(k)
  {
  }

  /** The cursors of a scan continued from `v` on an unchanging dictionary. */
  ghost function CursorsFrom<K, V>(d: Dict<K, V>, v: Word): (vs: seq<Word>)
    requires Shape(d) && |d.ht0| > 0 && d.used0 + d.used1 > 0
    ensures |vs| >= 2 && vs[0] == v && Follows(d, vs)
    decreases Pow2(|v|) - Pos(v)
  {
    hide Pow2, Pos, Shape, Next, Zeros, Follows;
    var n := Next(d, v);
    NextGrows(d, v);
    if n == Zeros(|v|) then OneCall(d, v); [v, n]
    else
      var rest := CursorsFrom(d, n);
      MoreCalls(d, v, rest);
      [v] + rest
  }

  /** A scan from the first of these cursors that ends with the last, which is the first to be zero again. */
  ghost predicate Follows<K, V>(d: Dict<K, V>, vs: seq<Word>)
    requires Shape(d)
  {
    && |vs| >= 2 && vs[|vs| - 1] == Zeros(|vs[0]|)
    && (forall i | 0 <= i < |vs| - 1 :: vs[i + 1] == Next(d, vs[i]))
    && (forall i | 0 < i < |vs| - 1 :: vs[i] != Zeros(|vs[0]|))
  }

  lemma OneCall<K, V>(d: Dict<K, V>, v: Word)
    requires Shape(d) && Next(d, v) == Zeros(|v|)
    ensures Follows(d, [v, Next(d, v)])
  {
    hide Next, Zeros, Shape;
  }

  lemma MoreCalls<K, V>(d: Dict<K, V>, v: Word, rest: seq<Word>)
    requires Shape(d) && Follows(d, rest) && rest[0] == Next(d, v) && rest[0] != Zeros(|v|)
    ensures Follows(d, [v] + rest)
  {
    hide Next, Zeros, Shape;
    var vs := [v] + rest;
    forall i | 0 <= i < |vs| - 1 ensures vs[i + 1] == Next(d, vs[i]) {
      if i > 0 { assert rest[(i - 1) + 1] == Next(d, rest[i - 1]); }
    }
  }

  function Self(w: Word): Word {
    w
  }

  /** A table whose only entry, for the word `h` as its own hash, is in its bucket. */
  ghost function Lone(h: Word, size: nat): (t: Buckets<Word, ()>)
    requires size > 0 && Index(h, size) < size
    ensures |t| == size
  {
    EmptyTable(size)[Index(h, size) := [Entry(h, ())]]
  }

  lemma LoneInv(h: Word, size: nat, small: nat)
    requires TableSize(size) && Index(h, size) < size
    requires small == 0 || (TableSize(small) && small != size)
    ensures var d := Dict(Lone(h, size), 1, EmptyTable(small), 0, if small == 0 then -1 else 0, 0);
            Inv(Self, d) && Find(Self, d, h).Some?
  {
    var t := Lone(h, size);
    TotalEmpty<Word, ()>(size);
    TotalEmpty<Word, ()>(small);
    TotalUpdate(EmptyTable<Word, ()>(size), Index(h, size), [Entry(h, ())]);
    assert Bucket(Self, t, h) == [Entry(h, ())];
    var d := Dict(t, 1, EmptyTable(small), 0, if small == 0 then -1 else 0, 0);
    FindSplit(Self, d, h);
  }

  lemma LoneChain(h: Word, c: Word, b: nat)
    requires b <= |h| && Index(h, Pow2(b)) < Pow2(b) && c[..b] != h[..b]
    ensures ChainAt(Lone(h, Pow2(b)), c) == []
  {
    SameChain(c, h, b);
  }

  lemma {:induction false} LoneChains(h: Word, cs: seq<Word>, b: nat)
    requires b <= |h| && Index(h, Pow2(b)) < Pow2(b) && !Visits(cs, h, b)
    ensures ChainsAt(Lone(h, Pow2(b)), cs) == []
  {
    hide Index, Pow2, Lone;
    if cs != [] {
      assert forall c | c in cs[1..] :: c in cs;
      LoneChains(h, cs[1..], b);
      LoneChain(h, cs[0], b);
    }
  }

  /** After any cursor that the smaller mask returned, the loop does not read the bucket of a lone word below it. */
  lemma LoneNotRead(h: Word, a: nat, b: nat, c: Word)
    requires a < b <= |h| && Index(h, Pow2(b)) < Pow2(b)
    requires if h[..a] == c[..a] then Val(h[a..b]) < Val(c[a..b]) else true
    ensures ChainsAt(Lone(h, Pow2(b)), Expansion(c, a, b)) == []
  {
    hide Index, Pow2, Val, Expansion;
    if h[..a] == c[..a] {
      ExpansionCovers(c, h, a, b);
    } else {
      ExpansionKeepsLow(c, h, a, b);
    }
    LoneChains(h, Expansion(c, a, b), b);
  }

  /** The two tables, the smaller one first. */
  ghost predicate Sizes<K, V>(d: Dict<K, V>, small: Buckets<K, V>, large: Buckets<K, V>, a: nat, b: nat) {
    && |small| == Pow2(a) && |large| == Pow2(b)
    && ((d.ht0 == small && d.ht1 == large) || (d.ht0 == large && d.ht1 == small))
  }

  lemma BySize<K, V>(d: Dict<K, V>, small: Buckets<K, V>, large: Buckets<K, V>, a: nat, b: nat)
    requires Shape(d) && Rehashing(d) && a < b <= WIDTH && Sizes(d, small, large, a, b)
    ensures Smaller(d) == small && Larger(d) == large && LowBits(d) == a && HighBits(d) == b
  {
    Pow2Strict(a, b);
    Pow2Injective(a, LowBits(d));
    Pow2Injective(b, HighBits(d));
  }

  lemma {:induction false} ExpansionKeepsLow(v: Word, h: Word, a: nat, b: nat)
    requires a < b <= |v| && h[..a] != v[..a]
    ensures !Visits(Expansion(v, a, b), h, b)
    decreases Pow2(b - a) - Val(v[a..b])
  {
    hide Val, Pow2, ExpandStep;
    var n := ExpandStep(v, SizeMask(v, Pow2(a)));
    StepGrows(v, a, b);
    ExpandStepBits(v, a, b);
    assert v[..b][..a] == v[..a] && h[..b][..a] == h[..a];
    if n[a..b] != Zeros(b - a) {
      ExpansionKeepsLow(n, h, a, b);
      assert Expansion(v, a, b) == [v] + Expansion(n, a, b);
    }
  }

  /**
   For every pair of sizes four or more apart: one call on the larger table, then a shrink to the
   smaller one begins, and the rest of the scan never emits a key that is present throughout.
   */
  lemma ShrinkCanMissKey(a: nat, b: nat) returns (ds: seq<Dict<Word, ()>>, vs: seq<Word>, h: Word)
    requires 2 <= a && a + 2 <= b <= WIDTH
    ensures Scan(Self, ds, vs)
    ensures forall i | 0 <= i < |ds| :: Find(Self, ds[i], h).Some? && |ds[i].ht0| == Pow2(b)
    ensures !Rehashing(ds[0]) && forall i | 0 < i < |ds| :: ds[i].rehashidx == 0 && |ds[i].ht1| == Pow2(a)
    ensures forall i | 0 <= i < |ds| :: !Emits(Emitted(ds[i], vs[i]), h)
  {
    hide Index, Pow2, Inv, Find, Lone, Scan;
    var zero: Word := Zeros(WIDTH);
    h := zero[a := true];
    SameChain(h, h, b);
    TableSizes(a, b);
    LoneInv(h, Pow2(b), Pow2(a));
    var d := Dict(Lone(h, Pow2(b)), 1, EmptyTable(Pow2(a)), 0, 0, 0);
    ds, vs := ScanMisses(d, EmptyTable(Pow2(a)), h, a, b);
  }

  /** One call on a table of the larger size with only `h`, and the rest of the scan on `d`. */
  lemma ScanMisses(d: Dict<Word, ()>, small: Buckets<Word, ()>, h: Word, a: nat, b: nat)
    returns (ds: seq<Dict<Word, ()>>, vs: seq<Word>)
    requires 2 <= a && a + 2 <= b <= WIDTH && h == Zeros(WIDTH)[a := true] && Index(h, Pow2(b)) < Pow2(b)
    requires Inv(Self, d) && Rehashing(d) && d.used0 + d.used1 > 0 && Find(Self, d, h).Some?
    requires Sizes(d, small, Lone(h, Pow2(b)), a, b) && forall i, e | 0 <= i < |small| && e in small[i] :: e.key != h
    ensures Scan(Self, ds, vs)
    ensures forall i | 0 <= i < |ds| :: Find(Self, ds[i], h).Some? && !Emits(Emitted(ds[i], vs[i]), h)
    ensures !Rehashing(ds[0]) && |ds[0].ht0| == Pow2(b) && forall i | 0 < i < |ds| :: ds[i] == d
  {
    hide Index, Pow2, Val, Inv, Find, Pos, Emitted, Next, Lone, Sizes, Emits;
    var zero: Word := Zeros(WIDTH);
    var v: Word := zero[b - 1 := true];
    TableSizes(a, b);
    LoneInv(h, Pow2(b), 0);
    var d0 := Dict(Lone(h, Pow2(b)), 1, EmptyTable(0), 0, -1, 0);
    InvShape(Self, d0);
    InvShape(Self, d);
    FirstCall(h, a, b);
    NoneEmitted(h);
    var rest := CursorsFrom(d, v);
    ds := [d0] + seq(|rest| - 1, _ => d);
    vs := [zero] + rest;
    assert v[b - 1] && !zero[b - 1];
    forall i | 0 <= i < |ds| ensures vs[i + 1] == Next(ds[i], vs[i]) {
      if i > 0 { assert rest[(i - 1) + 1] == Next(d, rest[i - 1]); }
    }
    forall i | 0 < i < |ds| ensures !Emits(Emitted(d, vs[i]), h) {
      if i == 1 {
        MissedAtV(h, a, b);
      } else {
        assert rest[(i - 2) + 1] == Next(d, rest[i - 2]) && rest[i - 1] != zero;
        LaterCursor(d, small, rest[i - 2], h, a, b);
      }
      NotEmitted(d, small, h, a, b, vs[i]);
    }
  }

  lemma NoneEmitted(h: Word)
    ensures !Emits<Word, ()>([], h)
  {
  }

  lemma NotEmitted(d: Dict<Word, ()>, small: Buckets<Word, ()>, h: Word, a: nat, b: nat, c: Word)
    requires a < b <= |h| && Index(h, Pow2(b)) < Pow2(b) && Shape(d) && Rehashing(d)
    requires Sizes(d, small, Lone(h, Pow2(b)), a, b) && forall i, e | 0 <= i < |small| && e in small[i] :: e.key != h
    requires if h[..a] == c[..a] then Val(h[a..b]) < Val(c[a..b]) else true
    ensures !Emits(Emitted(d, c), h)
  {
    hide Index, Pow2, Val, Expansion, Lone, ChainsAt, Sizes;
    BySize(d, small, Lone(h, Pow2(b)), a, b);
    LoneNotRead(h, a, b, c);
  }

  // ---------- so can a growth, once the key has moved ----------

  /** A growth to `n` buckets begins. */
  ghost function Growing<K, V>(d: Dict<K, V>, n: nat): Dict<K, V> {
    d.(ht1 := EmptyTable(n), used1 := 0, rehashidx := 0)
  }

  lemma GrowingKeeps<K, V>(hash: K -> Word, d: Dict<K, V>, n: nat, k: K)
    requires Inv(hash, d) && !Rehashing(d) && TableSize(|d.ht0|) && TableSize(n) && n != |d.ht0|
    ensures Inv(hash, Growing(d, n)) && Find(hash, Growing(d, n), k) == Find(hash, d, k)
  {
    TotalEmpty<K, V>(n);
    FindSplit(hash, d, k);
    FindSplit(hash, Growing(d, n), k);
    assert Bucket(hash, EmptyTable<K, V>(n), k) == [];
    assert Bucket<K, V>(hash, [], k) == [];
  }

  /** A table of the smaller size that holds `h` in its first bucket and `g` in its second, when it begins to grow. */
  ghost function Begun(h: Word, g: Word, a: nat, b: nat): Dict<Word, ()>
    requires Index(h, Pow2(a)) < Pow2(a)
  {
    var small := Dict(Lone(h, Pow2(a)), 1, EmptyTable(0), 0, -1, 0);
    Growing(Insert(Self, small, Entry(g, ())), Pow2(b))
  }

  lemma BegunInv(h: Word, g: Word, a: nat, b: nat)
    requires a < b <= WIDTH && Index(h, Pow2(a)) == 0 && Index(g, Pow2(a)) == 1 && Pow2(a) > 1 && g != h
    ensures var d := Begun(h, g, a, b);
            && Inv(Self, d) && Find(Self, d, h).Some? && |d.ht0| == Pow2(a) && d.ht1 == EmptyTable(Pow2(b))
            && d.ht0[0] == [Entry(h, ())] && d.used0 == 2 && d.rehashidx == 0
  {
    hide Index, Pow2, Inv, Find;
    TableSizes(a, b);
    LoneInv(h, Pow2(a), 0);
    var small := Dict(Lone(h, Pow2(a)), 1, EmptyTable(0), 0, -1, 0);
    assert Find(Self, small, g).None? by {
      FindSplit(Self, small, g);
      assert Bucket(Self, small.ht0, g) == [] && Bucket(Self, small.ht1, g) == [];
    }
    var both := Insert(Self, small, Entry(g, ()));
    InsertKeepsInv(Self, small, Entry(g, ()));
    InsertFind(Self, small, Entry(g, ()), h);
    GrowingKeeps(Self, both, Pow2(b), h);
  }

  /**
   The same for a growth: one call on a table of the larger size, a shrink to the smaller size that completes before
   the next call, and a growth back by which the key, and not yet every other one, has moved to the second table.
   */
  lemma GrowCanMissKey(a: nat, b: nat)
    returns (ds: seq<Dict<Word, ()>>, vs: seq<Word>, h: Word, begun: Dict<Word, ()>)
    requires 2 <= a && a + 2 <= b <= WIDTH
    ensures Scan(Self, ds, vs)
    ensures forall i | 0 <= i < |ds| :: Find(Self, ds[i], h).Some? && !Emits(Emitted(ds[i], vs[i]), h)
    ensures !Rehashing(ds[0]) && |ds[0].ht0| == Pow2(b)
    ensures Inv(Self, begun) && Find(Self, begun, h).Some? && begun.rehashidx == 0
    ensures |begun.ht0| == Pow2(a) && begun.ht1 == EmptyTable(Pow2(b)) && begun.ht0[0] == [Entry(h, ())]
    ensures begun.used0 > 1 && |begun.ht1| > 0 && Index(h, |begun.ht1|) < |begun.ht1|
    ensures forall i | 0 < i < |ds| :: ds[i] == MoveHead(Self, begun, 0).(rehashidx := 1)
  {
    hide Index, Pow2, Inv, Find, Lone, Scan, Emitted, Emits, Begun;
    var zero: Word := Zeros(WIDTH);
    h := zero[a := true];
    var g: Word := zero[0 := true];
    FirstBuckets(h, g, a);
    BegunInv(h, g, a, b);
    begun := Begun(h, g, a, b);
    SameChain(h, h, b);
    var d := Moved(h, a, b, begun);
    ds, vs := ScanMisses(d, d.ht0, h, a, b);
  }

  lemma FirstBuckets(h: Word, g: Word, a: nat)
    requires 2 <= a < WIDTH && h == Zeros(WIDTH)[a := true] && g == Zeros(WIDTH)[0 := true]
    ensures Index(h, Pow2(a)) == 0 && Index(g, Pow2(a)) == 1 && Pow2(a) > 1 && g != h
  {
    hide Index, Pow2, Val;
    IndexIsPrefix(h, a);
    IndexIsPrefix(g, a);
    assert h[..a] == Zeros(a) && g[..a] == Zeros(a)[0 := true];
    ValZeros(a);
    ValSet(Zeros(a), 0);
    PowZero();
    TwoAtLeast(a);
    assert g[0] && !h[0];
  }

  lemma PowZero()
    ensures Pow2(0) == 1
  {
  }

  /** The first bucket of the growing table has moved. */
  lemma Moved(h: Word, a: nat, b: nat, begun: Dict<Word, ()>) returns (d: Dict<Word, ()>)
    requires a < b <= WIDTH && Inv(Self, begun) && Find(Self, begun, h).Some? && begun.rehashidx == 0
    requires |begun.ht0| == Pow2(a) && begun.ht1 == EmptyTable(Pow2(b)) && begun.ht0[0] == [Entry(h, ())]
    requires begun.used0 == 2 && Index(h, Pow2(b)) < Pow2(b)
    ensures d == MoveHead(Self, begun, 0).(rehashidx := 1) && Inv(Self, d) && Find(Self, d, h).Some?
    ensures d.used0 + d.used1 > 0 && Sizes(d, d.ht0, Lone(h, Pow2(b)), a, b)
    ensures forall i, e | 0 <= i < |d.ht0| && e in d.ht0[i] :: e.key != h
  {
    hide Index, Pow2, Inv, Find;
    var m := MoveHead(Self, begun, 0);
    MoveHeadKeepsInv(Self, begun, 0);
    MoveHeadFind(Self, begun, 0, h);
    AdvanceKeeps(Self, m);
    d := m.(rehashidx := 1);
    assert [Entry(h, ())] + begun.ht1[Index(h, Pow2(b))] == [Entry(h, ())];
    assert d.ht1 == Lone(h, Pow2(b));
    NotInFirst(d, h, Index(h, Pow2(b)));
  }

  lemma NotInFirst(d: Dict<Word, ()>, h: Word, j: nat)
    requires Inv(Self, d) && j < |d.ht1| && Entry(h, ()) in d.ht1[j]
    ensures forall i, e | 0 <= i < |d.ht0| && e in d.ht0[i] :: e.key != h
  {
    hide Placed, AllDistinct, Total, Shape;
    assert Entry(h, ()).key in KeysOf(d.ht1);
    forall i, e | 0 <= i < |d.ht0| && e in d.ht0[i] ensures e.key != h { assert e.key in KeysOf(d.ht0); }
  }

  lemma TableSizes(a: nat, b: nat)
    requires a < b <= WIDTH
    ensures TableSize(Pow2(a)) && TableSize(Pow2(b)) && Pow2(a) != Pow2(b)
  {
    Pow2Strict(a, b);
  }

  lemma FirstCall(h: Word, a: nat, b: nat)
    requires a + 2 <= b <= |h| && h == Zeros(|h|)[a := true] && Index(h, Pow2(b)) < Pow2(b)
    ensures var d0 := Dict(Lone(h, Pow2(b)), 1, EmptyTable(0), 0, -1, 0);
            Shape(d0) ==>
              && Next(d0, Zeros(|h|)) == Zeros(|h|)[b - 1 := true]
              && Emitted(d0, Zeros(|h|)) == []
  {
    hide Index, Pow2, Val, Pos, NextCursor;
    var zero: Word := Zeros(|h|);
    var v := zero[b - 1 := true];
    var d0 := Dict(Lone(h, Pow2(b)), 1, EmptyTable(0), 0, -1, 0);
    if Shape(d0) {
      Pow2Injective(b, LowBits(d0));
      NextCursorPos(zero, b);
      assert zero[..b] == Zeros(b);
      PosZeros(b);
      PosZeros(|h|);
      PosSet(zero, b - 1);
      TwoAtLeast(b);
      PosInjective(NextCursor(zero, SizeMask(zero, Pow2(b))), v);
      assert h[..b][a] && !zero[..b][a];
      LoneChain(h, zero, b);
    }
  }

  lemma TwoAtLeast(b: nat)
    requires b >= 1
    ensures Pow2(b) >= 2
  {
  }

  lemma MissedAtV(h: Word, a: nat, b: nat)
    requires a + 2 <= b <= |h| && h == Zeros(|h|)[a := true]
    ensures var v := Zeros(|h|)[b - 1 := true];
            h[..a] == v[..a] && Val(h[a..b]) < Val(v[a..b])
  {
    hide Val, Pow2;
    var z := Zeros(b - a);
    var v := Zeros(|h|)[b - 1 := true];
    assert h[a..b] == z[0 := true] && v[a..b] == z[b - 1 - a := true];
    ValSet(z, 0);
    ValSet(z, b - 1 - a);
    Pow2Strict(0, b - 1 - a);
  }

  lemma LaterCursor(d: Dict<Word, ()>, small: Buckets<Word, ()>, u: Word, h: Word, a: nat, b: nat)
    requires Shape(d) && Rehashing(d) && d.used0 + d.used1 > 0 && |d.ht0| > 0
    requires a < b <= |h| && h == Zeros(|h|)[a := true] && Index(h, Pow2(b)) < Pow2(b)
    requires Sizes(d, small, Lone(h, Pow2(b)), a, b) && Next(d, u) != Zeros(|h|)
    ensures h[..a] != Next(d, u)[..a]
  {
    hide Pow2, Next, Index, Lone, Sizes;
    BySize(d, small, Lone(h, Pow2(b)), a, b);
    NextGrows(d, u);
    var n := Next(d, u);
    assert n == n[..a] + n[a..];
    assert h[..a] == Zeros(a) && Zeros(a) + Zeros(|h| - a) == Zeros(|h|);
  }
}
