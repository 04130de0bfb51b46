/**
 Machine words as sequences of bits, least significant bit first.  The bitwise operators are
 pointwise, `Inc` is the C `++` with wrap-around, and `Val` is the unsigned value of a word.
 */
module Words {

  type Bits = seq<bool>

  const WIDTH := 64

  /** An `unsigned long`. */
  type Word = w: Bits | |w| == WIDTH witness seq(WIDTH, _ => false)

  function Pow2(n: nat): (p: nat)
    ensures p >= 1
  {
    if n == 0 then 1 else 2 * Pow2(n - 1)
  }

  function Bit(b: bool): (n: nat)
    ensures n <= 1
  {
    if b then 1 else 0
  }

  function Val(w: Bits): nat {
    if w == [] then 0 else Bit(w[0]) + 2 * Val(w[1..])
  }

  /** The low `k` bits of `n`. */
  function OfNat(k: nat, n: nat): (w: Bits)
    ensures |w| == k
  {
    if k == 0 then [] else [n % 2 == 1] + OfNat(k - 1, n / 2)
  }

  function Zeros(k: nat): (w: Bits)
    ensures |w| == k
  {
    seq(k, _ => false)
  }

  function Ones(k: nat): (w: Bits)
    ensures |w| == k
  {
    seq(k, _ => true)
  }

  function And(x: Bits, y: Bits): (z: Bits)
    requires |x| == |y|
    ensures |z| == |x| && forall i | 0 <= i < |z| :: z[i] == (x[i] && y[i])
  {
    seq(|x|, i requires 0 <= i < |x| => x[i] && y[i])
  }

  function Or(x: Bits, y: Bits): (z: Bits)
    requires |x| == |y|
    ensures |z| == |x| && forall i | 0 <= i < |z| :: z[i] == (x[i] || y[i])
  {
    seq(|x|, i requires 0 <= i < |x| => x[i] || y[i])
  }

  function Xor(x: Bits, y: Bits): (z: Bits)
    requires |x| == |y|
    ensures |z| == |x| && forall i | 0 <= i < |z| :: z[i] == (x[i] != y[i])
  {
    seq(|x|, i requires 0 <= i < |x| => x[i] != y[i])
  }

  function Not(x: Bits): (z: Bits)
    ensures |z| == |x| && forall i | 0 <= i < |z| :: z[i] == !x[i]
  {
    seq(|x|, i requires 0 <= i < |x| => !x[i])
  }

  function Shl(x: Bits, s: nat): (z: Bits)
    ensures |z| == |x| && forall i | 0 <= i < |z| :: z[i] == (s <= i && x[i - s])
  {
    seq(|x|, i requires 0 <= i < |x| => s <= i && x[i - s])
  }

  function Shr(x: Bits, s: nat): (z: Bits)
    ensures |z| == |x| && forall i | 0 <= i < |z| :: z[i] == (i + s < |x| && x[i + s])
  {
    seq(|x|, i requires 0 <= i < |x| => i + s < |x| && x[i + s])
  }

  /** `w + 1`, dropping the carry out of the top bit. */
  function Inc(w: Bits): (z: Bits)
    ensures |z| == |w|
  {
    if w == [] then []
    else if !w[0] then [true] + w[1..]
    else [false] + Inc(w[1..])
  }

  function Rev(w: Bits): (z: Bits)
    ensures |z| == |w| && forall i | 0 <= i < |z| :: z[i] == w[|w| - 1 - i]
  {
    seq(|w|, i requires 0 <= i < |w| => w[|w| - 1 - i])
  }

  lemma RevConcat(x: Bits, y: Bits)
    ensures Rev(x + y) == Rev(y) + Rev(x)
  {
    var z := x + y;
    forall i | 0 <= i < |z| ensures Rev(z)[i] == (Rev(y) + Rev(x))[i] {
      assert Rev(z)[i] == z[|z| - 1 - i];
    }
  }

  lemma RevRev(w: Bits)
    ensures Rev(Rev(w)) == w
  {
  }

  // ---------- values ----------

  lemma {:induction false} ValBound(w: Bits)
    ensures Val(w) < Pow2(|w|)
  {
    if w != [] { ValBound(w[1..]); }
  }

  lemma {:induction false} ValInjective(x: Bits, y: Bits)
    requires |x| == |y| && Val(x) == Val(y)
    ensures x == y
  {
    if x != [] {
      assert x == [x[0]] + x[1..] && y == [y[0]] + y[1..];
      ValInjective(x[1..], y[1..]);
    }
  }

  lemma Scale(x: int, y: int)
    ensures 2 * (x * y) == (2 * x) * y
  {
  }

  lemma {:induction false} ValConcat(x: Bits, y: Bits)
    ensures Val(x + y) == Val(x) + Pow2(|x|) * Val(y)
  {
    if x == [] {
      assert x + y == y;
    } else {
      ValConcat(x[1..], y);
      ValCons(x, y);
      Scale(Pow2(|x| - 1), Val(y));
    }
  }

  lemma ValCons(x: Bits, y: Bits)
    requires x != []
    ensures Val(x + y) == Bit(x[0]) + 2 * Val(x[1..] + y)
  {
    assert (x + y)[1..] == x[1..] + y;
  }

  lemma {:induction false} ValZeros(k: nat)
    ensures Val(Zeros(k)) == 0
  {
    if k > 0 {
      assert Zeros(k)[1..] == Zeros(k - 1);
      ValZeros(k - 1);
    }
  }

  lemma {:induction false} ValOnes(k: nat)
    ensures Val(Ones(k)) == Pow2(k) - 1
  {
    if k > 0 {
      assert Ones(k)[1..] == Ones(k - 1);
      ValOnes(k - 1);
    }
  }

  lemma {:induction false} ValOfNat(k: nat, n: nat)
    requires n < Pow2(k)
    ensures Val(OfNat(k, n)) == n
  {
    if k > 0 {
      assert OfNat(k, n)[1..] == OfNat(k - 1, n / 2);
      ValOfNat(k - 1, n / 2);
    }
  }

  /** `Inc` is addition of one modulo the width of the word. */
  lemma {:induction false} ValInc(w: Bits)
    ensures Val(Inc(w)) == if Val(w) + 1 == Pow2(|w|) then 0 else Val(w) + 1
  {
    if w != [] {
      if w[0] {
        ValInc(w[1..]);
        assert Inc(w)[1..] == Inc(w[1..]);
      } else {
        ValBound(w[1..]);
        assert Inc(w)[1..] == w[1..];
      }
    }
  }

  /** Incrementing carries through a block of ones into the bits above it. */
  lemma {:induction false} IncOnes(k: nat, y: Bits)
    ensures Inc(Ones(k) + y) == Zeros(k) + Inc(y)
  {
    if k == 0 {
      assert Ones(0) + y == y && Zeros(0) + Inc(y) == Inc(y);
    } else {
      assert (Ones(k) + y)[1..] == Ones(k - 1) + y;
      IncOnes(k - 1, y);
      assert [false] + (Zeros(k - 1) + Inc(y)) == Zeros(k) + Inc(y);
    }
  }

  lemma {:induction false} Pow2Add(a: nat, b: nat)
    ensures Pow2(a + b) == Pow2(a) * Pow2(b)
  {
    if a > 0 {
      Pow2Add(a - 1, b);
      Scale(Pow2(a - 1), Pow2(b));
    }
  }

  lemma {:induction false} Pow2Monotone(a: nat, b: nat)
    requires a <= b
    ensures Pow2(a) <= Pow2(b)
  {
    if a < b { Pow2Monotone(a, b - 1); }
  }

  lemma {:induction false} Pow2Injective(a: nat, b: nat)
    requires Pow2(a) == Pow2(b)
    ensures a == b
  {
    if a < b { Pow2Monotone(a + 1, b); }
    if b < a { Pow2Monotone(b + 1, a); }
  }

  // ---------- table sizes and masks ----------

  /** The word of a table's `sizemask`, `size - 1`, has exactly the low `a` bits set. */
  lemma MaskBits(k: nat, a: nat)
    requires a <= k
    ensures OfNat(k, Pow2(a) - 1) == Ones(a) + Zeros(k - a)
  {
    hide Val, Pow2, OfNat;
    ValOnes(a);
    ValZeros(k - a);
    ValConcat(Ones(a), Zeros(k - a));
    Pow2Monotone(a, k);
    ValOfNat(k, Pow2(a) - 1);
    ValInjective(Ones(a) + Zeros(k - a), OfNat(k, Pow2(a) - 1));
  }

  /** `h & (size - 1)`, the bucket of hash `h` in a table of the given size. */
  function Index(h: Word, size: nat): nat
    requires size > 0
  {
    Val(And(h, OfNat(|h|, size - 1)))
  }

  ghost predicate IsPow2(size: nat) {
    exists a: nat :: a <= WIDTH && size == Pow2(a)
  }

  lemma AndMask(h: Bits, a: nat)
    requires a <= |h|
    ensures And(h, Ones(a) + Zeros(|h| - a)) == h[..a] + Zeros(|h| - a)
  {
  }

  lemma IndexIsPrefix(h: Word, a: nat)
    requires a <= WIDTH
    ensures Index(h, Pow2(a)) == Val(h[..a]) < Pow2(a)
  {
    hide Val, Pow2, OfNat;
    var k := |h|;
    MaskBits(k, a);
    AndMask(h, a);
    ValConcat(h[..a], Zeros(k - a));
    ValZeros(k - a);
    ValBound(h[..a]);
  }

  lemma IndexInRange(h: Word, size: nat)
    requires size > 0 && IsPow2(size)
    ensures Index(h, size) < size
  {
    var a: nat :| a <= WIDTH && size == Pow2(a);
    IndexIsPrefix(h, a);
  }
}
