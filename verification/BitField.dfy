/** Bit fields of bitops.c: integers of any width at any bit offset of a byte string, and their overflow checks. */
module BitField {
  import opened Common
  import opened Arith
  import opened Octets
  import opened Words

  /** Bit `k` of an unsigned number. */
  predicate NatBit(x: nat, k: nat) {
    x / Pow2(k) % 2 == 1
  }

  /** The number written in `bits` bits from `offset` on, most significant bit first. */
  ghost function Field(p: seq<bv8>, offset: nat, bits: nat): nat {
    if bits == 0 then 0
    else 2 * Field(p, offset, bits - 1) + Bit(StringBit(p, offset + bits - 1))
  }

  lemma {:induction false} FieldBound(p: seq<bv8>, offset: nat, bits: nat)
    ensures Field(p, offset, bits) < Pow2(bits)
  {
    if bits > 0 { FieldBound(p, offset, bits - 1); }
  }

  // ---------- one bit ----------

  function PutBit(p: seq<bv8>, k: nat, on: bool): (q: seq<bv8>)
    requires k / 8 < |p|
  {
    var bit := 7 - k % 8;
    var cleared := ByteClear(p[k / 8], bit);
    p[k / 8 := if on then ByteSet(cleared, bit) else cleared]
  }

  lemma PutBitGet(p: seq<bv8>, k: nat, on: bool, m: nat)
    requires k / 8 < |p|
    ensures StringBit(PutBit(p, k, on), m) == (if m == k then on else StringBit(p, m))
  {
    hide ByteHas, ByteSet, ByteClear;
    var bit := 7 - k % 8;
    if m / 8 == k / 8 {
      ByteBits(p[k / 8], bit, 7 - m % 8);
      ByteBits(ByteClear(p[k / 8], bit), bit, 7 - m % 8);
    }
  }

  // ---------- setting and getting ----------

  /** The first `j` bits of the field hold those of `value`, and nothing else changed. */
  ghost predicate Written(before: seq<bv8>, after: seq<bv8>, offset: nat, bits: nat, j: nat, value: nat)
    requires j <= bits
  {
    && |after| == |before|
    && forall k: nat :: StringBit(after, k) ==
         (if offset <= k < offset + j then NatBit(value, offset + bits - 1 - k) else StringBit(before, k))
  }

  lemma WriteBit(before: seq<bv8>, p: seq<bv8>, offset: nat, bits: nat, j: nat, value: nat)
    requires j < bits && Written(before, p, offset, bits, j, value) && (offset + j) / 8 < |p|
    ensures Written(before, PutBit(p, offset + j, NatBit(value, bits - 1 - j)), offset, bits, j + 1, value)
  {
    hide StringBit, PutBit, NatBit;
    var q := PutBit(p, offset + j, NatBit(value, bits - 1 - j));
    forall k: nat
      ensures StringBit(q, k) ==
        (if offset <= k < offset + j + 1 then NatBit(value, offset + bits - 1 - k) else StringBit(before, k))
    {
      PutBitGet(p, offset + j, NatBit(value, bits - 1 - j), k);
    }
    PutBitLength(p, offset + j, NatBit(value, bits - 1 - j));
  }

  lemma PutBitLength(p: seq<bv8>, k: nat, on: bool)
    requires k / 8 < |p|
    ensures |PutBit(p, k, on)| == |p|
  {
  }

  lemma {:induction false} FieldBits(before: seq<bv8>, after: seq<bv8>, offset: nat, bits: nat, j: nat, value: nat)
    requires j <= bits && Written(before, after, offset, bits, bits, value)
    ensures Field(after, offset, j) == value / Pow2(bits - j) % Pow2(j)
  {
    hide StringBit;
    if j > 0 {
      FieldBits(before, after, offset, bits, j - 1, value);
      assert StringBit(after, offset + j - 1) == NatBit(value, bits - j);
      TakeBit(value, bits - j, j - 1);
    }
  }

  lemma TakeBit(x: nat, k: nat, n: nat)
    ensures x / Pow2(k) % Pow2(n + 1) == 2 * (x / Pow2(k + 1) % Pow2(n)) + Bit(NatBit(x, k))
  {
    hide Pow2;
    Double(k);
    Double(n);
    HalfDiv(x, Pow2(k));
    ModDouble(x / Pow2(k), Pow2(n));
  }

  lemma ModDouble(y: nat, m: nat)
    requires m > 0
    ensures y % (2 * m) == 2 * (y / 2 % m) + y % 2
  {
    var q, r := y / 2 / m, y / 2 % m;
    assert y / 2 == q * m + r;
    assert q * (2 * m) == 2 * (q * m);
    DivModUnique(y, 2 * m, q, 2 * r + y % 2);
  }

  /** Setting is undone by getting, up to the width of the field. */
  lemma GetAfterSet(before: seq<bv8>, after: seq<bv8>, offset: nat, bits: nat, value: nat)
    requires Written(before, after, offset, bits, bits, value)
    ensures Field(after, offset, bits) == value % Pow2(bits)
    ensures forall at: nat, n: nat | at + n <= offset || offset + bits <= at ::
              Field(after, at, n) == Field(before, at, n)
  {
    hide Written;
    FieldBits(before, after, offset, bits, bits, value);
    forall at: nat, n: nat | at + n <= offset || offset + bits <= at
      ensures Field(after, at, n) == Field(before, at, n)
    {
      OtherFields(before, after, offset, bits, value, at, n);
    }
  }

  lemma {:induction false} OtherFields(before: seq<bv8>, after: seq<bv8>, offset: nat, bits: nat, value: nat,
                                       at: nat, n: nat)
    requires Written(before, after, offset, bits, bits, value)
    requires at + n <= offset || offset + bits <= at
    ensures Field(after, at, n) == Field(before, at, n)
  {
    hide StringBit;
    if n > 0 {
      OtherFields(before, after, offset, bits, value, at, n - 1);
      assert StringBit(after, at + n - 1) == StringBit(before, at + n - 1);
    }
  }

  lemma HalfDiv(x: nat, m: nat)
    requires m > 0
    ensures x / (2 * m) == x / m / 2
  {
    DivModUnique(x, 2 * m, x / m / 2, x % m + m * (x / m % 2));
  }

  method SetUnsigned(p: array<bv8>, start: nat, bits: nat, value: nat)
    requires bits <= WIDTH && value < Pow2(WIDTH) && start + bits <= 8 * p.Length
    modifies p
    ensures Written(old(p[..]), p[..], start, bits, bits, value)
  {
    hide Written, Pow2, NatBit, StringBit, ByteSet, ByteClear;
    var offset := start;
    NotWritten(p[..], start, bits, value);
    for j := 0 to bits
      invariant offset == start + j && Written(old(p[..]), p[..], start, bits, j, value)
    {
      ghost var before := p[..];
      var on := NatBit(value, bits - 1 - j);
      var byte := offset / 8;
      var bit := 7 - offset % 8;
      var val := p[byte];
      val := ByteClear(val, bit);
      if on { val := ByteSet(val, bit); }
      p[byte] := val;
      WriteBit(old(p[..]), before, start, bits, j, value);
      assert p[..] == PutBit(before, start + j, on);
      offset := offset + 1;
    }
  }

  lemma NotWritten(p: seq<bv8>, offset: nat, bits: nat, value: nat)
    ensures Written(p, p, offset, bits, 0, value)
  {
  }

  lemma FieldNone(p: seq<bv8>, offset: nat)
    ensures Field(p, offset, 0) == 0
  {
  }

  lemma FieldNext(p: seq<bv8>, offset: nat, j: nat)
    ensures Field(p, offset, j + 1) == 2 * Field(p, offset, j) + Bit(StringBit(p, offset + j))
  {
  }

  method GetUnsigned(p: array<bv8>, start: nat, bits: nat) returns (value: nat)
    requires bits <= WIDTH && start + bits <= 8 * p.Length
    ensures value == Field(p[..], start, bits) < Pow2(bits)
  {
    hide Pow2, Field, ByteHas;
    var offset := start;
    value := 0;
    FieldBound(p[..], start, 0);
    FieldNone(p[..], start);
    for j := 0 to bits
      invariant offset == start + j && value == Field(p[..], start, j) < Pow2(j)
    {
      var byte := offset / 8;
      var bit := 7 - offset % 8;
      var bitval := Bit(ByteHas(p[byte], bit));
      FieldNext(p[..], start, j);
      NoShiftOut(value, j);
      FieldBound(p[..], start, j + 1);
      value := (2 * value) % Pow2(WIDTH) + bitval;
      offset := offset + 1;
    }
  }

  lemma NoShiftOut(x: nat, j: nat)
    requires j < WIDTH && x < Pow2(j)
    ensures (2 * x) % Pow2(WIDTH) == 2 * x
  {
    hide Pow2;
    Double(j);
    Pow2Monotone(j + 1, WIDTH);
    DivModUnique(2 * x, Pow2(WIDTH), 0, 2 * x);
  }

  lemma Double(j: nat)
    ensures Pow2(j + 1) == 2 * Pow2(j)
  {
  }

  // ---------- signed numbers ----------

  /** A signed number of the machine word's width, in two's complement. */
  predicate Int64(v: int) {
    0 - Pow2(WIDTH - 1) <= v < Pow2(WIDTH - 1)
  }

  /** The cast from `int64_t` to `uint64_t`. */
  function ToUnsigned(v: int): (u: nat)
    ensures u < Pow2(WIDTH)
  {
    v % Pow2(WIDTH)
  }

  /** The cast from `uint64_t` to `int64_t`. */
  function ToSigned(u: nat): int {
    if u < Pow2(WIDTH - 1) then u else u - Pow2(WIDTH)
  }

  /** The number of `bits` bits in two's complement that equals `x` up to a multiple of `2^bits`. */
  function Wrap(x: int, bits: nat): int
    requires bits > 0
  {
    var m := x % Pow2(bits);
    if m < Pow2(bits - 1) then m else m - Pow2(bits)
  }

  /** A number fits a signed field of this width. */
  predicate Fits(x: int, bits: nat)
    requires bits > 0
  {
    0 - Pow2(bits - 1) <= x < Pow2(bits - 1)
  }

  /** `Wrap` is the only number that fits and differs from `x` by a multiple of `2^bits`. */
  lemma WrapUnique(x: int, bits: nat, y: int)
    requires bits > 0
    ensures (Fits(y, bits) && (x - y) % Pow2(bits) == 0) <==> y == Wrap(x, bits)
  {
    hide Pow2;
    Double(bits - 1);
    var d := Pow2(bits);
    var q, m := x / d, x % d;
    DivMod(x, d);
    if Fits(y, bits) && (x - y) % d == 0 {
      var k := (x - y) / d;
      DivMod(x - y, d);
      if y >= 0 {
        DivModUnique(x, d, k, y);
      } else {
        MulSucc(k - 1, d);
        DivModUnique(x, d, k - 1, y + d);
      }
    }
    if y == Wrap(x, bits) {
      if m < Pow2(bits - 1) {
        DivModUnique(x - y, d, q, 0);
      } else {
        MulSucc(q, d);
        DivModUnique(x - y, d, q + 1, 0);
      }
    }
  }

  /** `~0 << bits` */
  function HighMask(bits: nat): Word {
    Shl(Ones(WIDTH), bits)
  }

  function AsWord(u: nat): Word {
    OfNat(WIDTH, u)
  }

  lemma SplitWord(w: Word, bits: nat)
    requires bits <= WIDTH
    ensures Val(w) == Val(w[..bits]) + Pow2(bits) * Val(w[bits..])
    ensures Val(w[..bits]) == Val(w) % Pow2(bits)
  {
    hide Pow2, Val;
    assert w == w[..bits] + w[bits..];
    ValConcat(w[..bits], w[bits..]);
    ValBound(w[..bits]);
    MulCommutes(Pow2(bits), Val(w[bits..]));
    DivModUnique(Val(w), Pow2(bits), Val(w[bits..]), Val(w[..bits]));
  }

  /** `u & ~(~0 << bits)` keeps the low bits. */
  lemma MaskLow(u: nat, bits: nat)
    requires u < Pow2(WIDTH) && bits <= WIDTH
    ensures Val(And(AsWord(u), Not(HighMask(bits)))) == u % Pow2(bits)
  {
    hide Pow2, Val;
    var w := AsWord(u);
    ValOfNat(WIDTH, u);
    SplitWord(w, bits);
    assert And(w, Not(HighMask(bits))) == w[..bits] + Zeros(WIDTH - bits);
    ValConcat(w[..bits], Zeros(WIDTH - bits));
    ValZeros(WIDTH - bits);
  }

  lemma MulPred(a: int, b: int)
    ensures a * (b - 1) == a * b - a
  {
  }

  /** `u | (~0 << bits)` extends a sign bit. */
  lemma ExtendSign(u: nat, bits: nat)
    requires u < Pow2(WIDTH) && bits <= WIDTH
    ensures Val(Or(AsWord(u), HighMask(bits))) == u % Pow2(bits) + Pow2(WIDTH) - Pow2(bits)
  {
    hide Pow2, Val;
    var w := AsWord(u);
    var h := WIDTH - bits;
    ValOfNat(WIDTH, u);
    SplitWord(w, bits);
    assert Or(w, HighMask(bits)) == w[..bits] + Ones(h);
    ValConcat(w[..bits], Ones(h));
    ValOnes(h);
    Pow2Add(bits, h);
    MulPred(Pow2(bits), Pow2(h));
  }

  lemma LastBit(w: Bits)
    requires w != []
    ensures w[|w| - 1] <==> Val(w) >= Pow2(|w| - 1)
  {
    hide Pow2, Val;
    var k := |w| - 1;
    assert w == w[..k] + [w[k]];
    ValConcat(w[..k], [w[k]]);
    ValBound(w[..k]);
    OneBitVal(w[k]);
  }

  /** The sign bit of the low `bits` bits. */
  lemma SignBit(u: nat, bits: nat)
    requires u < Pow2(WIDTH) && 0 < bits <= WIDTH
    ensures AsWord(u)[bits - 1] <==> u % Pow2(bits) >= Pow2(bits - 1)
  {
    hide Pow2, Val;
    var w := AsWord(u);
    ValOfNat(WIDTH, u);
    SplitWord(w, bits);
    LastBit(w[..bits]);
  }

  lemma OneBitVal(b: bool)
    ensures Val([b]) == Bit(b)
  {
    assert [b][1..] == [];
  }

  lemma ModMod(x: int, a: int, b: int)
    requires a > 0 && b > 0
    ensures a * b > 0 && x % (a * b) % a == x % a
  {
    MulPositive(a, b);
    var n := a * b;
    var q, r := x / n, x % n;
    assert x == q * n + r;
    assert q * n == (q * b) * a by { MulRegroup(q, a, b); }
    assert r == (r / a) * a + r % a;
    assert (q * b + r / a) * a == (q * b) * a + (r / a) * a;
    DivModUnique(x, a, q * b + r / a, r % a);
  }

  lemma MulRegroup(q: int, a: int, b: int)
    ensures q * (a * b) == (q * b) * a
  {
  }

  /** Going through 64 bits loses nothing of the low ones. */
  lemma LowOfUnsigned(x: int, bits: nat)
    requires bits <= WIDTH
    ensures ToUnsigned(x) % Pow2(bits) == x % Pow2(bits)
  {
    hide Pow2;
    Pow2Add(bits, WIDTH - bits);
    ModMod(x, Pow2(bits), Pow2(WIDTH - bits));
  }

  lemma CastBack(u: nat)
    requires u < Pow2(WIDTH)
    ensures ToUnsigned(ToSigned(u)) == u
  {
    hide Pow2;
    if u >= Pow2(WIDTH - 1) {
      DivModUnique(u - Pow2(WIDTH), Pow2(WIDTH), -1, u);
    }
  }

  /** The sign extension of the low `bits` bits of a word is their value in two's complement. */
  lemma SignExtended(u: nat, bits: nat)
    requires u < Pow2(WIDTH) && 0 < bits < WIDTH
    ensures AsWord(u)[bits - 1] ==> ToSigned(Val(Or(AsWord(u), HighMask(bits)))) == Wrap(u, bits)
    ensures !AsWord(u)[bits - 1] ==> ToSigned(Val(And(AsWord(u), Not(HighMask(bits))))) == Wrap(u, bits)
  {
    hide Pow2, Val, Or, And, Not, HighMask, AsWord;
    SignBit(u, bits);
    ExtendSign(u, bits);
    MaskLow(u, bits);
    Double(bits - 1);
    Double(WIDTH - 1);
    Pow2Monotone(bits, WIDTH - 1);
  }

  lemma SmallField(u: nat, bits: nat)
    requires u < Pow2(bits) && 0 < bits < WIDTH
    ensures ToSigned(u) == u < Pow2(WIDTH) && ToUnsigned(u) == u
    ensures !AsWord(u)[bits - 1] ==> Wrap(u, bits) == u
  {
    hide Pow2, AsWord;
    Pow2Monotone(bits, WIDTH - 1);
    Double(WIDTH - 1);
    CastBack(u);
    SignBit(u, bits);
    DivModUnique(u, Pow2(bits), 0, u);
  }

  method GetSigned(p: array<bv8>, start: nat, bits: nat) returns (value: int)
    requires 0 < bits < WIDTH && start + bits <= 8 * p.Length
    ensures value == Wrap(Field(p[..], start, bits), bits)
  {
    hide Pow2, Field, Val, Or, And, Not, HighMask, AsWord, ToUnsigned;
    var u := GetUnsigned(p, start, bits);
    value := ToSigned(u);
    SmallField(u, bits);
    SignExtended(u, bits);
    if AsWord(ToUnsigned(value))[bits - 1] {
      value := ToSigned(Val(Or(AsWord(ToUnsigned(value)), HighMask(bits))));
    }
  }

  /** A signed number that was set is read back, wrapped to the width of the field; in range it is itself. */
  lemma SignedGetAfterSet(before: seq<bv8>, after: seq<bv8>, offset: nat, bits: nat, v: int)
    requires 0 < bits < WIDTH && Written(before, after, offset, bits, bits, ToUnsigned(v))
    ensures Wrap(Field(after, offset, bits), bits) == Wrap(v, bits)
    ensures Fits(v, bits) ==> Wrap(Field(after, offset, bits), bits) == v
  {
    hide Written, Field, Pow2;
    GetAfterSet(before, after, offset, bits, ToUnsigned(v));
    LowOfUnsigned(v, bits);
    WrapOfMod(v, bits);
    WrapUnique(v, bits, v);
  }

  lemma WrapOfMod(v: int, bits: nat)
    requires bits > 0
    ensures Wrap(v % Pow2(bits), bits) == Wrap(v, bits)
  {
    hide Pow2;
    var m := v % Pow2(bits);
    DivModUnique(m, Pow2(bits), 0, m);
  }

  method SetSigned(p: array<bv8>, start: nat, bits: nat, value: int)
    requires bits <= WIDTH && Int64(value) && start + bits <= 8 * p.Length
    modifies p
    ensures Written(old(p[..]), p[..], start, bits, bits, ToUnsigned(value))
  {
    SetUnsigned(p, start, bits, ToUnsigned(value));
  }

  // ---------- overflow checks ----------

  datatype Policy = WrapAround | Saturate | Fail

  /** The returned code, and what is stored through the pointer for the limit. */
  datatype Check = Check(code: int, limit: Option<int>)

  function CheckUnsigned(value: nat, incr: int, bits: nat, policy: Policy, wanted: bool): Check
    requires bits < WIDTH
  {
    var max := Pow2(bits) - 1;
    var maxIncr := ToSigned(ToUnsigned(max - value));
    var minIncr := ToSigned(ToUnsigned(0 - value));
    if value > max || (incr > 0 && incr > maxIncr) then
      if wanted && policy.WrapAround? then Check(1, Some(UnsignedWrap(value, incr, bits)))
      else Check(1, if wanted && policy.Saturate? then Some(max) else None)
    else if incr < 0 && incr < minIncr then
      if wanted && policy.WrapAround? then Check(1, Some(UnsignedWrap(value, incr, bits)))
      else Check(-1, if wanted && policy.Saturate? then Some(0) else None)
    else Check(0, None)
  }

  function UnsignedWrap(value: nat, incr: int, bits: nat): int
    requires bits < WIDTH
  {
    Val(And(AsWord(ToUnsigned(value + incr)), Not(HighMask(bits))))
  }

  function CheckSigned(value: int, incr: int, bits: nat, policy: Policy, wanted: bool): Check
    requires 0 < bits < WIDTH
  {
    var max := Pow2(bits - 1) - 1;
    var min := 0 - max - 1;
    var maxIncr := ToSigned(ToUnsigned(max - value));
    var minIncr := ToSigned(ToUnsigned(min - value));
    if value > max || incr > maxIncr then
      if wanted && policy.WrapAround? then Check(1, Some(SignedWrap(value, incr, bits)))
      else Check(1, if wanted && policy.Saturate? then Some(max) else None)
    else if value < min || incr < minIncr then
      if wanted && policy.WrapAround? then Check(1, Some(SignedWrap(value, incr, bits)))
      else Check(-1, if wanted && policy.Saturate? then Some(min) else None)
    else Check(0, None)
  }

  function SignedWrap(value: int, incr: int, bits: nat): int
    requires 0 < bits < WIDTH
  {
    var c := AsWord(ToUnsigned(ToUnsigned(value) + ToUnsigned(incr)));
    ToSigned(Val(if c[bits - 1] then Or(c, HighMask(bits)) else And(c, Not(HighMask(bits)))))
  }

  /** What a check has to answer for the exact sum, the range of the field and the wrapped sum. */
  ghost predicate Answers(check: Check, sum: int, min: int, max: int, wrapped: int, policy: Policy, wanted: bool) {
    var wrap := wanted && policy.WrapAround?;
    && (check.code != 0 <==> sum < min || sum > max)
    && (check.code == 1 <==> sum > max || (sum < min && wrap))
    && (check.code == -1 <==> sum < min && !wrap)
    && check.limit ==
         (if min <= sum <= max || !wanted || policy.Fail? then None
          else if policy.WrapAround? then Some(wrapped)
          else if sum < min then Some(min)
          else Some(max))
  }

  lemma CastSmall(x: int)
    requires Int64(x)
    ensures ToSigned(ToUnsigned(x)) == x
  {
    hide Pow2;
    Double(WIDTH - 1);
    if x < 0 {
      DivModUnique(x, Pow2(WIDTH), -1, x + Pow2(WIDTH));
    } else {
      DivModUnique(x, Pow2(WIDTH), 0, x);
    }
  }

  /** The unsigned check decides exactly whether the sum leaves the field, for every value that is in the field
      and for every value by itself. */
  lemma UnsignedCheckExact(value: nat, incr: int, bits: nat, policy: Policy, wanted: bool)
    requires bits < WIDTH && Int64(incr) && (value < Pow2(bits) || incr == 0)
    ensures Answers(CheckUnsigned(value, incr, bits, policy, wanted), value + incr, 0, Pow2(bits) - 1,
                    (value + incr) % Pow2(bits), policy, wanted)
  {
    hide Pow2, ToSigned, ToUnsigned, UnsignedWrap;
    Pow2Monotone(bits, WIDTH - 1);
    if value < Pow2(bits) {
      CastSmall(Pow2(bits) - 1 - value);
      CastSmall(0 - value);
    }
    UnsignedWrapExact(value, incr, bits);
  }

  lemma UnsignedWrapExact(value: nat, incr: int, bits: nat)
    requires bits < WIDTH
    ensures UnsignedWrap(value, incr, bits) == (value + incr) % Pow2(bits)
  {
    hide Pow2, ToUnsigned, Val;
    MaskLow(ToUnsigned(value + incr), bits);
    LowOfUnsigned(value + incr, bits);
  }

  lemma DivMod(x: int, d: int)
    requires d > 0
    ensures x == (x / d) * d + x % d && 0 <= x % d < d
  {
  }

  lemma AddUnsigned(x: int, y: int, d: int)
    requires d > 0
    ensures (x % d + y % d) % d == (x + y) % d
  {
    var a, b := x % d, y % d;
    var p, q, r, s := x / d, y / d, (a + b) / d, (a + b) % d;
    DivMod(x, d);
    DivMod(y, d);
    DivMod(a + b, d);
    MulAdd(p, q, d);
    MulAdd(p + q, r, d);
    DivModUnique(x + y, d, p + q + r, s);
  }

  lemma SignedWrapExact(value: int, incr: int, bits: nat)
    requires 0 < bits < WIDTH
    ensures SignedWrap(value, incr, bits) == Wrap(value + incr, bits)
  {
    hide Pow2, Val, Wrap, ToSigned, Or, And, Not, HighMask, AsWord;
    var c := ToUnsigned(ToUnsigned(value) + ToUnsigned(incr));
    AddUnsigned(value, incr, Pow2(WIDTH));
    SignExtended(c, bits);
    LowOfUnsigned(value + incr, bits);
    WrapOfMod(value + incr, bits);
    WrapOfMod(c, bits);
  }

  /** The signed check decides exactly whether the sum leaves the field, for every value that is in the field. */
  lemma SignedCheckExact(value: int, incr: int, bits: nat, policy: Policy, wanted: bool)
    requires 0 < bits < WIDTH && Fits(value, bits) && Int64(incr)
    ensures Answers(CheckSigned(value, incr, bits, policy, wanted), value + incr,
                    0 - Pow2(bits - 1), Pow2(bits - 1) - 1, Wrap(value + incr, bits), policy, wanted)
  {
    hide Pow2, ToSigned, ToUnsigned, SignedWrap, Wrap;
    Double(bits - 1);
    Pow2Monotone(bits, WIDTH - 1);
    CastSmall(Pow2(bits - 1) - 1 - value);
    CastSmall(0 - Pow2(bits - 1) - value);
    SignedWrapExact(value, incr, bits);
  }

  /**
   A value that is not in the field, checked by itself as `BITFIELD SET` does.  The difference to the
   greatest number of the field does not fit 64 bits for values close to the least 64-bit number; in two's
   complement those are then taken for too great instead of too small, and the answer is right for all others.
   */
  lemma SignedSetExact(value: int, bits: nat, policy: Policy, wanted: bool)
    requires 0 < bits < WIDTH && Int64(value)
    ensures Answers(CheckSigned(value, 0, bits, policy, wanted), value, 0 - Pow2(bits - 1), Pow2(bits - 1) - 1,
                    Wrap(value, bits), policy, wanted)
            <==> value >= Pow2(bits - 1) - Pow2(WIDTH - 1) || (wanted && policy.WrapAround?)
  {
    hide Pow2, SignedWrap, Wrap, ToSigned, ToUnsigned;
    Double(bits - 1);
    Double(WIDTH - 1);
    Pow2Monotone(bits, WIDTH - 1);
    SignedWrapExact(value, 0, bits);
    var high, low := Pow2(bits - 1) - 1 - value, 0 - Pow2(bits - 1) - value;
    if value < Pow2(bits - 1) {
      CastSmall(low);
      if high < Pow2(WIDTH - 1) { CastSmall(high); } else { CastLarge(high); }
    }
  }

  lemma CastLarge(x: int)
    requires Pow2(WIDTH - 1) <= x < Pow2(WIDTH)
    ensures ToSigned(ToUnsigned(x)) == x - Pow2(WIDTH)
  {
    hide Pow2;
    DivModUnique(x, Pow2(WIDTH), 0, x);
  }

  /** The least 64-bit number saturates to the greatest number of the field. */
  lemma LeastNumberSaturatesHigh(bits: nat)
    requires 0 < bits < WIDTH
    ensures CheckSigned(0 - Pow2(WIDTH - 1), 0, bits, Saturate, true) == Check(1, Some(Pow2(bits - 1) - 1))
  {
    hide Pow2, ToSigned, ToUnsigned;
    Double(bits - 1);
    Double(WIDTH - 1);
    Pow2Monotone(bits, WIDTH - 1);
    CastLarge(Pow2(bits - 1) - 1 + Pow2(WIDTH - 1));
  }
}
