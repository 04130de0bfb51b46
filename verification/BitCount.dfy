/** `redisPopcount` of bitops.c: 28 bytes at a time in 32-bit words, against the bit-by-bit count. */
module BitCount {
  import opened Octets
  import W = Words

  /** The set bits of a byte, one by one. */
  function ByteCount(x: bv8): nat {
    W.Bit(ByteHas(x, 0)) + W.Bit(ByteHas(x, 1)) + W.Bit(ByteHas(x, 2)) + W.Bit(ByteHas(x, 3)) +
    W.Bit(ByteHas(x, 4)) + W.Bit(ByteHas(x, 5)) + W.Bit(ByteHas(x, 6)) + W.Bit(ByteHas(x, 7))
  }

  /** The table `bitsinbyte`, sixteen entries to a row. */
  function TableRow(r: nat): (row: seq<nat>)
    requires r < 16
    ensures |row| == 16
  {
    match r
    case 0 => [0, 1, 1, 2, 1, 2, 2, 3, 1, 2, 2, 3, 2, 3, 3, 4]
    case 1 => [1, 2, 2, 3, 2, 3, 3, 4, 2, 3, 3, 4, 3, 4, 4, 5]
    case 2 => [1, 2, 2, 3, 2, 3, 3, 4, 2, 3, 3, 4, 3, 4, 4, 5]
    case 3 => [2, 3, 3, 4, 3, 4, 4, 5, 3, 4, 4, 5, 4, 5, 5, 6]
    case 4 => [1, 2, 2, 3, 2, 3, 3, 4, 2, 3, 3, 4, 3, 4, 4, 5]
    case 5 => [2, 3, 3, 4, 3, 4, 4, 5, 3, 4, 4, 5, 4, 5, 5, 6]
    case 6 => [2, 3, 3, 4, 3, 4, 4, 5, 3, 4, 4, 5, 4, 5, 5, 6]
    case 7 => [3, 4, 4, 5, 4, 5, 5, 6, 4, 5, 5, 6, 5, 6, 6, 7]
    case 8 => [1, 2, 2, 3, 2, 3, 3, 4, 2, 3, 3, 4, 3, 4, 4, 5]
    case 9 => [2, 3, 3, 4, 3, 4, 4, 5, 3, 4, 4, 5, 4, 5, 5, 6]
    case 10 => [2, 3, 3, 4, 3, 4, 4, 5, 3, 4, 4, 5, 4, 5, 5, 6]
    case 11 => [3, 4, 4, 5, 4, 5, 5, 6, 4, 5, 5, 6, 5, 6, 6, 7]
    case 12 => [2, 3, 3, 4, 3, 4, 4, 5, 3, 4, 4, 5, 4, 5, 5, 6]
    case 13 => [3, 4, 4, 5, 4, 5, 5, 6, 4, 5, 5, 6, 5, 6, 6, 7]
    case 14 => [3, 4, 4, 5, 4, 5, 5, 6, 4, 5, 5, 6, 5, 6, 6, 7]
    case _ => [4, 5, 5, 6, 5, 6, 6, 7, 5, 6, 6, 7, 6, 7, 7, 8]
  }

  /** `bitsinbyte[b]` */
  function BitsInByte(b: bv8): nat {
    TableRow((b >> 4) as nat)[(b & 0x0F) as nat]
  }

  /** The set bits of a number of four bits. */
  function Nibble(n: nat): nat
    requires n < 16
  {
    match n
    case 0 => 0
    case 1 => 1 case 2 => 1 case 4 => 1 case 8 => 1
    case 7 => 3 case 11 => 3 case 13 => 3 case 14 => 3
    case 15 => 4
    case _ => 2
  }

  /** The counts of the low half of a byte, on top of `k` for the high half. */
  function Upon(k: nat): (row: seq<nat>)
    ensures |row| == 16
  {
    [k, k + 1, k + 1, k + 2, k + 1, k + 2, k + 2, k + 3, k + 1, k + 2, k + 2, k + 3, k + 2, k + 3, k + 3, k + 4]
  }

  lemma UponAtLow(k: nat, c: nat)
    requires 0 <= c < 8
    ensures Upon(k)[c] == k + Nibble(c)
  {
    match c
    case 0 => assert Upon(k)[0] == k + 0;
    case 1 => assert Upon(k)[1] == k + 1;
    case 2 => assert Upon(k)[2] == k + 1;
    case 3 => assert Upon(k)[3] == k + 2;
    case 4 => assert Upon(k)[4] == k + 1;
    case 5 => assert Upon(k)[5] == k + 2;
    case 6 => assert Upon(k)[6] == k + 2;
    case _ => assert Upon(k)[7] == k + 3;
  }

  lemma UponAtHigh(k: nat, c: nat)
    requires 8 <= c < 16
    ensures Upon(k)[c] == k + Nibble(c)
  {
    match c
    case 8 => assert Upon(k)[8] == k + 1;
    case 9 => assert Upon(k)[9] == k + 2;
    case 10 => assert Upon(k)[10] == k + 2;
    case 11 => assert Upon(k)[11] == k + 3;
    case 12 => assert Upon(k)[12] == k + 2;
    case 13 => assert Upon(k)[13] == k + 3;
    case 14 => assert Upon(k)[14] == k + 3;
    case _ => assert Upon(k)[15] == k + 4;
  }

  lemma RowIsUponLow(r: nat)
    requires 0 <= r < 8
    ensures TableRow(r) == Upon(Nibble(r))
  {
    match r
    case 0 => assert TableRow(0) == Upon(0);
    case 1 => assert TableRow(1) == Upon(1);
    case 2 => assert TableRow(2) == Upon(1);
    case 3 => assert TableRow(3) == Upon(2);
    case 4 => assert TableRow(4) == Upon(1);
    case 5 => assert TableRow(5) == Upon(2);
    case 6 => assert TableRow(6) == Upon(2);
    case _ => assert TableRow(7) == Upon(3);
  }

  lemma RowIsUponHigh(r: nat)
    requires 8 <= r < 16
    ensures TableRow(r) == Upon(Nibble(r))
  {
    match r
    case 8 => assert TableRow(8) == Upon(1);
    case 9 => assert TableRow(9) == Upon(2);
    case 10 => assert TableRow(10) == Upon(2);
    case 11 => assert TableRow(11) == Upon(3);
    case 12 => assert TableRow(12) == Upon(2);
    case 13 => assert TableRow(13) == Upon(3);
    case 14 => assert TableRow(14) == Upon(3);
    case _ => assert TableRow(15) == Upon(4);
  }

  lemma RowIsSum(r: nat, c: nat)
    requires r < 16 && c < 16
    ensures TableRow(r)[c] == Nibble(r) + Nibble(c)
  {
    hide TableRow, Upon, Nibble;
    var k := Nibble(r);
    if r < 8 { RowIsUponLow(r); } else { RowIsUponHigh(r); }
    if c < 8 { UponAtLow(k, c); } else { UponAtHigh(k, c); }
  }

  lemma HighNibble(b: bv8)
    ensures Nibble((b >> 4) as nat) == W.Bit(ByteHas(b, 4)) + W.Bit(ByteHas(b, 5)) + W.Bit(ByteHas(b, 6)) + W.Bit(ByteHas(b, 7))
  {
  }

  lemma LowNibble(b: bv8)
    ensures Nibble((b & 0x0F) as nat) == W.Bit(ByteHas(b, 0)) + W.Bit(ByteHas(b, 1)) + W.Bit(ByteHas(b, 2)) + W.Bit(ByteHas(b, 3))
  {
  }

  /** Every entry of the table is the count of its index. */
  lemma TableIsCount(b: bv8)
    ensures BitsInByte(b) == ByteCount(b)
  {
    hide TableRow, Nibble, ByteHas;
    RowIsSum((b >> 4) as nat, (b & 0x0F) as nat);
    HighNibble(b);
    LowNibble(b);
  }

  function Count(p: seq<bv8>): nat {
    if p == [] then 0 else Count(p[..|p| - 1]) + ByteCount(p[|p| - 1])
  }

  lemma {:induction false} CountConcat(p: seq<bv8>, q: seq<bv8>)
    ensures Count(p + q) == Count(p) + Count(q)
  {
    if q == [] {
      assert p + q == p;
    } else {
      assert (p + q)[..|p + q| - 1] == p + q[..|q| - 1];
      CountConcat(p, q[..|q| - 1]);
    }
  }

  // ---------- words and their bytes ----------

  function B0(w: bv32): bv8 { (w & 0xFF) as bv8 }
  function B1(w: bv32): bv8 { ((w >> 8) & 0xFF) as bv8 }
  function B2(w: bv32): bv8 { ((w >> 16) & 0xFF) as bv8 }
  function B3(w: bv32): bv8 { ((w >> 24) & 0xFF) as bv8 }

  function V(b: bv8): nat {
    b as nat
  }

  function Plus8(x: bv8, y: bv8): bv8 { x + y }
  function Less8(x: bv8): bv8 { x - 1 }
  function Plus32(x: bv32, y: bv32): bv32 { x + y }

  /** The bytes of a word, from the least significant one, hold these numbers. */
  ghost predicate Holds(w: bv32, a: nat, b: nat, c: nat, d: nat) {
    V(B0(w)) == a && V(B1(w)) == b && V(B2(w)) == c && V(B3(w)) == d
  }

  lemma Inc8(x: bv8)
    requires V(x) < 255
    ensures V(Plus8(x, 1)) == V(x) + 1
  {
  }

  lemma Dec8(x: bv8)
    requires x != 0
    ensures V(Less8(x)) + 1 == V(x)
  {
  }

  lemma AddLess8(x: bv8, y: bv8)
    ensures Plus8(x, y) == Plus8(Plus8(x, Less8(y)), 1)
  {
  }

  lemma AddZero8(x: bv8)
    ensures Plus8(x, 0) == x && V(0) == 0
  {
  }

  lemma {:induction false} Add8(x: bv8, y: bv8)
    requires V(x) + V(y) < 256
    ensures V(Plus8(x, y)) == V(x) + V(y)
    decreases V(y)
  {
    hide V, Plus8, Less8;
    if y == 0 {
      AddZero8(x);
    } else {
      Dec8(y);
      Add8(x, Less8(y));
      Inc8(Plus8(x, Less8(y)));
      AddLess8(x, y);
    }
  }

  /** No byte of the word has its highest bit set, so that a sum of two such bytes stays in one byte. */
  ghost predicate Low(w: bv32) {
    w & 0x80808080 == 0
  }

  lemma AddByte0(x: bv32, y: bv32)
    requires Low(x) && Low(y)
    ensures B0(x + y) == Plus8(B0(x), B0(y))
  {
  }

  lemma AddByte1(x: bv32, y: bv32)
    requires Low(x) && Low(y)
    ensures B1(x + y) == Plus8(B1(x), B1(y))
  {
  }

  lemma AddByte2(x: bv32, y: bv32)
    requires Low(x) && Low(y)
    ensures B2(x + y) == Plus8(B2(x), B2(y))
  {
  }

  lemma AddByte3(x: bv32, y: bv32)
    requires Low(x) && Low(y)
    ensures B3(x + y) == Plus8(B3(x), B3(y))
  {
  }

  lemma LowByte(b: bv8)
    requires V(b) < 128
    ensures b & 0x80 == 0
  {
  }

  lemma LowBytes(w: bv32)
    requires B0(w) & 0x80 == 0 && B1(w) & 0x80 == 0 && B2(w) & 0x80 == 0 && B3(w) & 0x80 == 0
    ensures Low(w)
  {
  }

  lemma HoldsLow(w: bv32, a: nat, b: nat, c: nat, d: nat)
    requires Holds(w, a, b, c, d) && a < 128 && b < 128 && c < 128 && d < 128
    ensures Low(w)
  {
    hide V, B0, B1, B2, B3, Low;
    LowByte(B0(w));
    LowByte(B1(w));
    LowByte(B2(w));
    LowByte(B3(w));
    LowBytes(w);
  }

  /** Adding words adds their bytes when every byte is below 128. */
  lemma AddHolds(x: bv32, y: bv32, a: nat, b: nat, c: nat, d: nat, e: nat, f: nat, g: nat, h: nat)
    requires Holds(x, a, b, c, d) && a < 128 && b < 128 && c < 128 && d < 128
    requires Holds(y, e, f, g, h) && e < 128 && f < 128 && g < 128 && h < 128
    ensures Holds(x + y, a + e, b + f, c + g, d + h)
  {
    hide V, B0, B1, B2, B3, Low, Plus8;
    HoldsLow(x, a, b, c, d);
    HoldsLow(y, e, f, g, h);
    AddByte0(x, y);
    AddByte1(x, y);
    AddByte2(x, y);
    AddByte3(x, y);
    Add8(B0(x), B0(y));
    Add8(B1(x), B1(y));
    Add8(B2(x), B2(y));
    Add8(B3(x), B3(y));
  }

  lemma PlusHolds(x: bv32, y: bv32, a: nat, b: nat, c: nat, d: nat, e: nat, f: nat, g: nat, h: nat)
    requires Holds(x, a, b, c, d) && a < 128 && b < 128 && c < 128 && d < 128
    requires Holds(y, e, f, g, h) && e < 128 && f < 128 && g < 128 && h < 128
    ensures Holds(Plus32(x, y), a + e, b + f, c + g, d + h)
  {
    hide Holds;
    AddHolds(x, y, a, b, c, d, e, f, g, h);
  }

  // ---------- the arithmetic on one word ----------

  /** A 32-bit word as the machine loads it from four bytes. */
  function Load32(a: bv8, b: bv8, c: bv8, d: bv8): bv32 {
    (a as bv32) | ((b as bv32) << 8) | ((c as bv32) << 16) | ((d as bv32) << 24)
  }

  /** Pairs, then nibbles, then bytes each hold the number of their own set bits. */
  function Fold32(w: bv32): bv32 {
    var x := w - ((w >> 1) & 0x55555555);
    var y := (x & 0x33333333) + ((x >> 2) & 0x33333333);
    (y + (y >> 4)) & 0x0F0F0F0F
  }

  /** The number of set bits of a byte, as a byte. */
  function Bits8(x: bv8): bv8 {
    (x & 1) + ((x >> 1) & 1) + ((x >> 2) & 1) + ((x >> 3) & 1) +
    ((x >> 4) & 1) + ((x >> 5) & 1) + ((x >> 6) & 1) + ((x >> 7) & 1)
  }

  lemma FoldByte0(a: bv8, b: bv8, c: bv8, d: bv8)
    ensures B0(Fold32(Load32(a, b, c, d))) == Bits8(a)
  {
  }

  lemma FoldByte1(a: bv8, b: bv8, c: bv8, d: bv8)
    ensures B1(Fold32(Load32(a, b, c, d))) == Bits8(b)
  {
  }

  lemma FoldByte2(a: bv8, b: bv8, c: bv8, d: bv8)
    ensures B2(Fold32(Load32(a, b, c, d))) == Bits8(c)
  {
  }

  lemma FoldByte3(a: bv8, b: bv8, c: bv8, d: bv8)
    ensures B3(Fold32(Load32(a, b, c, d))) == Bits8(d)
  {
  }

  lemma BitsAreCount(b: bv8)
    ensures V(Bits8(b)) == ByteCount(b)
  {
  }

  lemma FoldHolds(a: bv8, b: bv8, c: bv8, d: bv8)
    ensures Holds(Fold32(Load32(a, b, c, d)), ByteCount(a), ByteCount(b), ByteCount(c), ByteCount(d))
  {
    hide V, B0, B1, B2, B3, Fold32, Load32, Bits8, ByteCount;
    FoldByte0(a, b, c, d);
    FoldByte1(a, b, c, d);
    FoldByte2(a, b, c, d);
    FoldByte3(a, b, c, d);
    BitsAreCount(a);
    BitsAreCount(b);
    BitsAreCount(c);
    BitsAreCount(d);
  }

  // ---------- the multiplication by 0x01010101 ----------

  function Times(s: bv32): bv32 { s * 0x01010101 }
  function Top(s: bv32): nat { (s >> 24) as nat }

  lemma Shl8Bytes(s: bv32)
    ensures B3(s << 8) == B2(s) && B2(s << 8) == B1(s) && B1(s << 8) == B0(s) && B0(s << 8) == 0
  {
  }

  lemma Shl16Bytes(s: bv32)
    ensures B3(s << 16) == B1(s) && B2(s << 16) == B0(s) && B1(s << 16) == 0 && B0(s << 16) == 0
  {
  }

  lemma TopIsByte(s: bv32)
    ensures Top(s) == V(B3(s))
  {
  }

  lemma MulIsShifts(s: bv32)
    ensures Times(s) == (s + (s << 8)) + ((s + (s << 8)) << 16)
  {
    assert s * 0x01010101 == (s + (s << 8)) + ((s + (s << 8)) << 16);
  }

  lemma Shl8Holds(s: bv32, a: nat, b: nat, c: nat, d: nat)
    requires Holds(s, a, b, c, d)
    ensures Holds(s << 8, 0, a, b, c)
  {
    hide B0, B1, B2, B3;
    Shl8Bytes(s);
  }

  lemma Shl16Holds(s: bv32, a: nat, b: nat, c: nat, d: nat)
    requires Holds(s, a, b, c, d)
    ensures Holds(s << 16, 0, 0, a, b)
  {
    hide B0, B1, B2, B3;
    Shl16Bytes(s);
  }

  function Climb1(s: bv32): bv32 { Plus32(s, s << 8) }
  function Climb2(s: bv32): bv32 { s + (s << 16) }

  lemma Climb1Is(s: bv32)
    ensures Climb1(s) == s + (s << 8)
  {
  }

  lemma TimesIsClimb2(s: bv32)
    ensures Times(s) == Climb2(s + (s << 8))
  {
    hide Times;
    MulIsShifts(s);
  }

  lemma TimesIsClimbs(s: bv32)
    ensures Times(s) == Climb2(Climb1(s))
  {
    hide Times, Climb1, Climb2;
    TimesIsClimb2(s);
    Climb1Is(s);
  }

  lemma Climb1Holds(s: bv32, a: nat, b: nat, c: nat, d: nat)
    requires Holds(s, a, b, c, d) && a < 64 && b < 64 && c < 64 && d < 64
    ensures Holds(Climb1(s), a, b + a, c + b, d + c)
  {
    hide Holds, Plus32;
    Shl8Holds(s, a, b, c, d);
    PlusHolds(s, s << 8, a, b, c, d, 0, a, b, c);
  }

  lemma Climb2Holds(s: bv32, a: nat, b: nat, c: nat, d: nat)
    requires Holds(s, a, b, c, d) && a < 128 && b < 128 && c < 128 && d < 128
    ensures Holds(Climb2(s), a, b, c + a, d + b)
  {
    hide Holds;
    Shl16Holds(s, a, b, c, d);
    PlusHolds(s, s << 16, a, b, c, d, 0, 0, a, b);
  }

  /** Multiplying by 0x01010101 adds the four bytes into the top one. */
  lemma TimesAdds(s: bv32, a: nat, b: nat, c: nat, d: nat)
    requires Holds(s, a, b, c, d) && a < 64 && b < 64 && c < 64 && d < 64
    ensures Top(Times(s)) == a + b + c + d
  {
    hide Holds, Times, Top, Climb1, Climb2;
    Climb1Holds(s, a, b, c, d);
    Climb2Holds(Climb1(s), a, b + a, c + b, d + c);
    TimesIsClimbs(s);
    TopHolds(Times(s), a, b + a, c + b + a, d + c + (b + a));
  }

  lemma TopHolds(s: bv32, a: nat, b: nat, c: nat, d: nat)
    requires Holds(s, a, b, c, d)
    ensures Top(s) == d
  {
    hide Top, B3;
    TopIsByte(s);
  }

  // ---------- 28 bytes at a time ----------

  /** The words of 28 bytes: each byte count of the sum is that of seven bytes. */
  function Sum7(a: bv32, b: bv32, c: bv32, d: bv32, e: bv32, f: bv32, g: bv32): bv32 {
    Plus32(Plus32(Plus32(Plus32(Plus32(Plus32(a, b), c), d), e), f), g)
  }

  function Word(p: seq<bv8>): bv32
    requires |p| == 4
  {
    Fold32(Load32(p[0], p[1], p[2], p[3]))
  }

  lemma ByteCountBound(b: bv8)
    ensures ByteCount(b) <= 8
  {
  }

  lemma CountFour(p: seq<bv8>)
    requires |p| == 4
    ensures Count(p) == ByteCount(p[0]) + ByteCount(p[1]) + ByteCount(p[2]) + ByteCount(p[3])
  {
    assert p[..3][..2] == p[..2] && p[..2][..1] == p[..1] && p[..1][..0] == [];
    assert Count(p[..1]) == ByteCount(p[0]);
    assert Count(p[..2]) == Count(p[..1]) + ByteCount(p[1]);
  }

  /** A word whose bytes, each at most `k`, add up to `n`. */
  ghost predicate Sums(w: bv32, k: nat, n: nat) {
    exists a: nat, b: nat, c: nat, d: nat ::
      Holds(w, a, b, c, d) && a <= k && b <= k && c <= k && d <= k && a + b + c + d == n
  }

  lemma WordSums(p: seq<bv8>)
    requires |p| == 4
    ensures Sums(Word(p), 8, Count(p))
  {
    hide Holds, ByteCount, Fold32, Load32, Count;
    FoldHolds(p[0], p[1], p[2], p[3]);
    ByteCountBound(p[0]);
    ByteCountBound(p[1]);
    ByteCountBound(p[2]);
    ByteCountBound(p[3]);
    CountFour(p);
  }

  lemma PlusSums(x: bv32, y: bv32, j: nat, k: nat, m: nat, n: nat)
    requires Sums(x, j, m) && Sums(y, k, n) && j < 128 && k < 128
    ensures Sums(Plus32(x, y), j + k, m + n)
  {
    hide Holds, Plus32, Sums;
    var a, b, c, d := Parts(x, j, m);
    var e, f, g, h := Parts(y, k, n);
    PlusHolds(x, y, a, b, c, d, e, f, g, h);
    IsSum(Plus32(x, y), j + k, a + e, b + f, c + g, d + h);
  }

  lemma Parts(w: bv32, k: nat, n: nat) returns (a: nat, b: nat, c: nat, d: nat)
    requires Sums(w, k, n)
    ensures Holds(w, a, b, c, d) && a <= k && b <= k && c <= k && d <= k && a + b + c + d == n
  {
    hide Holds;
    a, b, c, d :| Holds(w, a, b, c, d) && a <= k && b <= k && c <= k && d <= k && a + b + c + d == n;
  }

  lemma IsSum(w: bv32, k: nat, a: nat, b: nat, c: nat, d: nat)
    requires Holds(w, a, b, c, d) && a <= k && b <= k && c <= k && d <= k
    ensures Sums(w, k, a + b + c + d)
  {
    hide Holds;
  }

  lemma TopSums(w: bv32, k: nat, n: nat)
    requires Sums(w, k, n) && k < 64
    ensures Top(Times(w)) == n
  {
    hide Holds, Top, Times, Sums;
    var a, b, c, d := Parts(w, k, n);
    TimesAdds(w, a, b, c, d);
  }

  /** The set bits of 28 bytes are the top byte of the product. */
  lemma BlockCount(p: seq<bv8>)
    requires |p| == 28
    ensures Top(Times(Sum7(Word(p[..4]), Word(p[4..8]), Word(p[8..12]), Word(p[12..16]),
                           Word(p[16..20]), Word(p[20..24]), Word(p[24..])))) == Count(p)
  {
    hide Sums, Word, Top, Times, Plus32, Count;
    var a, b, c, d := p[..4], p[4..8], p[8..12], p[12..16];
    var e, f, g := p[16..20], p[20..24], p[24..];
    WordSums(a);
    WordSums(b);
    WordSums(c);
    WordSums(d);
    WordSums(e);
    WordSums(f);
    WordSums(g);
    var s2 := Plus32(Word(a), Word(b));
    PlusSums(Word(a), Word(b), 8, 8, Count(a), Count(b));
    CountConcat(a, b);
    var s3 := Plus32(s2, Word(c));
    PlusSums(s2, Word(c), 16, 8, Count(a + b), Count(c));
    CountConcat(a + b, c);
    var s4 := Plus32(s3, Word(d));
    PlusSums(s3, Word(d), 24, 8, Count(a + b + c), Count(d));
    CountConcat(a + b + c, d);
    var s5 := Plus32(s4, Word(e));
    PlusSums(s4, Word(e), 32, 8, Count(a + b + c + d), Count(e));
    CountConcat(a + b + c + d, e);
    var s6 := Plus32(s5, Word(f));
    PlusSums(s5, Word(f), 40, 8, Count(a + b + c + d + e), Count(f));
    CountConcat(a + b + c + d + e, f);
    PlusSums(s6, Word(g), 48, 8, Count(a + b + c + d + e + f), Count(g));
    CountConcat(a + b + c + d + e + f, g);
    TopSums(Plus32(s6, Word(g)), 56, Count(a + b + c + d + e + f + g));
    SevenWords(p);
  }

  lemma SevenWords(p: seq<bv8>)
    requires |p| == 28
    ensures p == p[..4] + p[4..8] + p[8..12] + p[12..16] + p[16..20] + p[20..24] + p[24..]
  {
    assert p[..8] == p[..4] + p[4..8];
    assert p[..12] == p[..8] + p[8..12];
    assert p[..16] == p[..12] + p[12..16];
    assert p[..20] == p[..16] + p[16..20];
    assert p[..24] == p[..20] + p[20..24];
  }

  lemma SameSlice(p: seq<bv8>, i: nat, q: seq<bv8>, j: nat, k: nat)
    requires i + 28 <= |p| && q == p[i..i + 28] && j <= k <= 28
    ensures p[i + j..i + k] == q[j..k]
  {
    assert forall n | 0 <= n < k - j :: q[j..k][n] == p[i + j..i + k][n];
  }

  lemma SameBlock(p: seq<bv8>, i: nat)
    requires i + 28 <= |p|
    ensures var q := p[i..i + 28];
            && p[i..i + 4] == q[..4] && p[i + 4..i + 8] == q[4..8] && p[i + 8..i + 12] == q[8..12]
            && p[i + 12..i + 16] == q[12..16] && p[i + 16..i + 20] == q[16..20]
            && p[i + 20..i + 24] == q[20..24] && p[i + 24..i + 28] == q[24..]
  {
    var q := p[i..i + 28];
    SameSlice(p, i, q, 0, 4);
    SameSlice(p, i, q, 4, 8);
    SameSlice(p, i, q, 8, 12);
    SameSlice(p, i, q, 12, 16);
    SameSlice(p, i, q, 16, 20);
    SameSlice(p, i, q, 20, 24);
    SameSlice(p, i, q, 24, 28);
  }

  method CountBlock(p: seq<bv8>, i: nat) returns (n: nat)
    requires i + 28 <= |p|
    ensures n == Count(p[i..i + 28])
  {
    hide Word, Count, Top, Times, Sum7;
    var a, b, c, d := Word(p[i..i + 4]), Word(p[i + 4..i + 8]), Word(p[i + 8..i + 12]), Word(p[i + 12..i + 16]);
    var e, f, g := Word(p[i + 16..i + 20]), Word(p[i + 20..i + 24]), Word(p[i + 24..i + 28]);
    n := Top(Times(Sum7(a, b, c, d, e, f, g)));
    SameBlock(p, i);
    BlockCount(p[i..i + 28]);
  }

  /** `address` is where the bytes start in memory, which decides how many are counted one by one first. */
  method Popcount(address: nat, p: seq<bv8>) returns (bits: nat)
    ensures bits == Count(p)
  {
    hide ByteCount, BitsInByte;
    bits := 0;
    var i := 0;
    assert p[..0] == [];
    while (address + i) % 4 != 0 && i < |p|
      invariant 0 <= i <= |p| && bits == Count(p[..i])
      decreases |p| - i
    {
      TableIsCount(p[i]);
      bits := bits + BitsInByte(p[i]);
      assert p[..i + 1][..i] == p[..i];
      i := i + 1;
    }
    while |p| - i >= 28
      invariant 0 <= i <= |p| && bits == Count(p[..i])
    {
      var n := CountBlock(p, i);
      CountConcat(p[..i], p[i..i + 28]);
      assert p[..i] + p[i..i + 28] == p[..i + 28];
      bits := bits + n;
      i := i + 28;
    }
    while i < |p|
      invariant 0 <= i <= |p| && bits == Count(p[..i])
    {
      TableIsCount(p[i]);
      bits := bits + BitsInByte(p[i]);
      assert p[..i + 1][..i] == p[..i];
      i := i + 1;
    }
    assert p[..i] == p;
  }
}
