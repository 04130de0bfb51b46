/** The computation of `BITOP` of bitops.c: four words at a time where every source has them, then byte by byte. */
module BitOp {
  import opened Common
  import opened Octets
  import opened Words

  datatype Op = OpAnd | OpOr | OpXor | OpNot

  type Bytes = seq<bv8>

  /** The byte of a source; a missing key is an empty string, and strings are padded with zeros. */
  function ByteAt(source: Option<Bytes>, j: nat): bv8 {
    if source.Some? && j < |source.value| then source.value[j] else 0
  }

  function Len(source: Option<Bytes>): nat {
    if source.Some? then |source.value| else 0
  }

  function Combine(op: Op, x: bv8, y: bv8): bv8 {
    match op
    case OpAnd => x & y
    case OpOr => x | y
    case OpXor => x ^ y
    case OpNot => x
  }

  /** Byte `j` of the operation over the first `n` sources. */
  function Folded(op: Op, sources: seq<Option<Bytes>>, n: nat, j: nat): bv8
    requires 1 <= n <= |sources|
  {
    if n > 1 then Combine(op, Folded(op, sources, n - 1, j), ByteAt(sources[n - 1], j))
    else if op.OpNot? then Flip(ByteAt(sources[0], j))
    else ByteAt(sources[0], j)
  }

  /** The length of the longest source. */
  function Longest(sources: seq<Option<Bytes>>): nat {
    if sources == [] then 0
    else
      var rest := Longest(sources[..|sources| - 1]);
      var last := Len(sources[|sources| - 1]);
      if last > rest then last else rest
  }

  // ---------- words ----------

  /** A word as the machine loads it from eight bytes. */
  function WordOf(b: Bytes): Word
    requires |b| == 8
  {
    seq(WIDTH, i requires 0 <= i < WIDTH => ByteHas(b[i / 8], i % 8))
  }

  function ByteFrom(w: Bits): bv8
    requires |w| == 8
  {
    OneIf(w, 0) | OneIf(w, 1) | OneIf(w, 2) | OneIf(w, 3) | OneIf(w, 4) | OneIf(w, 5) | OneIf(w, 6) | OneIf(w, 7)
  }

  function OneIf(w: Bits, i: nat): bv8
    requires |w| == 8 && i < 8
  {
    if w[i] then BitMask(i) else 0
  }

  /** Byte `k` of a word, as the machine stores it. */
  function ByteOf(w: Word, k: nat): bv8
    requires k < 8
  {
    ByteFrom(w[8 * k..8 * k + 8])
  }

  function CombineWords(op: Op, x: Word, y: Word): Word {
    match op
    case OpAnd => And(x, y)
    case OpOr => Or(x, y)
    case OpXor => Xor(x, y)
    case OpNot => x
  }

  lemma FromBits(w: Bits, i: nat)
    requires |w| == 8 && i < 8
    ensures ByteHas(ByteFrom(w), i) == w[i]
  {
  }

  lemma ByteOfBit(w: Word, k: nat, i: nat)
    requires k < 8 && i < 8
    ensures ByteHas(ByteOf(w, k), i) == w[8 * k + i]
  {
    hide ByteFrom, ByteHas;
    FromBits(w[8 * k..8 * k + 8], i);
  }

  lemma LoadedByte(b: Bytes, k: nat)
    requires |b| == 8 && k < 8
    ensures ByteOf(WordOf(b), k) == b[k]
  {
    hide ByteOf, ByteHas;
    forall i | 0 <= i < 8
      ensures ByteHas(ByteOf(WordOf(b), k), i) == ByteHas(b[k], i)
    {
      ByteOfBit(WordOf(b), k, i);
      assert (8 * k + i) / 8 == k && (8 * k + i) % 8 == i;
    }
    SameBits(ByteOf(WordOf(b), k), b[k]);
  }

  function Flip(x: bv8): bv8 { !x }

  function CombineBit(op: Op, x: bool, y: bool): bool {
    match op
    case OpAnd => x && y
    case OpOr => x || y
    case OpXor => x != y
    case OpNot => x
  }

  lemma AndBit(x: bv8, y: bv8, i: nat)
    requires i < 8
    ensures ByteHas(x & y, i) == (ByteHas(x, i) && ByteHas(y, i))
  {
  }

  lemma OrBit(x: bv8, y: bv8, i: nat)
    requires i < 8
    ensures ByteHas(x | y, i) == (ByteHas(x, i) || ByteHas(y, i))
  {
  }

  /** Bit `i` of an exclusive or. */
  ghost predicate XorsBit(x: bv8, y: bv8, i: nat)
    requires i < 8
  {
    ByteHas(x ^ y, i) == (ByteHas(x, i) != ByteHas(y, i))
  }

  lemma XorBit0(x: bv8, y: bv8)
    ensures XorsBit(x, y, 0)
  {
    assert ((x ^ y) & 0x01 != 0) == ((x & 0x01 != 0) != (y & 0x01 != 0));
  }

  lemma XorBit1(x: bv8, y: bv8)
    ensures XorsBit(x, y, 1)
  {
    assert ((x ^ y) & 0x02 != 0) == ((x & 0x02 != 0) != (y & 0x02 != 0));
  }

  lemma XorBit2(x: bv8, y: bv8)
    ensures XorsBit(x, y, 2)
  {
    assert ((x ^ y) & 0x04 != 0) == ((x & 0x04 != 0) != (y & 0x04 != 0));
  }

  lemma XorBit3(x: bv8, y: bv8)
    ensures XorsBit(x, y, 3)
  {
    assert ((x ^ y) & 0x08 != 0) == ((x & 0x08 != 0) != (y & 0x08 != 0));
  }

  lemma XorBit4(x: bv8, y: bv8)
    ensures XorsBit(x, y, 4)
  {
    assert ((x ^ y) & 0x10 != 0) == ((x & 0x10 != 0) != (y & 0x10 != 0));
  }

  lemma XorBit5(x: bv8, y: bv8)
    ensures XorsBit(x, y, 5)
  {
    assert ((x ^ y) & 0x20 != 0) == ((x & 0x20 != 0) != (y & 0x20 != 0));
  }

  lemma XorBit6(x: bv8, y: bv8)
    ensures XorsBit(x, y, 6)
  {
    assert ((x ^ y) & 0x40 != 0) == ((x & 0x40 != 0) != (y & 0x40 != 0));
  }

  lemma XorBit7(x: bv8, y: bv8)
    ensures XorsBit(x, y, 7)
  {
    assert ((x ^ y) & 0x80 != 0) == ((x & 0x80 != 0) != (y & 0x80 != 0));
  }

  lemma XorBit(x: bv8, y: bv8, i: nat)
    requires i < 8
    ensures XorsBit(x, y, i)
  {
    hide XorsBit;
    match i
    case 0 => XorBit0(x, y);
    case 1 => XorBit1(x, y);
    case 2 => XorBit2(x, y);
    case 3 => XorBit3(x, y);
    case 4 => XorBit4(x, y);
    case 5 => XorBit5(x, y);
    case 6 => XorBit6(x, y);
    case _ => XorBit7(x, y);
  }

  lemma CombinedBit(op: Op, x: bv8, y: bv8, i: nat)
    requires i < 8
    ensures ByteHas(Combine(op, x, y), i) == CombineBit(op, ByteHas(x, i), ByteHas(y, i))
  {
    hide ByteHas;
    match op
    case OpAnd => AndBit(x, y, i);
    case OpOr => OrBit(x, y, i);
    case OpXor => XorBit(x, y, i);
    case OpNot =>
  }

  lemma FlippedBit(x: bv8, i: nat)
    requires i < 8
    ensures ByteHas(Flip(x), i) == !ByteHas(x, i)
  {
  }

  /** How many of the first `n` sources have bit `i` of byte `j`. */
  function SetIn(sources: seq<Option<Bytes>>, n: nat, j: nat, i: nat): nat
    requires n <= |sources| && i < 8
  {
    if n == 0 then 0 else SetIn(sources, n - 1, j, i) + Bit(ByteHas(ByteAt(sources[n - 1], j), i))
  }

  /** A bit of the result is set if it is in all sources, in some, in an odd number of them, or not in the only one. */
  lemma {:induction false} FoldedBits(op: Op, sources: seq<Option<Bytes>>, n: nat, j: nat, i: nat)
    requires 1 <= n <= |sources| && i < 8 && (op.OpNot? ==> n == 1)
    ensures ByteHas(Folded(op, sources, n, j), i) <==>
            match op
            case OpAnd => SetIn(sources, n, j, i) == n
            case OpOr => SetIn(sources, n, j, i) > 0
            case OpXor => SetIn(sources, n, j, i) % 2 == 1
            case OpNot => SetIn(sources, n, j, i) == 0
    ensures SetIn(sources, n, j, i) <= n
  {
    hide ByteHas, Combine, Flip;
    if n == 1 {
      FlippedBit(ByteAt(sources[0], j), i);
      assert SetIn(sources, 1, j, i) == SetIn(sources, 0, j, i) + Bit(ByteHas(ByteAt(sources[0], j), i));
    } else {
      FoldedBits(op, sources, n - 1, j, i);
      CombinedBit(op, Folded(op, sources, n - 1, j), ByteAt(sources[n - 1], j), i);
    }
  }

  /** The operation on words is the operation on each of their bytes. */
  lemma CombinedByte(op: Op, x: Word, y: Word, k: nat)
    requires k < 8
    ensures ByteOf(CombineWords(op, x, y), k) == Combine(op, ByteOf(x, k), ByteOf(y, k))
  {
    hide ByteOf, ByteHas, Combine;
    var z := CombineWords(op, x, y);
    forall i | 0 <= i < 8
      ensures ByteHas(ByteOf(z, k), i) == ByteHas(Combine(op, ByteOf(x, k), ByteOf(y, k)), i)
    {
      ByteOfBit(x, k, i);
      ByteOfBit(y, k, i);
      ByteOfBit(z, k, i);
      CombinedBit(op, ByteOf(x, k), ByteOf(y, k), i);
    }
    SameBits(ByteOf(z, k), Combine(op, ByteOf(x, k), ByteOf(y, k)));
  }

  lemma NegatedByte(x: Word, k: nat)
    requires k < 8
    ensures ByteOf(Not(x), k) == Flip(ByteOf(x, k))
  {
    hide ByteOf, ByteHas, Flip;
    forall i | 0 <= i < 8
      ensures ByteHas(ByteOf(Not(x), k), i) == ByteHas(Flip(ByteOf(x, k)), i)
    {
      ByteOfBit(x, k, i);
      ByteOfBit(Not(x), k, i);
      FlippedBit(ByteOf(x, k), i);
    }
    SameBits(ByteOf(Not(x), k), Flip(ByteOf(x, k)));
  }

  method StoreWord(res: array<bv8>, at: nat, w: Word)
    requires at + 8 <= res.Length
    modifies res
    ensures forall k | 0 <= k < res.Length ::
              res[k] == (if at <= k < at + 8 then ByteOf(w, k - at) else old(res[k]))
  {
    hide ByteOf;
    for k := 0 to 8
      invariant forall i | 0 <= i < res.Length ::
                  res[i] == (if at <= i < at + k then ByteOf(w, i - at) else old(res[i]))
    {
      res[at + k] := ByteOf(w, k);
    }
  }

  /** `lres[0] &= lp[i][0]` and its likes. */
  method WordStep(op: Op, res: array<bv8>, at: nat, source: Bytes)
    requires at + 8 <= res.Length && at + 8 <= |source|
    modifies res
    ensures forall k | 0 <= k < res.Length ::
              res[k] == (if at <= k < at + 8 then Combine(op, old(res[k]), source[k]) else old(res[k]))
  {
    hide ByteOf, WordOf, Combine, CombineWords;
    var x, y := res[at..at + 8], source[at..at + 8];
    StoreWord(res, at, CombineWords(op, WordOf(x), WordOf(y)));
    forall k | at <= k < at + 8
      ensures res[k] == Combine(op, old(res[k]), source[k])
    {
      CombinedByte(op, WordOf(x), WordOf(y), k - at);
      LoadedByte(x, k - at);
      LoadedByte(y, k - at);
    }
  }

  method NegateStep(res: array<bv8>, at: nat)
    requires at + 8 <= res.Length
    modifies res
    ensures forall k | 0 <= k < res.Length ::
              res[k] == (if at <= k < at + 8 then Flip(old(res[k])) else old(res[k]))
  {
    hide ByteOf, WordOf, Flip;
    var x := res[at..at + 8];
    StoreWord(res, at, Not(WordOf(x)));
    forall k | at <= k < at + 8
      ensures res[k] == Flip(old(res[k]))
    {
      NegatedByte(WordOf(x), k - at);
      LoadedByte(x, k - at);
    }
  }

  /** Four words of one source. */
  method BlockStep(op: Op, res: array<bv8>, at: nat, source: Bytes)
    requires at + 32 <= res.Length && at + 32 <= |source|
    modifies res
    ensures forall k | 0 <= k < res.Length ::
              res[k] == (if at <= k < at + 32 then Combine(op, old(res[k]), source[k]) else old(res[k]))
  {
    hide Combine;
    WordStep(op, res, at, source);
    WordStep(op, res, at + 8, source);
    WordStep(op, res, at + 16, source);
    WordStep(op, res, at + 24, source);
  }

  method NegateBlock(res: array<bv8>, at: nat)
    requires at + 32 <= res.Length
    modifies res
    ensures forall k | 0 <= k < res.Length ::
              res[k] == (if at <= k < at + 32 then Flip(old(res[k])) else old(res[k]))
  {
    NegateStep(res, at);
    NegateStep(res, at + 8);
    NegateStep(res, at + 16);
    NegateStep(res, at + 24);
  }

  // ---------- lengths ----------

  lemma LongestStep(sources: seq<Option<Bytes>>, j: nat)
    requires j < |sources|
    ensures Longest(sources[..j + 1]) ==
              (if Len(sources[j]) > Longest(sources[..j]) then Len(sources[j]) else Longest(sources[..j]))
  {
    assert sources[..j + 1][..j] == sources[..j];
  }

  /** The longest source, and a length that every source has; a missing key brings the latter down to 0. */
  method Lengths(sources: seq<Option<Bytes>>) returns (max: nat, min: nat)
    requires |sources| >= 1
    ensures max == Longest(sources)
    ensures forall i | 0 <= i < |sources| :: min <= Len(sources[i]) <= max
    ensures exists i | 0 <= i < |sources| :: Len(sources[i]) == max
  {
    hide Longest;
    max, min := 0, 0;
    assert Longest(sources[..0]) == 0 by { NoSource(sources[..0]); }
    for j := 0 to |sources|
      invariant max == Longest(sources[..j])
      invariant forall i | 0 <= i < j :: min <= Len(sources[i]) <= max
      invariant if j == 0 then max == 0 else exists i | 0 <= i < j :: Len(sources[i]) == max
    {
      LongestStep(sources, j);
      if sources[j].None? {
        min := 0;
      } else {
        var len := |sources[j].value|;
        if len > max { max := len; }
        if j == 0 || len < min { min := len; }
      }
    }
    assert sources[..|sources|] == sources;
  }

  lemma NoSource(sources: seq<Option<Bytes>>)
    requires sources == []
    ensures Longest(sources) == 0
  {
  }

  // ---------- the operation ----------

  /** Four words at a time for as long as every source has them; `j` is the first byte left to do. */
  method FastPath(op: Op, sources: seq<Option<Bytes>>, res: array<bv8>, minlen: nat) returns (j: nat)
    requires 1 <= |sources| && (op.OpNot? ==> |sources| == 1)
    requires forall i | 0 <= i < |sources| :: minlen <= Len(sources[i])
    requires 32 <= minlen <= res.Length
    modifies res
    ensures j <= minlen
    ensures forall k | 0 <= k < j :: res[k] == Folded(op, sources, |sources|, k)
  {
    hide Folded, Combine;
    assert sources[0].Some?;
    forall k | 0 <= k < minlen {
      res[k] := sources[0].value[k];
    }
    j := 0;
    var left := minlen;
    while left >= 32
      invariant j + left == minlen
      invariant forall k | 0 <= k < j :: res[k] == Folded(op, sources, |sources|, k)
      invariant forall k | j <= k < minlen :: res[k] == ByteAt(sources[0], k)
    {
      if op.OpNot? {
        NegateBlock(res, j);
        forall k | j <= k < j + 32
          ensures res[k] == Folded(op, sources, 1, k)
        {
          FoldedOne(op, sources, k);
        }
      } else {
        Block(op, sources, res, j, minlen);
      }
      j := j + 32;
      left := left - 32;
    }
  }

  lemma FoldedOne(op: Op, sources: seq<Option<Bytes>>, k: nat)
    requires |sources| >= 1 && k < Len(sources[0])
    ensures Folded(op, sources, 1, k) == if op.OpNot? then Flip(sources[0].value[k]) else sources[0].value[k]
  {
  }

  lemma FoldedNext(op: Op, sources: seq<Option<Bytes>>, n: nat, k: nat)
    requires 1 <= n < |sources| && k < Len(sources[n])
    ensures Folded(op, sources, n + 1, k) == Combine(op, Folded(op, sources, n, k), sources[n].value[k])
  {
  }

  method Block(op: Op, sources: seq<Option<Bytes>>, res: array<bv8>, j: nat, minlen: nat)
    requires 1 <= |sources| && !op.OpNot? && j + 32 <= minlen <= res.Length
    requires forall i | 0 <= i < |sources| :: minlen <= Len(sources[i])
    requires forall k | j <= k < minlen :: res[k] == ByteAt(sources[0], k)
    modifies res
    ensures forall k | j <= k < j + 32 :: res[k] == Folded(op, sources, |sources|, k)
    ensures forall k | 0 <= k < res.Length && !(j <= k < j + 32) :: res[k] == old(res[k])
  {
    hide Folded, Combine;
    forall k | j <= k < j + 32
      ensures res[k] == Folded(op, sources, 1, k)
    {
      FoldedOne(op, sources, k);
    }
    for i := 1 to |sources|
      invariant forall k | j <= k < j + 32 :: res[k] == Folded(op, sources, i, k)
      invariant forall k | 0 <= k < res.Length && !(j <= k < j + 32) :: res[k] == old(res[k])
    {
      assert sources[i].Some?;
      BlockStep(op, res, j, sources[i].value);
      forall k | j <= k < j + 32
        ensures res[k] == Folded(op, sources, i + 1, k)
      {
        FoldedNext(op, sources, i, k);
      }
    }
  }

  /** One byte, over all sources. */
  method SlowByte(op: Op, sources: seq<Option<Bytes>>, j: nat) returns (output: bv8)
    requires 1 <= |sources|
    ensures output == Folded(op, sources, |sources|, j)
  {
    output := if Len(sources[0]) <= j then 0 else sources[0].value[j];
    if op.OpNot? { output := Flip(output); }
    for i := 1 to |sources|
      invariant output == Folded(op, sources, i, j)
    {
      var byte := if Len(sources[i]) <= j then 0 else sources[i].value[j];
      output := Combine(op, output, byte);
    }
  }

  /** `ok` is false for the error of NOT with more than one source; no bytes means that the target is deleted. */
  method Compute(op: Op, sources: seq<Option<Bytes>>) returns (ok: bool, result: Bytes)
    requires 1 <= |sources|
    ensures ok <==> (op.OpNot? ==> |sources| == 1)
    ensures ok ==> |result| == Longest(sources)
    ensures ok ==> forall j | 0 <= j < |result| :: result[j] == Folded(op, sources, |sources|, j)
  {
    hide Folded, Longest;
    if op.OpNot? && |sources| != 1 {
      return false, [];
    }
    var maxlen, minlen := Lengths(sources);
    var res := new bv8[maxlen](_ => 0);
    if maxlen != 0 {
      var j := 0;
      if minlen >= 32 && |sources| <= 16 {
        assert minlen <= Len(sources[0]) <= maxlen;
        j := FastPath(op, sources, res, minlen);
      }
      while j < maxlen
        invariant j <= maxlen
        invariant forall k | 0 <= k < j :: res[k] == Folded(op, sources, |sources|, k)
      {
        var output := SlowByte(op, sources, j);
        res[j] := output;
        j := j + 1;
      }
    }
    return true, res[..];
  }
}
