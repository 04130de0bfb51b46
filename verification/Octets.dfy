/** Single bits of a byte, by the masks that C code shifts into place. */
module Octets {

  /** `1 << bit` */
  function BitMask(bit: nat): bv8
    requires bit < 8
  {
    match bit
    case 0 => 0x01
    case 1 => 0x02
    case 2 => 0x04
    case 3 => 0x08
    case 4 => 0x10
    case 5 => 0x20
    case 6 => 0x40
    case _ => 0x80
  }

  predicate ByteHas(x: bv8, bit: nat)
    requires bit < 8
  {
    x & BitMask(bit) != 0
  }

  function ByteSet(x: bv8, bit: nat): bv8
    requires bit < 8
  {
    x | BitMask(bit)
  }

  function ByteClear(x: bv8, bit: nat): bv8
    requires bit < 8
  {
    x & !BitMask(bit)
  }

  lemma SetBits(x: bv8, i: nat, j: nat)
    requires i < 8 && j < 8
    ensures ByteHas(ByteSet(x, i), j) == (i == j || ByteHas(x, j))
  {
  }

  lemma ClearBits(x: bv8, i: nat, j: nat)
    requires i < 8 && j < 8
    ensures ByteHas(ByteClear(x, i), j) == (i != j && ByteHas(x, j))
  {
  }

  lemma ByteBits(x: bv8, i: nat, j: nat)
    requires i < 8 && j < 8
    ensures ByteHas(ByteSet(x, i), j) == (i == j || ByteHas(x, j))
    ensures ByteHas(ByteClear(x, i), j) == (i != j && ByteHas(x, j))
  {
    hide ByteHas, ByteSet, ByteClear;
    SetBits(x, i, j);
    ClearBits(x, i, j);
  }

  /** The bits of a byte decide it. */
  lemma SameBits(x: bv8, y: bv8)
    requires forall i | 0 <= i < 8 :: ByteHas(x, i) == ByteHas(y, i)
    ensures x == y
  {
    assert ByteHas(x, 0) == ByteHas(y, 0) && ByteHas(x, 1) == ByteHas(y, 1);
    assert ByteHas(x, 2) == ByteHas(y, 2) && ByteHas(x, 3) == ByteHas(y, 3);
    assert ByteHas(x, 4) == ByteHas(y, 4) && ByteHas(x, 5) == ByteHas(y, 5);
    assert ByteHas(x, 6) == ByteHas(y, 6) && ByteHas(x, 7) == ByteHas(y, 7);
  }

  /** Bit `k` of a string, the highest bit of a byte first; the string ends in zeros without end. */
  predicate StringBit(p: seq<bv8>, k: nat) {
    k / 8 < |p| && ByteHas(p[k / 8], 7 - k % 8)
  }
}
