/** Integers stored little-endian in two's complement at a given width, in a run of bytes. */
module IntSetBytes {
  import opened Arith

  type Byte = b: int | 0 <= b < 256

  type Buffer = seq<Byte>

  const INT16 := 2
  const INT32 := 4
  const INT64 := 8

  /** One past the largest value that `n` bytes hold. */
  function Limit(n: nat): (p: int)
    requires n > 0
    ensures p >= 128
  {
    if n == 1 then 128 else 256 * Limit(n - 1)
  }

  ghost predicate InRange(v: int, n: nat)
    requires n > 0
  {
    -Limit(n) <= v < Limit(n)
  }

  function Encode(v: int, n: nat): (b: Buffer)
    ensures |b| == n
    decreases n
  {
    if n == 0 then [] else [v % 256] + Encode(v / 256, n - 1)
  }

  function Decode(b: Buffer): (v: int)
    requires b != []
    ensures -Limit(|b|) <= v < Limit(|b|)
  {
    if |b| == 1 then (if b[0] < 128 then b[0] else b[0] - 256)
    else b[0] + 256 * Decode(b[1..])
  }

  /** Storing and loading at a width that holds the value gives the value back. */
  lemma {:induction false} DecodeEncode(v: int, n: nat)
    requires n > 0 && InRange(v, n)
    ensures Decode(Encode(v, n)) == v
    decreases n
  {
    if n == 1 {
      assert Encode(v, 1) == [v % 256];
    } else {
      assert Encode(v, n)[1..] == Encode(v / 256, n - 1);
      DecodeEncode(v / 256, n - 1);
    }
  }

  lemma Limits()
    ensures Limit(INT16) == 0x8000 && Limit(INT32) == 0x8000_0000 && Limit(INT64) == 0x8000_0000_0000_0000
  {
    assert Limit(3) == 0x80_0000;
    assert Limit(5) == 0x80_0000_0000;
    assert Limit(6) == 0x8000_0000_0000;
    assert Limit(7) == 0x80_0000_0000_0000;
  }

  // ---------- elements in a buffer ----------

  function Get(b: Buffer, off: nat, n: nat): int
    requires n > 0 && off + n <= |b|
  {
    Decode(b[off..off + n])
  }

  function Put(b: Buffer, off: nat, n: nat, v: int): (b': Buffer)
    requires off + n <= |b|
    ensures |b'| == |b|
  {
    b[..off] + Encode(v, n) + b[off + n..]
  }

  /** An element written is read back; one that does not overlap it is unchanged. */
  lemma GetPut(b: Buffer, off: nat, n: nat, v: int, off': nat, n': nat)
    requires n > 0 && n' > 0 && off + n <= |b| && off' + n' <= |b| && InRange(v, n)
    ensures off' == off && n' == n ==> Get(Put(b, off, n, v), off', n') == v
    ensures off' + n' <= off || off + n <= off' ==> Get(Put(b, off, n, v), off', n') == Get(b, off', n')
  {
    hide Encode, Decode;
    var c := Put(b, off, n, v);
    DecodeEncode(v, n);
    assert c[off..off + n] == Encode(v, n);
    assert forall k | 0 <= k < |b| && (k < off || off + n <= k) :: c[k] == b[k];
    if off' + n' <= off || off + n <= off' { SameSlice(c, off', b, off', n'); }
  }

  lemma SameSlice(b: Buffer, i: nat, c: Buffer, j: nat, n: nat)
    requires i + n <= |b| && j + n <= |c| && forall k | i <= k < i + n :: b[k] == c[k - i + j]
    ensures b[i..i + n] == c[j..j + n]
  {
    var x, y := b[i..i + n], c[j..j + n];
    forall k | 0 <= k < n ensures x[k] == y[k] { assert x[k] == b[i + k] && y[k] == c[j + k]; }
  }

  /** The elements of a buffer at width `n`. */
  function Elems(b: Buffer, n: nat, len: nat): (s: seq<int>)
    requires n > 0 && len * n <= |b|
    ensures |s| == len
  {
    seq(len, i requires 0 <= i < len => (Within(i, len, n, |b|); Get(b, i * n, n)))
  }

  lemma Within(i: int, len: nat, n: nat, size: nat)
    requires 0 <= i < len && len * n <= size && n > 0
    ensures 0 <= i * n && i * n + n <= size
  {
    MulGap(i, len, n);
    MulNonNegative(i, n);
  }

  lemma OffsetOrder(i: int, j: int, n: nat)
    requires 0 <= i < j && n > 0
    ensures 0 <= i * n && i * n + n <= j * n
  {
    MulGap(i, j, n);
    MulNonNegative(i, n);
  }

  /** An element of the sequence is the number stored at its offset. */
  lemma ElemAt(b: Buffer, n: nat, len: nat, i: nat)
    requires n > 0 && len * n <= |b| && i < len
    ensures i * n + n <= |b| && Elems(b, n, len)[i] == Get(b, i * n, n)
  {
    Within(i, len, n, |b|);
  }

  // ---------- insertion and removal ----------

  /** `memmove` of `count` bytes from `src` to `dst`. */
  function Move(b: Buffer, src: nat, dst: nat, count: nat): (b': Buffer)
    requires src + count <= |b| && dst + count <= |b|
    ensures |b'| == |b|
  {
    b[..dst] + b[src..src + count] + b[dst + count..]
  }

  lemma MovedGet(b: Buffer, src: nat, dst: nat, count: nat, off: nat, n: nat)
    requires n > 0 && src + count <= |b| && dst + count <= |b|
    ensures off + n <= dst ==> off + n <= |b| && Get(Move(b, src, dst, count), off, n) == Get(b, off, n)
    ensures off + n <= count ==> Get(Move(b, src, dst, count), dst + off, n) == Get(b, src + off, n)
  {
    hide Decode;
    var c := Move(b, src, dst, count);
    assert forall k | 0 <= k < dst :: c[k] == b[k];
    assert forall k | dst <= k < dst + count :: c[k] == b[k - dst + src];
    if off + n <= dst { SameSlice(c, off, b, off, n); }
    if off + n <= count {
      SameSlice(c, dst + off, b, src + off, n);
    }
  }
}
