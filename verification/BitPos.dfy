/** `redisBitpos` of bitops.c: whole words first, then one bit at a time, against the first matching position. */
module BitPos {
  import opened Octets
  import opened Words

  /** No bit of the first `i` bytes is the one looked for. */
  ghost predicate Passed(p: seq<bv8>, i: nat, bit: bool) {
    forall k: nat | k < 8 * i :: StringBit(p, k) != bit
  }

  /** The byte that has no bit of the kind looked for. */
  function Skip(bit: bool): bv8 {
    if bit then 0 else 0xFF
  }

  function SkipWord(bit: bool): seq<bv8> {
    seq(8, _ => Skip(bit))
  }

  lemma SkipBits(bit: bool, i: nat)
    requires i < 8
    ensures ByteHas(Skip(bit), i) != bit
  {
  }

  lemma OtherHasBit(b: bv8, bit: bool)
    requires b != Skip(bit)
    ensures exists i: nat | i < 8 :: ByteHas(b, i) == bit
  {
    if forall i: nat | i < 8 :: ByteHas(b, i) != bit {
      hide ByteHas;
      forall i | 0 <= i < 8
        ensures ByteHas(b, i) == ByteHas(Skip(bit), i)
      {
        SkipBits(bit, i);
      }
      SameBits(b, Skip(bit));
    }
  }

  lemma PassByte(p: seq<bv8>, i: nat, bit: bool)
    requires i < |p| && Passed(p, i, bit) && p[i] == Skip(bit)
    ensures Passed(p, i + 1, bit)
  {
    hide ByteHas;
    forall k: nat | k < 8 * (i + 1)
      ensures StringBit(p, k) != bit
    {
      if k >= 8 * i {
        SkipBits(bit, 7 - k % 8);
      }
    }
  }

  lemma {:induction false} PassBytes(p: seq<bv8>, i: nat, n: nat, bit: bool)
    requires i + n <= |p| && Passed(p, i, bit) && forall j | i <= j < i + n :: p[j] == Skip(bit)
    ensures Passed(p, i + n, bit)
  {
    hide Passed;
    if n > 0 {
      PassBytes(p, i, n - 1, bit);
      PassByte(p, i + n - 1, bit);
    }
  }

  // ---------- the word that is scanned bit by bit ----------

  /** A byte widened to a word. */
  function Widen(b: bv8): (w: Word) {
    seq(WIDTH, i requires 0 <= i < WIDTH => i < 8 && ByteHas(b, i))
  }

  /** The low `8 * n` bits of the word are the bits of `n` bytes of the string from byte `i` on. */
  ghost predicate Loaded(p: seq<bv8>, i: nat, n: nat, w: Word)
    requires n <= 8
  {
    forall at: nat | at < 8 * n :: w[at] == StringBit(p, 8 * (i + n) - 1 - at)
  }

  lemma LoadByte(p: seq<bv8>, i: nat, n: nat, w: Word, x: Word)
    requires n < 8 && Loaded(p, i, n, w)
    requires x == (if i + n < |p| then Or(Shl(w, 8), Widen(p[i + n])) else Shl(w, 8))
    ensures Loaded(p, i, n + 1, x)
  {
    hide ByteHas;
    forall at: nat | at < 8 * (n + 1)
      ensures x[at] == StringBit(p, 8 * (i + n + 1) - 1 - at)
    {
      var k := 8 * (i + n + 1) - 1 - at;
      if at >= 8 {
        assert w[at - 8] == StringBit(p, k);
      } else {
        assert k / 8 == i + n && 7 - k % 8 == at;
      }
    }
  }

  /** Only bit `k` is set, or none when `k` is below the word. */
  function OneBit(k: int): (w: Word) {
    seq(WIDTH, i requires 0 <= i < WIDTH => i == k)
  }

  lemma HighestBit()
    ensures Not(Shr(Ones(WIDTH), 1)) == OneBit(WIDTH - 1)
  {
  }

  lemma NextBit(k: nat)
    requires k < WIDTH
    ensures Shr(OneBit(k), 1) == OneBit(k - 1)
  {
  }

  lemma TestBit(k: nat, w: Word)
    requires k < WIDTH
    ensures OneBit(k) != Zeros(WIDTH)
    ensures (And(OneBit(k), w) != Zeros(WIDTH)) == w[k]
  {
    var a := And(OneBit(k), w);
    assert a[k] == w[k] && OneBit(k)[k];
    if !w[k] {
      assert a == Zeros(WIDTH);
    }
  }

  lemma AtByte(p: seq<bv8>, i: nat, w: Word, n: nat, j: nat, b: nat)
    requires Loaded(p, i, 8, w) && i <= j < i + 8 && j < |p| && b < 8 && n == 8 * (j - i) + (7 - b)
    ensures w[WIDTH - 1 - n] == ByteHas(p[j], b)
  {
    hide ByteHas;
    assert (8 * i + n) / 8 == j && 7 - (8 * i + n) % 8 == b;
    assert w[63 - n] == StringBit(p, 8 * i + n);
  }

  /** In the last word there is a bit of the kind looked for. */
  lemma WordHasBit(p: seq<bv8>, i: nat, bit: bool, w: Word) returns (n: nat)
    requires i <= |p| && Loaded(p, i, 8, w)
    requires bit ==> w != Zeros(WIDTH)
    requires i + 8 <= |p| ==> exists j | i <= j < i + 8 :: p[j] != Skip(bit)
    ensures n < WIDTH && w[WIDTH - 1 - n] == bit
  {
    hide ByteHas;
    if bit {
      assert w == Zeros(WIDTH) || exists k | 0 <= k < WIDTH :: w[k];
      var k :| 0 <= k < WIDTH && w[k];
      n := WIDTH - 1 - k;
    } else if i + 8 <= |p| {
      var j :| i <= j < i + 8 && p[j] != Skip(bit);
      OtherHasBit(p[j], bit);
      var b: nat :| b < 8 && ByteHas(p[j], b) == bit;
      n := 8 * (j - i) + (7 - b);
      AtByte(p, i, w, n, j, b);
    } else {
      n := 8 * (|p| - i);
      assert (8 * i + n) / 8 == |p|;
      assert w[63 - n] == StringBit(p, 8 * i + n);
    }
  }

  // ---------- the three phases ----------

  /** Whole bytes up to the next word boundary, then whole words, as long as they hold nothing of interest. */
  method SkipWords(address: nat, p: seq<bv8>, bit: bool) returns (i: nat)
    ensures i <= |p| && Passed(p, i, bit)
    ensures i + 8 <= |p| ==> exists j | i <= j < i + 8 :: p[j] != Skip(bit)
  {
    hide Passed, ByteHas;
    i := 0;
    assert Passed(p, 0, bit) by { Nothing(p, bit); }
    while (address + i) % 8 != 0 && i < |p|
      invariant i <= |p| && Passed(p, i, bit)
      decreases |p| - i
    {
      if p[i] != Skip(bit) { break; }
      PassByte(p, i, bit);
      i := i + 1;
    }
    while |p| - i >= 8
      invariant i <= |p| && Passed(p, i, bit)
    {
      var word := p[i..i + 8];
      if word != SkipWord(bit) {
        Differs(p, i, bit);
        break;
      }
      assert forall j | i <= j < i + 8 :: p[j] == word[j - i];
      PassBytes(p, i, 8, bit);
      i := i + 8;
    }
  }

  lemma Nothing(p: seq<bv8>, bit: bool)
    ensures Passed(p, 0, bit)
  {
  }

  lemma Differs(p: seq<bv8>, i: nat, bit: bool)
    requires i + 8 <= |p| && p[i..i + 8] != SkipWord(bit)
    ensures exists j | i <= j < i + 8 :: p[j] != Skip(bit)
  {
    assert (forall j | i <= j < i + 8 :: p[j] == Skip(bit)) ==> p[i..i + 8] == SkipWord(bit);
  }

  method LoadWord(p: seq<bv8>, i: nat) returns (word: Word)
    ensures Loaded(p, i, 8, word)
  {
    hide Loaded;
    word := Zeros(WIDTH);
    assert Loaded(p, i, 0, word) by { NoBytes(p, i, word); }
    for j := 0 to 8
      invariant Loaded(p, i, j, word)
    {
      ghost var before := word;
      word := Shl(word, 8);
      if i + j < |p| {
        word := Or(word, Widen(p[i + j]));
      }
      LoadByte(p, i, j, before, word);
    }
  }

  lemma NoBytes(p: seq<bv8>, i: nat, w: Word)
    ensures Loaded(p, i, 0, w)
  {
  }

  /**
   The first position that holds `bit`; the string is taken to end in zeros, so that a zero is always
   found.  `address` is where the string starts in memory.
   */
  method Bitpos(address: nat, p: seq<bv8>, bit: bool) returns (pos: int)
    ensures pos == -1 <==> bit && forall k: nat :: !StringBit(p, k)
    ensures pos != -1 ==> 0 <= pos <= 8 * |p| && StringBit(p, pos) == bit
    ensures forall k: nat | k < pos :: StringBit(p, k) != bit
  {
    hide ByteHas;
    var i := SkipWords(address, p, bit);
    pos := 8 * i;
    var word := LoadWord(p, i);
    if bit && word == Zeros(WIDTH) {
      AllZero(p, i, word);
      return -1;
    }
    ghost var hit := WordHasBit(p, i, bit, word);
    var n := ScanWord(word, bit, hit);
    Found(p, i, word, n, bit);
    pos := pos + n;
  }

  /** From the highest bit down; the end of the loop is not reached as long as there is a hit. */
  method ScanWord(word: Word, bit: bool, ghost hit: nat) returns (n: nat)
    requires hit < WIDTH && word[WIDTH - 1 - hit] == bit
    ensures n < WIDTH && word[WIDTH - 1 - n] == bit
    ensures forall at | WIDTH - n <= at < WIDTH :: word[at] != bit
  {
    var one := Shr(Ones(WIDTH), 1);
    one := Not(one);
    HighestBit();
    n := 0;
    while one != Zeros(WIDTH)
      invariant 0 <= n <= hit && one == OneBit(WIDTH - 1 - n)
      invariant forall at | WIDTH - n <= at < WIDTH :: word[at] != bit
      decreases hit - n
    {
      TestBit(WIDTH - 1 - n, word);
      if (And(one, word) != Zeros(WIDTH)) == bit {
        return;
      }
      NextBit(WIDTH - 1 - n);
      one := Shr(one, 1);
      n := n + 1;
    }
    TestBit(WIDTH - 1 - n, word);
    assert false;
  }

  lemma AllZero(p: seq<bv8>, i: nat, w: Word)
    requires i <= |p| && Passed(p, i, true) && Loaded(p, i, 8, w) && w == Zeros(WIDTH)
    requires i + 8 <= |p| ==> exists j | i <= j < i + 8 :: p[j] != Skip(true)
    ensures forall k: nat :: !StringBit(p, k)
  {
    hide ByteHas;
    if i + 8 <= |p| {
      var j :| i <= j < i + 8 && p[j] != Skip(true);
      OtherHasBit(p[j], true);
      var b: nat :| b < 8 && ByteHas(p[j], b);
      AtByte(p, i, w, 8 * (j - i) + (7 - b), j, b);
      assert false;
    }
    forall k: nat
      ensures !StringBit(p, k)
    {
      if 8 * i <= k < 8 * i + 64 {
        assert w[63 - (k - 8 * i)] == StringBit(p, 8 * i + (k - 8 * i));
      }
    }
  }

  lemma Found(p: seq<bv8>, i: nat, w: Word, n: nat, bit: bool)
    requires i <= |p| && Passed(p, i, bit) && Loaded(p, i, 8, w) && n < WIDTH
    requires w[WIDTH - 1 - n] == bit && forall at | WIDTH - n <= at < WIDTH :: w[at] != bit
    ensures StringBit(p, 8 * i + n) == bit && forall k: nat | k < 8 * i + n :: StringBit(p, k) != bit
    ensures 8 * i + n <= 8 * |p|
  {
    hide ByteHas;
    forall k: nat | k < 8 * i + n
      ensures StringBit(p, k) != bit
    {
      if k >= 8 * i {
        assert w[63 - (k - 8 * i)] == StringBit(p, 8 * i + (k - 8 * i));
      }
    }
    assert w[63 - n] == StringBit(p, 8 * i + n);
    assert 8 * i + n > 8 * |p| ==> !StringBit(p, 8 * |p|);
  }
}
