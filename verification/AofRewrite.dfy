/**
 The background rewrite of the append-only file: the parent collects the commands executed since the
 fork in a list of blocks and sends them to the child through a pipe; the child writes a snapshot and
 what it received; the parent appends the rest and switches files.
 */
module AofRewrite {
  import opened AofFormat

  const BLOCK_SIZE := 10 * 1024 * 1024
  const READ_SIZE := 65536

  /** `data` are the used bytes of a block; `free` is not raised when bytes leave its front. */
  datatype Block = Block(data: Bytes, free: nat)

  ghost predicate ValidBlocks(bs: seq<Block>) {
    forall b | b in bs :: |b.data| + b.free <= BLOCK_SIZE
  }

  function Contents(bs: seq<Block>): Bytes {
    if bs == [] then [] else bs[0].data + Contents(bs[1..])
  }

  /** The sizes of the writes that take everything, block by block. */
  function Sizes(bs: seq<Block>): seq<int> {
    if bs == [] then [] else (if |bs[0].data| > 0 then [|bs[0].data|] else []) + Sizes(bs[1..])
  }

  lemma {:induction false} ContentsConcat(a: seq<Block>, b: seq<Block>)
    ensures Contents(a + b) == Contents(a) + Contents(b)
  {
    if a == [] {
      assert a + b == b;
    } else {
      assert (a + b)[1..] == a[1..] + b;
      ContentsConcat(a[1..], b);
    }
  }

  lemma ContentsLast(bs: seq<Block>)
    requires bs != []
    ensures Contents(bs) == Contents(bs[..|bs| - 1]) + bs[|bs| - 1].data
  {
    var n := |bs| - 1;
    assert bs == bs[..n] + [bs[n]];
    ContentsConcat(bs[..n], [bs[n]]);
    assert [bs[n]][1..] == [] && bs[n].data + [] == bs[n].data;
  }

  /** Bytes copied into the last block. */
  lemma FillLast(bs: seq<Block>, s: Bytes, len: nat)
    requires ValidBlocks(bs) && bs != [] && len <= |s| && len <= bs[|bs| - 1].free
    ensures var n := |bs| - 1;
            var bs' := bs[n := Block(bs[n].data + s[..len], bs[n].free - len)];
            ValidBlocks(bs') && Contents(bs') + s[len..] == Contents(bs) + s
  {
    var n := |bs| - 1;
    var bs' := bs[n := Block(bs[n].data + s[..len], bs[n].free - len)];
    ContentsLast(bs);
    ContentsLast(bs');
    assert bs'[..n] == bs[..n];
    var c, d := Contents(bs[..n]), bs[n].data;
    assert s == s[..len] + s[len..];
    assert (c + (d + s[..len])) + s[len..] == (c + d) + (s[..len] + s[len..]);
    forall b | b in bs' ensures |b.data| + b.free <= BLOCK_SIZE { assert b == bs'[n] || b in bs; }
  }

  lemma NewLast(bs: seq<Block>)
    requires ValidBlocks(bs)
    ensures ValidBlocks(bs + [Block([], BLOCK_SIZE)]) && Contents(bs + [Block([], BLOCK_SIZE)]) == Contents(bs)
  {
    var b := [Block([], BLOCK_SIZE)];
    ContentsConcat(bs, b);
    assert b[1..] == [] && Contents(b) == [];
  }

  /** Bytes sent from the first block. */
  lemma DrainFirst(bs: seq<Block>, n: nat)
    requires ValidBlocks(bs) && bs != [] && n <= |bs[0].data|
    ensures var bs' := bs[0 := bs[0].(data := bs[0].data[n..])];
            ValidBlocks(bs') && bs[0].data[..n] + Contents(bs') == Contents(bs)
  {
    var bs' := bs[0 := bs[0].(data := bs[0].data[n..])];
    assert bs'[1..] == bs[1..];
    var d, rest := bs[0].data, Contents(bs[1..]);
    assert d == d[..n] + d[n..];
    assert d[..n] + (d[n..] + rest) == (d[..n] + d[n..]) + rest;
    forall b | b in bs' ensures |b.data| + b.free <= BLOCK_SIZE { assert b == bs'[0] || b in bs; }
  }

  lemma DropFirst(bs: seq<Block>)
    requires ValidBlocks(bs) && bs != [] && bs[0].data == []
    ensures ValidBlocks(bs[1..]) && Contents(bs[1..]) == Contents(bs)
  {
    assert [] + Contents(bs[1..]) == Contents(bs[1..]);
  }

  /** `aof_rewrite_buf_blocks` and the functions on it. */
  class RewriteBuffer {
    var blocks: seq<Block>

    ghost predicate Valid()
      reads this
    {
      ValidBlocks(blocks)
    }

    constructor ()
      ensures Valid() && blocks == []
    {
      blocks := [];
    }

    /** `aofRewriteBufferAppend`. */
    method Append(bytes: Bytes)
      requires Valid()
      modifies this
      ensures Valid() && Contents(blocks) == old(Contents(blocks)) + bytes
    {
      hide Contents, ValidBlocks;
      var s := bytes;
      while s != []
        invariant Valid() && Contents(blocks) + s == old(Contents(blocks)) + bytes
        decreases |s|, if blocks != [] && blocks[|blocks| - 1].free > 0 then 0 else 1
      {
        if blocks != [] {
          var n := |blocks| - 1;
          var b := blocks[n];
          var len := if b.free < |s| then b.free else |s|;
          if len > 0 {
            FillLast(blocks, s, len);
            blocks := blocks[n := Block(b.data + s[..len], b.free - len)];
            s := s[len..];
          }
        }
        if s != [] {
          NewLast(blocks);
          blocks := blocks + [Block([], BLOCK_SIZE)];
        }
      }
      assert Contents(blocks) + [] == Contents(blocks);
    }

    /**
     `aofChildWriteDiffData`: sends from the front until told to stop, out of data, or the pipe takes
     no more; `writes` are the answers of `write`, an error once they run out, and `used` counts those that
     took something.
     */
    method SendDiff(stop: bool, writes: seq<int>) returns (sent: Bytes, used: nat)
      requires Valid()
      modifies this
      ensures Valid() && sent + Contents(blocks) == old(Contents(blocks))
      ensures stop ==> sent == [] && blocks == old(blocks)
      ensures used <= |writes| && used <= |sent| && forall k | 0 <= k < used :: writes[k] > 0
      ensures !stop && blocks != [] ==> used == |writes| || writes[used] <= 0
    {
      hide Contents, ValidBlocks;
      sent, used := [], 0;
      while true
        invariant Valid() && used <= |writes| && sent + Contents(blocks) == old(Contents(blocks))
        invariant stop ==> sent == [] && blocks == old(blocks)
        invariant used <= |sent| && forall k | 0 <= k < used :: writes[k] > 0
        decreases |writes| - used, |blocks|
      {
        if stop || blocks == [] {
          return;
        }
        var b := blocks[0];
        if |b.data| > 0 {
          var nwritten := if used < |writes| then writes[used] else -1;
          if nwritten <= 0 {
            return;
          }
          used := used + 1;
          if nwritten > |b.data| {
            nwritten := |b.data|;
          }
          DrainFirst(blocks, nwritten);
          sent := sent + b.data[..nwritten];
          b := b.(data := b.data[nwritten..]);
          blocks := blocks[0 := b];
        }
        if |b.data| == 0 {
          DropFirst(blocks);
          blocks := blocks[1..];
        }
      }
    }

    /** `aofRewriteBufferWrite`: every block, or an error at the first short write. */
    method WriteTo(file: Bytes, writes: seq<int>) returns (out: Bytes, ok: bool)
      requires Valid()
      ensures file <= out <= file + Contents(blocks)
      ensures ok <==> out == file + Contents(blocks)
      ensures ok <==> Sizes(blocks) <= writes
    {
      hide Contents, Sizes;
      out := file;
      var i, k := 0, 0;
      assert blocks[0..] == blocks && Sizes(blocks)[0..] == Sizes(blocks);
      while i < |blocks|
        invariant i <= |blocks| && k <= i && file <= out
        invariant k <= |Sizes(blocks)| && k <= |writes| && Sizes(blocks)[k..] == Sizes(blocks[i..])
        invariant forall j | 0 <= j < k :: writes[j] == Sizes(blocks)[j]
        invariant out + Contents(blocks[i..]) == file + Contents(blocks)
      {
        var b := blocks[i];
        NextBlock(blocks, i, out, k);
        if |b.data| > 0 {
          var nwritten := if k < |writes| then writes[k] else -1;
          if nwritten != |b.data| {
            var short := if 0 <= nwritten < |b.data| then nwritten else 0;
            ShortWrite(out, b.data, short, Contents(blocks[i + 1..]));
            out := out + b.data[..short];
            return out, false;
          }
          k := k + 1;
          out := out + b.data;
        }
        i := i + 1;
      }
      NoBlocks(blocks[i..]);
      assert out + [] == out;
      return out, true;
    }
  }

  lemma NoBlocks(bs: seq<Block>)
    requires bs == []
    ensures Contents(bs) == [] && Sizes(bs) == []
  {
  }

  /** One block after another: what is written so far, and the sizes still to come. */
  lemma NextBlock(bs: seq<Block>, i: nat, out: Bytes, k: nat)
    requires i < |bs| && k <= |Sizes(bs)| && Sizes(bs)[k..] == Sizes(bs[i..])
    ensures out + Contents(bs[i..]) == (out + bs[i].data) + Contents(bs[i + 1..])
    ensures |bs[i].data| == 0 ==> Sizes(bs)[k..] == Sizes(bs[i + 1..]) && out + bs[i].data == out
    ensures |bs[i].data| > 0 ==>
              k < |Sizes(bs)| && Sizes(bs)[k] == |bs[i].data| && Sizes(bs)[k + 1..] == Sizes(bs[i + 1..])
  {
    assert bs[i..][1..] == bs[i + 1..];
    var d, c := bs[i].data, Contents(bs[i + 1..]);
    assert out + (d + c) == (out + d) + c;
    if |d| > 0 {
      var s := Sizes(bs)[k..];
      assert s == [|d|] + Sizes(bs[i + 1..]);
      assert Sizes(bs)[k + 1..] == s[1..];
    } else {
      assert [] + Sizes(bs[i + 1..]) == Sizes(bs[i + 1..]);
    }
  }

  /** A short write leaves something out. */
  lemma ShortWrite(out: Bytes, d: Bytes, n: nat, rest: Bytes)
    requires n < |d|
    ensures out + d[..n] <= (out + d) + rest && out + d[..n] != (out + d) + rest
  {
    assert d == d[..n] + d[n..];
    assert (out + d) + rest == (out + d[..n]) + (d[n..] + rest);
  }

  /**
   `aofReadDiffFromParent`: reads until the pipe has nothing more; `sizes` bound the sizes `read`
   chooses to return while there is data.
   */
  method ReadDiff(diff: Bytes, pipe: Bytes, sizes: seq<nat>) returns (diff': Bytes, total: nat)
    ensures diff' == diff + pipe && total == |pipe|
  {
    var left, i := pipe, 0;
    diff', total := diff, 0;
    while left != []
      invariant diff' + left == diff + pipe && total + |left| == |pipe|
      decreases |left|
    {
      var n := if i < |sizes| && 0 < sizes[i] <= READ_SIZE then sizes[i] else READ_SIZE;
      var nread := if n < |left| then n else |left|;
      assert left == left[..nread] + left[nread..];
      diff' := diff' + left[..nread];
      total := total + nread;
      left := left[nread..];
      i := i + 1;
    }
    assert diff' + [] == diff';
  }
}
