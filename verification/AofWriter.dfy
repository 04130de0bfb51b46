/**
 The writer side of the append-only file: commands are fed to a buffer, and the buffer is flushed with
 a single write whose outcome the system decides.
 */
module AofWriter {
  import opened Common
  import opened AofFormat
  import opened AofLog

  datatype Policy = Always | EverySec | Never

  /** What the system answers: bytes written (-1 for an error) and whether the partial write can be undone. */
  datatype Outcome = Outcome(nwritten: int, truncated: bool)

  /** The clock, a pending background fsync, and the caller's `force`. */
  datatype Moment = Moment(now: int, fsyncPending: bool, force: bool)

  /** `size` is `aof_current_size`, `postponed` is `aof_flush_postponed_start`, zero when none. */
  datatype Log = Log(file: Bytes, buf: Bytes, size: nat, ok: bool, postponed: int, exited: bool)

  ghost predicate Possible(s: Log, o: Outcome) {
    -1 <= o.nwritten <= |s.buf|
  }

  /** With everysec, a flush waits up to two seconds for an fsync in progress. */
  predicate Postpones(s: Log, policy: Policy, t: Moment) {
    policy == EverySec && !t.force && t.fsyncPending && (s.postponed == 0 || t.now - s.postponed < 2)
  }

  /** `flushAppendOnlyFile`. */
  function FlushOnce(s: Log, policy: Policy, t: Moment, o: Outcome): Log
    requires -1 <= o.nwritten <= |s.buf|
  {
    if s.buf == [] then s
    else if Postpones(s, policy, t) then (if s.postponed == 0 then s.(postponed := t.now) else s)
    else if o.nwritten == |s.buf| then
      s.(file := s.file + s.buf, buf := [], size := s.size + |s.buf|, ok := true, postponed := 0)
    else
      var n := if o.nwritten > 0 then o.nwritten else 0;
      var undone := o.nwritten == -1 || o.truncated;
      var file := if o.nwritten == -1 then s.file
                  else if o.truncated && s.size <= |s.file| then (s.file + s.buf[..n])[..s.size]
                  else s.file + s.buf[..n];
      if policy == Always then s.(file := file, postponed := 0, exited := true)
      else if undone || n == 0 then s.(file := file, ok := false, postponed := 0)
      else s.(file := file, buf := s.buf[n..], size := s.size + n, ok := false, postponed := 0)
  }

  ghost predicate Sized(s: Log) {
    s.size == |s.file|
  }

  /** Whatever the write does, no byte is lost, repeated or reordered, and the size stays exact. */
  lemma FlushConserves(s: Log, policy: Policy, t: Moment, o: Outcome)
    requires Sized(s) && Possible(s, o) && !s.exited
    ensures var s' := FlushOnce(s, policy, t, o);
            && (!s'.exited ==> Sized(s') && s'.file + s'.buf == s.file + s.buf)
            && (s'.exited ==> policy == Always && s.file <= s'.file <= s.file + s.buf)
            && (s'.exited || s.file <= s'.file)
  {
    SplitBuffer(s.file, s.buf, if o.nwritten > 0 then o.nwritten else 0);
    assert (s.file + s.buf) + [] == s.file + s.buf;
  }

  /**
   What a flush of a non-empty buffer does.  It leaves file and buffer alone exactly when an fsync is pending, the policy
   is everysec, nothing forces it, and the wait is new or shorter than two seconds.  Otherwise a full write moves the
   whole buffer to the file; a short one that cannot be undone moves what was written, and exits with the always
   policy; an error or an undone write moves nothing.
   */
  lemma FlushWrites(s: Log, policy: Policy, t: Moment, o: Outcome)
    requires Sized(s) && Possible(s, o) && s.buf != [] && !s.exited
    ensures var s' := FlushOnce(s, policy, t, o);
            var waits := policy == EverySec && !t.force && t.fsyncPending && (s.postponed == 0 || t.now - s.postponed < 2);
            var short := 0 < o.nwritten < |s.buf| && !o.truncated;
            && (o.nwritten == |s.buf| ==> (s'.file == s.file + s.buf && s'.buf == [] <==> !waits))
            && (waits ==> s' == s.(postponed := if s.postponed == 0 then t.now else s.postponed))
            && (!waits ==>
                  && s'.postponed == 0
                  && (s'.exited <==> o.nwritten != |s.buf| && policy == Always)
                  && (!s'.exited ==> (s'.ok <==> o.nwritten == |s.buf|))
                  && (short ==> s'.file == s.file + s.buf[..o.nwritten])
                  && (short && !s'.exited ==> s'.buf == s.buf[o.nwritten..])
                  && (!short && o.nwritten != |s.buf| ==> s'.file == s.file && s'.buf == s.buf))
  {
    SplitBuffer(s.file, s.buf, if o.nwritten > 0 then o.nwritten else 0);
    assert s.buf[..0] == [] && s.file + [] == s.file;
    assert s.file + s.buf != s.file;
  }

  /** A partial write, and what undoing it leaves. */
  lemma SplitBuffer(file: Bytes, buf: Bytes, n: nat)
    requires n <= |buf|
    ensures (file + buf[..n]) + buf[n..] == file + buf
    ensures (file + buf[..n])[..|file|] == file
    ensures file <= file + buf[..n] <= file + buf
  {
    assert buf == buf[..n] + buf[n..];
  }

  datatype Event =
    | FeedEvent(bytes: Bytes)
    | FlushEvent(t: Moment, o: Outcome)

  function Step(s: Log, policy: Policy, e: Event): Log
    requires e.FlushEvent? ==> -1 <= e.o.nwritten <= |s.buf|
  {
    match e
    case FeedEvent(b) => s.(buf := s.buf + b)
    case FlushEvent(t, o) => FlushOnce(s, policy, t, o)
  }

  /** The states of a run with the AOF on and no rewrite. */
  ghost predicate WriterRun(ss: seq<Log>, es: seq<Event>, policy: Policy) {
    && |ss| == |es| + 1 && Sized(ss[0]) && !ss[0].exited
    && forall i | 0 <= i < |es| ::
         && (es[i].FlushEvent? ==> Possible(ss[i], es[i].o))
         && ss[i + 1] == Step(ss[i], policy, es[i])
         && !ss[i].exited
  }

  ghost function Fed(es: seq<Event>): Bytes {
    if es == [] then []
    else Fed(es[..|es| - 1]) + if es[|es| - 1].FeedEvent? then es[|es| - 1].bytes else []
  }

  /** At every point of a run, file and buffer together hold exactly the bytes fed so far, in order. */
  lemma {:induction false} RunConserves(ss: seq<Log>, es: seq<Event>, policy: Policy, i: nat)
    requires WriterRun(ss, es, policy) && i <= |es|
    ensures !ss[i].exited ==> Sized(ss[i]) && ss[i].file + ss[i].buf == ss[0].file + ss[0].buf + Fed(es[..i])
    ensures ss[i].file <= ss[0].file + ss[0].buf + Fed(es[..i])
  {
    hide FlushOnce, Fed;
    var total := ss[0].file + ss[0].buf;
    FedStep(es, i);
    if i == 0 {
      assert total + [] == total;
    } else {
      RunConserves(ss, es, policy, i - 1);
      var s, e, fed := ss[i - 1], es[i - 1], Fed(es[..i - 1]);
      match e {
        case FeedEvent(b) =>
          Regroup(s.file, s.buf, b);
          Regroup(total, fed, b);
          assert s.file <= total + fed <= (total + fed) + b;
        case FlushEvent(t, o) =>
          FlushConserves(s, policy, t, o);
      }
    }
  }

  lemma FedStep(es: seq<Event>, i: nat)
    requires i <= |es|
    ensures i == 0 ==> Fed(es[..i]) == []
    ensures i > 0 ==> Fed(es[..i]) == Fed(es[..i - 1]) + if es[i - 1].FeedEvent? then es[i - 1].bytes else []
    ensures i > 0 && es[i - 1].FlushEvent? ==> Fed(es[..i]) == Fed(es[..i - 1])
  {
    if i > 0 {
      assert es[..i][..i - 1] == es[..i - 1];
      assert Fed(es[..i - 1]) + [] == Fed(es[..i - 1]);
    }
  }

  /**
   Whenever the process stops, even with a partial write left in the file, what loads is a prefix of
   the commands fed.
   */
  lemma CrashLeavesPrefix(ss: seq<Log>, es: seq<Event>, policy: Policy, entries: seq<Entry>)
    requires WriterRun(ss, es, policy) && ss[0].file == [] && ss[0].buf == []
    requires (forall e | e in entries :: Proper(e)) && Fed(es) == PrintAll(FeedAll(-1, entries))
    ensures var r := Load(ss[|es|].file);
            (r.status == Loaded || r.status == UnexpectedEof) && Replay(0, r.cmds) <= entries
  {
    hide Load, Replay, PrintAll, FeedAll, Proper, Step, Fed;
    RunConserves(ss, es, policy, |es|);
    assert es[..|es|] == es;
    var f := ss[|es|].file;
    assert [] + [] + Fed(es) == Fed(es);
    assert f == Fed(es)[..|f|];
    TruncatedLogPreservesPrefix(entries, |f|);
  }

  /** The time at which waiting began is kept while flushes are put off, and so is the buffer. */
  lemma {:induction false} WaitStarted(ss: seq<Log>, es: seq<Event>, policy: Policy, i: nat, j: nat)
    requires WriterRun(ss, es, policy) && i < j <= |es| && es[i].FlushEvent? && ss[i].postponed == 0
    requires forall k | i <= k < j && es[k].FlushEvent? :: ss[k + 1].postponed != 0
    ensures ss[j].postponed == es[i].t.now != 0 && ss[j].buf != []
  {
    hide FlushOnce;
    if j > i + 1 { WaitStarted(ss, es, policy, i, j - 1); }
    var s, e := ss[j - 1], es[j - 1];
    assert ss[(j - 1) + 1] == Step(s, policy, e);
    RunConserves(ss, es, policy, j - 1);
    if e.FlushEvent? {
      if s.buf == [] {
        EmptyFlush(s, policy, e.t, e.o);
      } else {
        FlushWrites(s, policy, e.t, e.o);
      }
    }
  }

  lemma EmptyFlush(s: Log, policy: Policy, t: Moment, o: Outcome)
    requires s.buf == [] && Possible(s, o)
    ensures FlushOnce(s, policy, t, o) == s
  {
  }

  /** In every run, flushes are put off for less than two seconds: the next one writes. */
  lemma WaitIsShort(ss: seq<Log>, es: seq<Event>, policy: Policy, i: nat, j: nat)
    requires WriterRun(ss, es, policy) && i < j < |es| && es[i].FlushEvent? && es[j].FlushEvent?
    requires ss[i].postponed == 0 && forall k | i <= k < j && es[k].FlushEvent? :: ss[k + 1].postponed != 0
    requires es[j].t.now - es[i].t.now >= 2
    ensures ss[j + 1].postponed == 0
    ensures es[j].o.nwritten == |ss[j].buf| ==> ss[j + 1].file == ss[j].file + ss[j].buf && ss[j + 1].buf == []
  {
    hide FlushOnce;
    WaitStarted(ss, es, policy, i, j);
    RunConserves(ss, es, policy, j);
    FlushWrites(ss[j], policy, es[j].t, es[j].o);
  }

  /** The server's writer: the file it appends to, the buffer and the bookkeeping. */
  class Writer {
    const policy: Policy
    var file: Bytes
    var buf: Bytes
    var size: nat
    var ok: bool
    var postponed: int
    var exited: bool
    var selected: int

    ghost function View(): Log
      reads this
    {
      Log(file, buf, size, ok, postponed, exited)
    }

    ghost predicate Valid()
      reads this
    {
      Sized(View()) && !exited && -1 <= selected
    }

    constructor (policy: Policy, file: Bytes)
      ensures Valid() && this.policy == policy && View() == Log(file, [], |file|, true, 0, false) && selected == -1
    {
      this.policy := policy;
      this.file, this.buf, this.size := file, [], |file|;
      this.ok, this.postponed, this.exited, this.selected := true, 0, false, -1;
    }

    /** `feedAppendOnlyFile`, for a command that needs no translation. */
    method FeedCommand(e: Entry)
      requires Valid() && e.cmd != []
      modifies this`buf, this`selected
      ensures Valid() && selected == e.db && buf == old(buf) + PrintAll(Feed(old(selected), e))
    {
      var out := [];
      if e.db != selected {
        var seldb := Dec(e.db);
        out := "*2\r\n$6\r\nSELECT\r\n" + ("$" + Dec(|seldb|) + "\r\n" + seldb + "\r\n");
        SelectText(e.db);
        assert out == Print(SelectCmd(e.db));
      }
      ghost var sel := out;
      out := CatCommand(out, e.cmd);
      PrintFeed(selected, e, sel);
      selected := e.db;
      buf := buf + out;
    }

    /** `flushAppendOnlyFile`. */
    method Flush(t: Moment, o: Outcome)
      requires Valid() && Possible(View(), o)
      modifies this`file, this`buf, this`size, this`ok, this`postponed, this`exited
      ensures View() == FlushOnce(old(View()), policy, t, o)
      ensures !exited ==> Valid() && file + buf == old(file + buf)
      ensures exited ==> policy == Always && old(file) <= file <= old(file + buf)
    {
      FlushConserves(View(), policy, t, o);
      if |buf| == 0 {
        return;
      }
      if policy == EverySec && !t.force {
        if t.fsyncPending {
          if postponed == 0 {
            postponed := t.now;
            return;
          } else if t.now - postponed < 2 {
            return;
          }
        }
      }
      var nwritten := o.nwritten;
      if nwritten > 0 {
        file := file + buf[..nwritten];
      }
      postponed := 0;
      if nwritten != |buf| {
        if nwritten != -1 {
          if o.truncated {
            file := file[..size];
            nwritten := -1;
          }
        }
        if policy == Always {
          exited := true;
          return;
        }
        ok := false;
        if nwritten > 0 {
          size := size + nwritten;
          buf := buf[nwritten..];
        }
        return;
      }
      assert buf[..nwritten] == buf;
      ok := true;
      size := size + nwritten;
      buf := [];
    }
  }

  lemma PrintFeed(selected: int, e: Entry, sel: Bytes)
    requires sel == if e.db != selected then Print(SelectCmd(e.db)) else []
    ensures PrintAll(Feed(selected, e)) == sel + Print(e.cmd)
  {
    hide Print;
    PrintOne(e.cmd);
    if e.db != selected {
      PrintOne(SelectCmd(e.db));
      PrintAllConcat([SelectCmd(e.db)], [e.cmd]);
    } else {
      assert [] + [e.cmd] == [e.cmd];
    }
  }

  lemma PrintOne(c: Cmd)
    ensures PrintAll([c]) == Print(c)
  {
    assert [c][1..] == [];
    assert PrintAll([c]) == Print(c) + PrintAll([c][1..]);
  }
}
