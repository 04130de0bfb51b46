/**
 The server and its rewrite child as one state machine.  Commands execute at any time; the pipe moves
 any number of bytes at a time; the child may fail, and the switch of files may fail, at any point.
 */
module AofHandoff {
  import opened Common
  import opened AofFormat
  import opened AofLog
  import opened AofWriter

  datatype Phase = Working | Asked | Agreed | Finished | Failed

  /** The child: the snapshot it writes, the diff it has read, and the temporary file once finished. */
  datatype Child = Child(snapshot: seq<Cmd>, diff: Bytes, phase: Phase, tmp: Bytes)

  /**
   `w` is the live AOF, `pending` the bytes in the rewrite blocks, `pipe` those on their way, `asked`
   and `acked` the single bytes on the control pipes.  `log` and `fed` record the commands that the
   live AOF and the diff stand for.
   */
  datatype Server<D> = Server(data: D, on: bool, w: Log, selected: int, child: Option<Child>,
                              pending: Bytes, pipe: Bytes, asked: bool, acked: bool, stop: bool,
                              log: seq<Cmd>, fed: seq<Cmd>)

  datatype Step =
    | Execute(e: Entry)
    | Flush(t: Moment, o: Outcome)
    | Fork(snapshot: seq<Cmd>)
    | PipeWrite(n: nat)
    | ChildRead(n: nat)
    | ChildAsk
    | ParentAgree(sent: bool)
    | ChildHear
    | ChildFinish
    | ChildFail
    | Done(openOk: bool, writeOk: bool, renameOk: bool)

  ghost predicate Enabled<D(!new)>(s: Server<D>, step: Step, run: (D, Entry) -> D, empty: D, policy: Policy) {
    match step
    case Execute(e) => Proper(e)
    case Flush(t, o) => Possible(s.w, o) && !FlushOnce(s.w, policy, t, o).exited
    case Fork(snapshot) => s.child.None? && AllFit(snapshot) && Rebuild(run, empty, snapshot) == s.data
    case PipeWrite(n) => s.child.Some? && !s.stop && n <= |s.pending|
    case ChildRead(n) => s.child.Some? && s.child.value.phase in {Working, Asked, Agreed} && n <= |s.pipe|
    case ChildAsk => s.child.Some? && s.child.value.phase == Working
    case ParentAgree(sent) => s.child.Some? && s.asked
    case ChildHear => s.child.Some? && s.child.value.phase == Asked && s.acked
    case ChildFinish => s.child.Some? && s.child.value.phase == Agreed && s.pipe == []
    case ChildFail => s.child.Some? && s.child.value.phase in {Working, Asked, Agreed}
    case Done(o, w, r) => s.child.Some? && s.child.value.phase in {Finished, Failed}
  }

  /** `feedAppendOnlyFile` into the buffer and the blocks. */
  function OnExecute<D>(s: Server<D>, e: Entry, run: (D, Entry) -> D): Server<D> {
    var cs := Feed(s.selected, e);
    var bytes := PrintAll(cs);
    Server(run(s.data, e), s.on, if s.on then s.w.(buf := s.w.buf + bytes) else s.w, e.db, s.child,
           if s.child.Some? then s.pending + bytes else s.pending, s.pipe, s.asked, s.acked, s.stop,
           if s.on then s.log + cs else s.log, if s.child.Some? then s.fed + cs else s.fed)
  }

  /** `backgroundRewriteDoneHandler` with the AOF enabled. */
  function OnDone<D>(s: Server<D>, ok: bool): Server<D>
    requires s.child.Some?
  {
    var c := s.child.value;
    var clean := s.(child := None, pending := [], pipe := [], asked := false, acked := false, fed := []);
    if !ok then clean
    else
      var file := c.tmp + s.pending;
      clean.(w := s.w.(file := file, buf := [], size := |file|), selected := -1, on := true,
             log := c.snapshot + s.fed)
  }

  function WithChild<D>(s: Server<D>, c: Child): Server<D> {
    s.(child := Some(c))
  }

  ghost function Apply<D(!new)>(s: Server<D>, step: Step, run: (D, Entry) -> D, empty: D, policy: Policy): Server<D>
    requires Enabled(s, step, run, empty, policy)
  {
    match step
    case Execute(e) => OnExecute(s, e, run)
    case Flush(t, o) => s.(w := FlushOnce(s.w, policy, t, o))
    case Fork(snapshot) =>
      s.(child := Some(Child(snapshot, [], Working, [])), selected := -1,
         pending := [], pipe := [], asked := false, acked := false, stop := false, fed := [])
    case PipeWrite(n) => s.(pending := s.pending[n..], pipe := s.pipe + s.pending[..n])
    case ChildRead(n) =>
      WithChild(s, s.child.value.(diff := s.child.value.diff + s.pipe[..n])).(pipe := s.pipe[n..])
    case ChildAsk => WithChild(s, s.child.value.(phase := Asked)).(asked := true)
    case ParentAgree(sent) => s.(asked := false, stop := true, acked := sent)
    case ChildHear => WithChild(s, s.child.value.(phase := Agreed)).(acked := false)
    case ChildFinish =>
      var c := s.child.value;
      WithChild(s, c.(phase := Finished, tmp := PrintAll(c.snapshot) + c.diff))
    case ChildFail => WithChild(s, s.child.value.(phase := Failed))
    case Done(o, w, r) => OnDone(s, s.child.value.phase == Finished && o && w && r)
  }

  // ---------- the invariant ----------

  /** The live AOF holds the log, and the log rebuilds the data set. */
  ghost predicate LiveOk<D(!new)>(s: Server<D>, run: (D, Entry) -> D, empty: D) {
    && Sized(s.w) && !s.w.exited
    && (s.on ==>
          && s.w.file + s.w.buf == PrintAll(s.log) && AllFit(s.log)
          && Rebuild(run, empty, s.log) == s.data && Tracks(s.selected, s.log))
  }

  /** Every byte fed since the fork is with the child, in the pipe or in the blocks, in that order. */
  ghost predicate DiffOk<D>(s: Server<D>)
    requires s.child.Some?
  {
    PrintAll(s.fed) == s.child.value.diff + s.pipe + s.pending
  }

  /** Snapshot and diff together rebuild the data set; a diff starts by selecting its database. */
  ghost predicate CopyOk<D(!new)>(s: Server<D>, run: (D, Entry) -> D, empty: D)
    requires s.child.Some?
  {
    var cs := s.child.value.snapshot + s.fed;
    && AllFit(cs) && Rebuild(run, empty, cs) == s.data && Tracks(s.selected, cs)
    && (s.fed == [] ==> s.selected == -1)
    && (s.fed != [] ==> IsSelect(s.fed[0]))
  }

  /** Once the parent's agreement is on its way, the parent no longer writes to the pipe. */
  ghost predicate TalkOk<D>(s: Server<D>)
    requires s.child.Some?
  {
    var c := s.child.value;
    && (s.acked || c.phase == Agreed || c.phase == Finished ==> s.stop)
    && (c.phase == Working ==> !s.asked && !s.acked && !s.stop)
    && (c.phase == Finished ==> s.pipe == [] && c.tmp == PrintAll(c.snapshot) + c.diff)
  }

  ghost predicate Inv<D(!new)>(s: Server<D>, run: (D, Entry) -> D, empty: D) {
    LiveOk(s, run, empty) && (s.child.Some? ==> DiffOk(s) && CopyOk(s, run, empty) && TalkOk(s))
  }

  lemma ExecuteKeepsLive<D(!new)>(s: Server<D>, e: Entry, run: (D, Entry) -> D, empty: D)
    requires LiveOk(s, run, empty) && Proper(e)
    ensures LiveOk(OnExecute(s, e, run), run, empty)
  {
    hide Rebuild, PrintAll, Proper, Tracks, AllFit, Feed;
    if s.on {
      var cs := Feed(s.selected, e);
      FeedFits(s.selected, e);
      AllFitConcat(s.log, cs);
      FeedRebuilds(run, empty, s.log, s.selected, e);
      PrintAllConcat(s.log, cs);
      Regroup(s.w.file, s.w.buf, PrintAll(cs));
    }
  }

  lemma ExecuteKeepsCopy<D(!new)>(s: Server<D>, e: Entry, run: (D, Entry) -> D, empty: D)
    requires s.child.Some? && DiffOk(s) && CopyOk(s, run, empty) && TalkOk(s) && Proper(e)
    ensures var u := OnExecute(s, e, run); DiffOk(u) && CopyOk(u, run, empty) && TalkOk(u)
  {
    hide Rebuild, PrintAll, Proper, Tracks, AllFit, Feed, IsSelect;
    var c, cs := s.child.value, Feed(s.selected, e);
    FeedFits(s.selected, e);
    AllFitConcat(c.snapshot + s.fed, cs);
    FeedRebuilds(run, empty, c.snapshot + s.fed, s.selected, e);
    Regroup(c.snapshot, s.fed, cs);
    PrintAllConcat(s.fed, cs);
    Regroup(c.diff + s.pipe, s.pending, PrintAll(cs));
    FirstIsSelect(s, e);
  }

  lemma ExecuteKeeps<D(!new)>(s: Server<D>, e: Entry, run: (D, Entry) -> D, empty: D)
    requires Inv(s, run, empty) && Proper(e)
    ensures Inv(OnExecute(s, e, run), run, empty)
  {
    hide LiveOk, DiffOk, CopyOk, TalkOk, Proper;
    ExecuteKeepsLive(s, e, run, empty);
    if s.child.Some? { ExecuteKeepsCopy(s, e, run, empty); }
  }

  lemma AllFitConcat(cs: seq<Cmd>, ds: seq<Cmd>)
    requires AllFit(cs) && AllFit(ds)
    ensures AllFit(cs + ds)
  {
    hide Fits;
  }

  /** The first command of a diff is the SELECT that a forgotten selection forces. */
  lemma FirstIsSelect<D>(s: Server<D>, e: Entry)
    requires s.fed == [] ==> s.selected == -1
    requires s.fed != [] ==> IsSelect(s.fed[0])
    ensures var fed := s.fed + Feed(s.selected, e);
            fed != [] && IsSelect(fed[0])
  {
    SelectIsSelect(e.db, 0);
  }

  lemma FlushKeeps<D(!new)>(s: Server<D>, t: Moment, o: Outcome, policy: Policy, run: (D, Entry) -> D, empty: D)
    requires Inv(s, run, empty) && Possible(s.w, o) && !FlushOnce(s.w, policy, t, o).exited
    ensures Inv(s.(w := FlushOnce(s.w, policy, t, o)), run, empty)
  {
    hide Rebuild, PrintAll, FlushOnce, Tracks, AllFit;
    FlushConserves(s.w, policy, t, o);
  }

  lemma ForkKeeps<D(!new)>(s: Server<D>, snapshot: seq<Cmd>, run: (D, Entry) -> D, empty: D)
    requires Inv(s, run, empty) && AllFit(snapshot) && Rebuild(run, empty, snapshot) == s.data
    ensures Inv(s.(child := Some(Child(snapshot, [], Working, [])), selected := -1, pending := [], pipe := [],
                   asked := false, acked := false, stop := false, fed := []), run, empty)
  {
    hide Rebuild, AllFit;
    assert snapshot + [] == snapshot;
  }

  /** Some bytes of the blocks enter the pipe. */
  lemma SendKeeps<D(!new)>(s: Server<D>, n: nat, run: (D, Entry) -> D, empty: D)
    requires Inv(s, run, empty) && s.child.Some? && n <= |s.pending| && !s.stop
    ensures Inv(s.(pending := s.pending[n..], pipe := s.pipe + s.pending[..n]), run, empty)
  {
    hide Rebuild, AllFit, PrintAll, Tracks, IsSelect;
    var d := s.child.value.diff;
    assert s.pending == s.pending[..n] + s.pending[n..];
    Regroup(d, s.pipe, s.pending[..n]);
    Regroup(d + s.pipe, s.pending[..n], s.pending[n..]);
  }

  /** The child reads some bytes of the pipe. */
  lemma ReadKeeps<D(!new)>(s: Server<D>, n: nat, run: (D, Entry) -> D, empty: D)
    requires Inv(s, run, empty) && s.child.Some? && n <= |s.pipe| && s.child.value.phase in {Working, Asked, Agreed}
    ensures Inv(WithChild(s, s.child.value.(diff := s.child.value.diff + s.pipe[..n])).(pipe := s.pipe[n..]), run, empty)
  {
    hide Rebuild, AllFit, PrintAll, Tracks, IsSelect;
    var d := s.child.value.diff;
    assert s.pipe == s.pipe[..n] + s.pipe[n..];
    Regroup(d, s.pipe[..n], s.pipe[n..]);
  }

  lemma DoneKeeps<D(!new)>(s: Server<D>, ok: bool, run: (D, Entry) -> D, empty: D)
    requires Inv(s, run, empty) && s.child.Some? && (ok ==> s.child.value.phase == Finished)
    ensures Inv(OnDone(s, ok), run, empty)
    ensures ok ==> OnDone(s, ok).w.file == PrintAll(s.child.value.snapshot) + PrintAll(s.fed)
    ensures !ok ==> OnDone(s, ok).w == s.w
  {
    hide Rebuild, AllFit, PrintAll, Tracks;
    var c := s.child.value;
    if ok {
      PrintAllConcat(c.snapshot, s.fed);
      var p := PrintAll(c.snapshot);
      assert (p + c.diff) + s.pending == p + (c.diff + [] + s.pending);
      var file := c.tmp + s.pending;
      assert file + [] == file;
      assert Tracks(-1, c.snapshot + s.fed) by { NoneTracks(c.snapshot + s.fed); }
    }
  }

  lemma NoneTracks(cs: seq<Cmd>)
    ensures Tracks(-1, cs)
  {
  }

  lemma StepKeepsInv<D(!new)>(s: Server<D>, step: Step, run: (D, Entry) -> D, empty: D, policy: Policy)
    requires Inv(s, run, empty) && Enabled(s, step, run, empty, policy)
    ensures Inv(Apply(s, step, run, empty, policy), run, empty)
  {
    hide Rebuild, PrintAll, AllFit, FlushOnce, Tracks, OnExecute, OnDone, Proper, IsSelect;
    match step
    case Execute(e) => ExecuteKeeps(s, e, run, empty);
    case Flush(t, o) => FlushKeeps(s, t, o, policy, run, empty);
    case Fork(snapshot) => ForkKeeps(s, snapshot, run, empty);
    case PipeWrite(n) => SendKeeps(s, n, run, empty);
    case ChildRead(n) => ReadKeeps(s, n, run, empty);
    case Done(o, w, r) => DoneKeeps(s, s.child.value.phase == Finished && o && w && r, run, empty);
    case _ =>
  }

  // ---------- every interleaving ----------

  /** States that follow each other by enabled steps. */
  ghost predicate Continues<D(!new)>(ss: seq<Server<D>>, steps: seq<Step>, run: (D, Entry) -> D, empty: D, policy: Policy) {
    && |ss| == |steps| + 1
    && forall i | 0 <= i < |steps| ::
         Enabled(ss[i], steps[i], run, empty, policy) && ss[i + 1] == Apply(ss[i], steps[i], run, empty, policy)
  }

  ghost predicate Run<D(!new)>(ss: seq<Server<D>>, steps: seq<Step>, run: (D, Entry) -> D, empty: D, policy: Policy) {
    Continues(ss, steps, run, empty, policy) && Inv(ss[0], run, empty) && ss[0].child.None?
  }

  lemma {:induction false} RunInv<D(!new)>(ss: seq<Server<D>>, steps: seq<Step>, run: (D, Entry) -> D, empty: D, policy: Policy, i: nat)
    requires Run(ss, steps, run, empty, policy) && i <= |steps|
    ensures Inv(ss[i], run, empty)
  {
    hide Inv, Apply, Enabled;
    if i > 0 {
      RunInv(ss, steps, run, empty, policy, i - 1);
      assert Enabled(ss[i - 1], steps[i - 1], run, empty, policy);
      StepKeepsInv(ss[i - 1], steps[i - 1], run, empty, policy);
    }
  }

  /** While the AOF is on, loading file and buffer rebuilds the data set, across any number of rewrites. */
  lemma AofRebuildsData<D(!new)>(ss: seq<Server<D>>, steps: seq<Step>, run: (D, Entry) -> D, empty: D, policy: Policy, i: nat)
    requires Run(ss, steps, run, empty, policy) && i <= |steps| && ss[i].on
    ensures var r := Load(ss[i].w.file + ss[i].w.buf);
            r.status == Loaded && Rebuild(run, empty, r.cmds) == ss[i].data
  {
    hide Rebuild, Load, PrintAll, AllFit;
    RunInv(ss, steps, run, empty, policy, i);
    LogRoundTrip(ss[i].log);
  }

  /** The file loads as a prefix of the log. */
  ghost predicate LoadsPrefix(file: Bytes, log: seq<Cmd>) {
    var r := Load(file);
    (r.status == Loaded || r.status == UnexpectedEof) && r.cmds <= log
  }

  lemma PrefixOfLog(file: Bytes, log: seq<Cmd>)
    requires AllFit(log) && file <= PrintAll(log)
    ensures LoadsPrefix(file, log)
  {
    hide Load, PrintAll, AllFit, Whole;
    assert PrintAll(log)[..|file|] == file;
    PrefixLoads(log, |file|);
  }

  /**
   Whenever the process stops, also inside a flush that makes it exit, the file alone loads as a prefix of the log,
   across any number of rewrites.
   */
  lemma CrashLeavesPrefixOfLog<D(!new)>(ss: seq<Server<D>>, steps: seq<Step>, run: (D, Entry) -> D, empty: D,
                                        policy: Policy, i: nat)
    requires Run(ss, steps, run, empty, policy) && i <= |steps| && ss[i].on
    ensures LoadsPrefix(ss[i].w.file, ss[i].log) && Rebuild(run, empty, ss[i].log) == ss[i].data
    ensures forall t, o | Possible(ss[i].w, o) :: LoadsPrefix(FlushOnce(ss[i].w, policy, t, o).file, ss[i].log)
  {
    hide Rebuild, Load, PrintAll, AllFit, LoadsPrefix, Enabled, Apply, FlushOnce;
    RunInv(ss, steps, run, empty, policy, i);
    var s := ss[i];
    PrefixOfLog(s.w.file, s.log);
    forall t, o | Possible(s.w, o)
      ensures LoadsPrefix(FlushOnce(s.w, policy, t, o).file, s.log)
    {
      FlushConserves(s.w, policy, t, o);
      PrefixOfLog(FlushOnce(s.w, policy, t, o).file, s.log);
    }
  }

  /** Bytes fed since the fork are nowhere lost, repeated or reordered. */
  lemma DiffConserved<D(!new)>(ss: seq<Server<D>>, steps: seq<Step>, run: (D, Entry) -> D, empty: D, policy: Policy, i: nat)
    requires Run(ss, steps, run, empty, policy) && i <= |steps| && ss[i].child.Some?
    ensures PrintAll(ss[i].fed) == ss[i].child.value.diff + ss[i].pipe + ss[i].pending
    ensures ss[i].fed != [] ==> IsSelect(ss[i].fed[0])
  {
    hide Rebuild, PrintAll, AllFit, IsSelect;
    RunInv(ss, steps, run, empty, policy, i);
  }

  /**
   The switch: on success the new file is the snapshot followed by exactly the diff and loads to the
   current data set; on failure the live AOF is untouched.
   */
  lemma SwitchOver<D(!new)>(ss: seq<Server<D>>, steps: seq<Step>, run: (D, Entry) -> D, empty: D, policy: Policy, i: nat)
    requires Run(ss, steps, run, empty, policy) && i < |steps| && steps[i].Done? && ss[i].child.Some?
    ensures var ok := ss[i].child.value.phase == Finished && steps[i].openOk && steps[i].writeOk && steps[i].renameOk;
            if ok then
              && ss[i + 1].w.file == PrintAll(ss[i].child.value.snapshot) + PrintAll(ss[i].fed)
              && ss[i + 1].w.buf == [] && ss[i + 1].data == ss[i].data && ss[i + 1].on
              && Load(ss[i + 1].w.file).status == Loaded
              && Rebuild(run, empty, Load(ss[i + 1].w.file).cmds) == ss[i].data
            else ss[i + 1].w == ss[i].w && ss[i + 1].data == ss[i].data
  {
    hide Rebuild, Load, PrintAll, Inv;
    RunInv(ss, steps, run, empty, policy, i);
    var ok := ss[i].child.value.phase == Finished && steps[i].openOk && steps[i].writeOk && steps[i].renameOk;
    DoneKeeps(ss[i], ok, run, empty);
    if ok {
      AofRebuildsData(ss, steps, run, empty, policy, i + 1);
      assert ss[i + 1].w.file + [] == ss[i + 1].w.file;
    }
  }
}
