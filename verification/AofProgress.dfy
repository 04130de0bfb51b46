/**
 What a rewrite can come to.  From every reachable state in which parent and child can still agree, steps without
 failures complete it; a child whose question was answered in vain, or that failed, completes nothing.  Commands
 change the data set in the order in which they are executed, rewrite or not.
 */
module AofProgress {
  import opened Common
  import opened AofFormat
  import opened AofLog
  import opened AofWriter
  import opened AofHandoff

  // ---------- completion ----------

  /** The child works, or its question or the answer is on its way, or they have agreed. */
  ghost predicate CanAgree<D>(s: Server<D>) {
    s.child.Some? &&
    var p := s.child.value.phase;
    p == Working || (p == Asked && (s.asked || s.acked)) || p == Agreed || p == Finished
  }

  ghost function Rank<D>(s: Server<D>): nat
    requires s.child.Some?
  {
    match s.child.value.phase
    case Working => 5
    case Asked => if s.acked then 3 else 4
    case Agreed => if s.pipe != [] then 2 else 1
    case Finished => 0
    case Failed => 0
  }

  /** No step fails. */
  ghost predicate Benign(steps: seq<Step>) {
    forall i | 0 <= i < |steps| ::
      !steps[i].ChildFail? && !steps[i].Done? && (steps[i].ParentAgree? ==> steps[i].sent)
  }

  /** The next step on the way to a finished child. */
  ghost function Onward<D>(s: Server<D>): Step
    requires CanAgree(s) && s.child.value.phase != Finished
  {
    var p := s.child.value.phase;
    if p == Working then ChildAsk
    else if p == Asked then (if s.acked then ChildHear else ParentAgree(true))
    else if s.pipe != [] then ChildRead(|s.pipe|)
    else ChildFinish
  }

  /** Everything but the talk of parent and child. */
  ghost predicate SameRewrite<D>(s: Server<D>, u: Server<D>) {
    && s.child.Some? && u.child.Some? && u.child.value.snapshot == s.child.value.snapshot
    && u.fed == s.fed && u.pending == s.pending && u.data == s.data && u.on == s.on && u.w == s.w && u.log == s.log
  }

  lemma OnwardAdvances<D(!new)>(s: Server<D>, run: (D, Entry) -> D, empty: D, policy: Policy)
    requires CanAgree(s) && s.child.value.phase != Finished
    ensures Enabled(s, Onward(s), run, empty, policy)
    ensures var u := Apply(s, Onward(s), run, empty, policy);
            CanAgree(u) && SameRewrite(s, u) && Rank(u) < Rank(s)
  {
    hide PrintAll, FlushOnce, OnExecute, OnDone, Rebuild, AllFit, Proper;
    if s.child.value.phase == Agreed { assert s.pipe[|s.pipe|..] == []; }
  }

  lemma Prepend<D(!new)>(s: Server<D>, step: Step, ss: seq<Server<D>>, steps: seq<Step>, run: (D, Entry) -> D, empty: D,
                         policy: Policy)
    requires Enabled(s, step, run, empty, policy) && Continues(ss, steps, run, empty, policy)
    requires ss[0] == Apply(s, step, run, empty, policy)
    ensures Continues([s] + ss, [step] + steps, run, empty, policy)
  {
    hide Enabled, Apply;
    var us, ts := [s] + ss, [step] + steps;
    forall i | 0 <= i < |ts|
      ensures Enabled(us[i], ts[i], run, empty, policy) && us[i + 1] == Apply(us[i], ts[i], run, empty, policy)
    {
      if i > 0 { assert Enabled(ss[i - 1], steps[i - 1], run, empty, policy); }
    }
  }

  /** Steps without failures lead to a finished child, whose file and the blocks hold the snapshot and all that was fed. */
  lemma {:induction false} ChildCanFinish<D(!new)>(s: Server<D>, run: (D, Entry) -> D, empty: D, policy: Policy)
    returns (ss: seq<Server<D>>, steps: seq<Step>)
    requires Inv(s, run, empty) && CanAgree(s)
    ensures Continues(ss, steps, run, empty, policy) && ss[0] == s && Benign(steps)
    ensures var u := ss[|steps|];
            && SameRewrite(s, u) && Inv(u, run, empty) && u.child.value.phase == Finished
            && u.child.value.tmp + s.pending == PrintAll(s.child.value.snapshot) + PrintAll(s.fed)
    decreases Rank(s)
  {
    hide LiveOk, CopyOk, PrintAll, Enabled, Apply, Rank, Onward, SameRewrite;
    if s.child.value.phase == Finished {
      ss, steps := [s], [];
      var c := s.child.value;
      assert c.diff + [] + s.pending == c.diff + s.pending;
      Regroup(PrintAll(c.snapshot), c.diff, s.pending);
      SameSelf(s);
    } else {
      OnwardAdvances(s, run, empty, policy);
      OnwardBenign(s);
      StepKeepsInv(s, Onward(s), run, empty, policy);
      var u := Apply(s, Onward(s), run, empty, policy);
      var us, ts := ChildCanFinish(u, run, empty, policy);
      Prepend(s, Onward(s), us, ts, run, empty, policy);
      ss, steps := [s] + us, [Onward(s)] + ts;
      SameTrans(s, u, us[|ts|]);
    }
  }

  lemma SameSelf<D>(s: Server<D>)
    requires s.child.Some?
    ensures SameRewrite(s, s)
  {
  }

  lemma SameTrans<D>(s: Server<D>, u: Server<D>, w: Server<D>)
    requires SameRewrite(s, u) && SameRewrite(u, w)
    ensures SameRewrite(s, w) && u.child.value.snapshot == s.child.value.snapshot && u.fed == s.fed && u.pending == s.pending
  {
  }

  lemma OnwardBenign<D>(s: Server<D>)
    requires CanAgree(s) && s.child.value.phase != Finished
    ensures !Onward(s).ChildFail? && !Onward(s).Done? && (Onward(s).ParentAgree? ==> Onward(s).sent)
  {
  }

  lemma Append<D(!new)>(ss: seq<Server<D>>, steps: seq<Step>, step: Step, run: (D, Entry) -> D, empty: D, policy: Policy)
    requires Continues(ss, steps, run, empty, policy) && Enabled(ss[|steps|], step, run, empty, policy)
    ensures Continues(ss + [Apply(ss[|steps|], step, run, empty, policy)], steps + [step], run, empty, policy)
  {
    hide Enabled, Apply;
    var us, ts := ss + [Apply(ss[|steps|], step, run, empty, policy)], steps + [step];
    forall i | 0 <= i < |ts|
      ensures Enabled(us[i], ts[i], run, empty, policy) && us[i + 1] == Apply(us[i], ts[i], run, empty, policy)
    {
      if i < |steps| { assert Enabled(ss[i], steps[i], run, empty, policy); }
    }
  }

  /**
   From every state of a run in which they can still agree, steps without failures end with the switch: the new file is
   the snapshot followed by exactly what was fed since the fork, and is in use.
   */
  lemma RewriteCanComplete<D(!new)>(ss: seq<Server<D>>, steps: seq<Step>, run: (D, Entry) -> D, empty: D, policy: Policy,
                                    i: nat)
    returns (us: seq<Server<D>>, ts: seq<Step>)
    requires Run(ss, steps, run, empty, policy) && i <= |steps| && CanAgree(ss[i])
    ensures Continues(us, ts + [Done(true, true, true)], run, empty, policy) && us[0] == ss[i] && Benign(ts)
    ensures var u := us[|ts| + 1];
            && u.child.None? && u.on && u.data == ss[i].data && u.w.buf == []
            && u.w.file == PrintAll(ss[i].child.value.snapshot) + PrintAll(ss[i].fed)
  {
    hide Inv, PrintAll, CanAgree, Benign;
    RunInv(ss, steps, run, empty, policy, i);
    us, ts := ChildCanFinish(ss[i], run, empty, policy);
    var last := us[|ts|];
    Append(us, ts, Done(true, true, true), run, empty, policy);
    us := us + [Apply(last, Done(true, true, true), run, empty, policy)];
    DoneKeeps(last, true, run, empty);
  }

  /** A fork starts a child that works on its snapshot, with nothing fed yet, and leaves the live AOF alone. */
  lemma RewriteStarts<D(!new)>(s: Server<D>, snapshot: seq<Cmd>, run: (D, Entry) -> D, empty: D, policy: Policy)
    requires s.child.None? && AllFit(snapshot) && Rebuild(run, empty, snapshot) == s.data
    ensures Enabled(s, Fork(snapshot), run, empty, policy)
    ensures var u := Apply(s, Fork(snapshot), run, empty, policy);
            && CanAgree(u) && u.child.value.snapshot == snapshot && u.child.value.phase == Working && u.fed == []
            && u.w == s.w && u.log == s.log && u.data == s.data && u.on == s.on
  {
    hide Rebuild, AllFit;
  }

  /** While the child works, everything fed so far can reach it through the pipe, before it asks. */
  lemma DiffCanReachChild<D(!new)>(s: Server<D>, run: (D, Entry) -> D, empty: D, policy: Policy)
    requires Inv(s, run, empty) && s.child.Some? && s.child.value.phase == Working
    ensures Enabled(s, PipeWrite(|s.pending|), run, empty, policy)
    ensures var u := Apply(s, PipeWrite(|s.pending|), run, empty, policy);
            && Enabled(u, ChildRead(|s.pipe| + |s.pending|), run, empty, policy)
            && var w := Apply(u, ChildRead(|s.pipe| + |s.pending|), run, empty, policy);
               w.child.Some? && w.child.value.diff == PrintAll(s.fed) && w.pipe == [] && w.pending == []
  {
    hide Rebuild, PrintAll, AllFit, Tracks, IsSelect, LiveOk, FlushOnce, OnExecute, OnDone;
    var all := s.pipe + s.pending;
    assert s.pending[..|s.pending|] == s.pending && all[..|all|] == all;
    Regroup(s.child.value.diff, s.pipe, s.pending);
  }

  /** A child that works or talks can fail, and then the live AOF stays as it is. */
  lemma RewriteCanFail<D(!new)>(s: Server<D>, run: (D, Entry) -> D, empty: D, policy: Policy)
    requires s.child.Some? && s.child.value.phase in {Working, Asked, Agreed}
    ensures Enabled(s, ChildFail, run, empty, policy)
    ensures var u := Apply(s, ChildFail, run, empty, policy);
            && Enabled(u, Done(true, true, true), run, empty, policy)
            && var w := Apply(u, Done(true, true, true), run, empty, policy);
               w.child.None? && w.w == s.w && w.log == s.log && w.data == s.data && w.on == s.on && w.selected == s.selected
  {
  }

  /** Failed, or asking with neither question nor answer under way. */
  ghost predicate Lost<D>(s: Server<D>) {
    s.child.Some? && !CanAgree(s)
  }

  /** Otherwise no step completes the rewrite: the child stays lost until it is gone, and the live AOF is not switched. */
  lemma LostStaysLost<D(!new)>(s: Server<D>, step: Step, run: (D, Entry) -> D, empty: D, policy: Policy)
    requires Lost(s) && Enabled(s, step, run, empty, policy)
    ensures var u := Apply(s, step, run, empty, policy);
            if step.Done? then u.child.None? && u.w == s.w && u.log == s.log else Lost(u)
  {
    hide PrintAll, Feed, FlushOnce, Rebuild;
  }

  // ---------- the data set ----------

  /** After a flush whose write is complete, the file alone rebuilds the data set, unless the flush had to wait. */
  lemma FlushMakesDurable<D(!new)>(ss: seq<Server<D>>, steps: seq<Step>, run: (D, Entry) -> D, empty: D, policy: Policy,
                                   i: nat)
    requires Run(ss, steps, run, empty, policy) && i < |steps| && ss[i].on && steps[i].Flush?
    requires steps[i].o.nwritten == |ss[i].w.buf|
    requires policy != EverySec || steps[i].t.force || !steps[i].t.fsyncPending ||
             (ss[i].w.postponed != 0 && steps[i].t.now - ss[i].w.postponed >= 2)
    ensures var r := Load(ss[i + 1].w.file);
            r.status == Loaded && r.cmds == ss[i].log && Rebuild(run, empty, r.cmds) == ss[i].data && ss[i + 1].w.buf == []
  {
    hide Load, Rebuild, PrintAll, AllFit, FlushOnce, Tracks;
    var s, t, o := ss[i], steps[i].t, steps[i].o;
    RunInv(ss, steps, run, empty, policy, i);
    assert ss[i + 1] == Apply(s, steps[i], run, empty, policy);
    if s.w.buf == [] {
      EmptyFlush(s.w, policy, t, o);
      assert s.w.file + [] == s.w.file;
    } else {
      FlushWrites(s.w, policy, t, o);
    }
    LogRoundTrip(s.log);
  }

  ghost function Executed(steps: seq<Step>): seq<Entry> {
    if steps == [] then []
    else Executed(steps[..|steps| - 1]) + if steps[|steps| - 1].Execute? then [steps[|steps| - 1].e] else []
  }

  /** Only an executed command changes the data set. */
  lemma StepData<D(!new)>(s: Server<D>, step: Step, run: (D, Entry) -> D, empty: D, policy: Policy)
    requires Enabled(s, step, run, empty, policy)
    ensures Apply(s, step, run, empty, policy).data == if step.Execute? then run(s.data, step.e) else s.data
  {
    hide Rebuild, FlushOnce, PrintAll, Feed;
  }

  lemma ExecutedStep<D>(steps: seq<Step>, i: nat, run: (D, Entry) -> D, d: D)
    requires 0 < i <= |steps|
    ensures var before, step := RunAll(run, d, Executed(steps[..i - 1])), steps[i - 1];
            RunAll(run, d, Executed(steps[..i])) == if step.Execute? then run(before, step.e) else before
  {
    assert steps[..i][..i - 1] == steps[..i - 1];
    var before, step := Executed(steps[..i - 1]), steps[i - 1];
    if step.Execute? {
      RunAllConcat(run, d, before, [step.e]);
      assert [step.e][1..] == [];
      assert RunAll(run, RunAll(run, d, before), [step.e]) == run(RunAll(run, d, before), step.e);
    } else {
      assert before + [] == before;
    }
  }

  /** In every interleaving, the data set is that of the commands executed, in order. */
  lemma {:induction false} DataFollowsCommands<D(!new)>(ss: seq<Server<D>>, steps: seq<Step>, run: (D, Entry) -> D, empty: D,
                                                        policy: Policy, i: nat)
    requires Run(ss, steps, run, empty, policy) && i <= |steps|
    ensures ss[i].data == RunAll(run, ss[0].data, Executed(steps[..i]))
  {
    hide Inv, Enabled, Apply;
    if i == 0 {
      assert Executed(steps[..0]) == [];
    } else {
      hide RunAll, Executed;
      DataFollowsCommands(ss, steps, run, empty, policy, i - 1);
      assert Enabled(ss[i - 1], steps[i - 1], run, empty, policy);
      assert ss[(i - 1) + 1] == Apply(ss[i - 1], steps[i - 1], run, empty, policy);
      StepData(ss[i - 1], steps[i - 1], run, empty, policy);
      ExecutedStep(steps, i, run, ss[0].data);
    }
  }

  /** Hence loading file and buffer rebuilds what the commands of the run made, rewrites or not. */
  lemma LoadRepeatsCommands<D(!new)>(ss: seq<Server<D>>, steps: seq<Step>, run: (D, Entry) -> D, empty: D, policy: Policy)
    requires Run(ss, steps, run, empty, policy) && ss[|steps|].on
    ensures var r := Load(ss[|steps|].w.file + ss[|steps|].w.buf);
            r.status == Loaded && Rebuild(run, empty, r.cmds) == RunAll(run, ss[0].data, Executed(steps))
  {
    hide Load, Rebuild, RunAll, Executed, Run;
    AofRebuildsData(ss, steps, run, empty, policy, |steps|);
    DataFollowsCommands(ss, steps, run, empty, policy, |steps|);
    assert steps[..|steps|] == steps;
  }
}
