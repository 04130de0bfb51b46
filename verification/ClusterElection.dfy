/** What holds in every run of a cluster: epoch dominance, exact vote counts and election safety. */
module ClusterElection {
  import opened Common
  import opened ClusterModel
  import opened ClusterPackets
  import opened ClusterOps
  import opened ClusterNet

  /** A run from a fresh start, without restarts or hard resets. */
  ghost predicate Run(cs: seq<Cluster>, steps: seq<Step>, electorate: nat -> set<Id>) {
    && |cs| == |steps| + 1 && Init(cs[0])
    && forall i | 0 <= i < |steps| ::
         && Enabled(cs[i], steps[i], electorate)
         && (Typed(cs[i]) ==> cs[i + 1] == Apply(cs[i], steps[i], electorate))
  }

  lemma InitInv(c: Cluster, electorate: nat -> set<Id>)
    requires Init(c)
    ensures Inv(c, electorate)
  {
    hide Sound, Sized;
    forall n | n in c.servers ensures CountExact(c, n) {}
  }

  lemma {:induction false} RunInv(cs: seq<Cluster>, steps: seq<Step>, electorate: nat -> set<Id>, i: nat)
    requires Run(cs, steps, electorate) && i <= |steps|
    ensures Inv(cs[i], electorate) && Typed(cs[i])
  {
    hide Inv, Typed, Apply, Enabled, Init;
    if i == 0 {
      InitInv(cs[0], electorate);
    } else {
      RunInv(cs, steps, electorate, i - 1);
      assert Enabled(cs[i - 1], steps[i - 1], electorate);
      StepKeepsInv(cs[i - 1], steps[i - 1], electorate);
    }
    InvTyped(cs[i], electorate);
  }

  /** At every node and in every message in flight, configuration epochs are at most the current epoch beside them. */
  lemma EpochDominance(cs: seq<Cluster>, steps: seq<Step>, electorate: nat -> set<Id>, i: nat)
    requires Run(cs, steps, electorate) && i <= |steps|
    ensures forall n | n in cs[i].servers :: Agree(cs[i].servers[n].view) && Dominated(cs[i].servers[n].view)
    ensures forall m | m in cs[i].net :: HdrOf(m.body).configEpoch <= HdrOf(m.body).currentEpoch
    ensures forall m | m in cs[i].net && m.body.Config? && m.body.packet.Update? ::
              m.body.packet.epoch <= m.body.packet.hdr.currentEpoch
  {
    hide Agree, Dominated;
    RunInv(cs, steps, electorate, i);
  }

  /**
   A slave's counter is the number of distinct masters that voted for it in its current election,
   exactly when no ACK was counted between the last reset and the request.
   */
  lemma CountIsVotes(cs: seq<Cluster>, steps: seq<Step>, electorate: nat -> set<Id>, i: nat, n: Id)
    requires Run(cs, steps, electorate) && i <= |steps| && n in cs[i].servers && cs[i].servers[n].authSent
    ensures n in cs[i].stale
    ensures var s := cs[i].servers[n];
            s.authCount == |VotesFor(cs[i].counted, n, s.authEpoch)| <==> cs[i].stale[n] == 0
  {
    hide Typed;
    RunInv(cs, steps, electorate, i);
    assert CountExact(cs[i], n);
  }

  // ---------- two majorities share a voter ----------

  lemma {:induction false} VotesAtMostElectorate(gs: set<Grant>, e: nat, voters: set<Id>)
    requires forall g | g in gs :: g.epoch == e && g.voter in voters
    requires forall g, h | g in gs && h in gs && g.voter == h.voter :: g == h
    ensures |gs| <= |voters|
    decreases |gs|
  {
    if gs != {} {
      var g :| g in gs;
      VotesAtMostElectorate(gs - {g}, e, voters - {g.voter});
    }
  }

  ghost predicate Majority(c: Cluster, n: Id, e: nat, electorate: nat -> set<Id>) {
    |VotesFor(c.granted, n, e)| >= |electorate(e)| / 2 + 1
  }

  lemma MajoritiesMeet(c: Cluster, a: Id, b: Id, e: nat, electorate: nat -> set<Id>)
    requires VotesUnique(c, electorate) && Majority(c, a, e, electorate) && Majority(c, b, e, electorate)
    ensures a == b
  {
    if a != b {
      var x, y := VotesFor(c.granted, a, e), VotesFor(c.granted, b, e);
      assert x !! y;
      assert |x + y| == |x| + |y|;
      VotesAtMostElectorate(x + y, e, electorate(e));
    }
  }

  // ---------- election safety ----------

  /** The counter without what came in before the request went out reaches the quorum of a cluster of this size. */
  ghost predicate Earned(c: Cluster, n: Id, size: nat)
    requires n in c.servers && n in c.stale
  {
    c.servers[n].authCount - c.stale[n] >= size / 2 + 1
  }

  /** A win is earned exactly when the votes counted for the epoch of the election alone reach the quorum. */
  lemma EarnedIff(cs: seq<Cluster>, steps: seq<Step>, electorate: nat -> set<Id>, i: nat)
    requires Run(cs, steps, electorate) && i < |steps| && steps[i].Win?
    ensures var n := steps[i].node;
            && n in cs[i].servers && n in cs[i].stale
            && (Earned(cs[i], n, steps[i].size) <==>
                |VotesFor(cs[i].counted, n, cs[i].servers[n].authEpoch)| >= steps[i].size / 2 + 1)
  {
    hide Typed;
    assert Enabled(cs[i], steps[i], electorate);
    RunInv(cs, steps, electorate, i);
    assert CountExact(cs[i], steps[i].node);
  }

  ghost predicate AllEarned(cs: seq<Cluster>, steps: seq<Step>)
    requires |cs| == |steps| + 1
  {
    forall i | 0 <= i < |steps| && steps[i].Win? && steps[i].node in cs[i].servers && steps[i].node in cs[i].stale ::
      Earned(cs[i], steps[i].node, steps[i].size)
  }

  ghost predicate WonByMajority(c: Cluster, electorate: nat -> set<Id>) {
    forall w | w in c.won :: Majority(c, w.0, w.1, electorate)
  }

  lemma VotesGrow(c: Cluster, step: Step, electorate: nat -> set<Id>)
    requires Typed(c) && Enabled(c, step, electorate)
    ensures c.granted <= Apply(c, step, electorate).granted
    ensures step.Win? || Apply(c, step, electorate).won == c.won
  {
    hide Typed, Process, ApplyLocal, Votes, BuildHdr, ReplaceMaster, Sized;
  }

  lemma TypedStale(c: Cluster)
    requires Typed(c)
    ensures c.stale.Keys == c.servers.Keys
  {
  }

  lemma {:induction false} SubsetCard<T>(x: set<T>, y: set<T>)
    requires x <= y
    ensures |x| <= |y|
  {
    assert y == x + (y - x);
  }

  lemma MajorityStays(c: Cluster, d: Cluster, n: Id, e: nat, electorate: nat -> set<Id>)
    requires Majority(c, n, e, electorate) && c.granted <= d.granted
    ensures Majority(d, n, e, electorate)
  {
    SubsetCard(VotesFor(c.granted, n, e), VotesFor(d.granted, n, e));
  }

  /** A slave that earned its win has the votes of a majority of the electorate. */
  lemma WinnerHasMajority(c: Cluster, n: Id, size: nat, electorate: nat -> set<Id>)
    requires Inv(c, electorate) && Enabled(c, Win(n, size), electorate) && n in c.stale && Earned(c, n, size)
    ensures Majority(c, n, c.servers[n].authEpoch, electorate)
  {
    hide Typed, VotesUnique, RequestsOld;
    assert CountExact(c, n);
    SubsetCard(VotesFor(c.counted, n, c.servers[n].authEpoch), VotesFor(c.granted, n, c.servers[n].authEpoch));
  }

  lemma {:induction false} RunWonByMajority(cs: seq<Cluster>, steps: seq<Step>, electorate: nat -> set<Id>, i: nat)
    requires Run(cs, steps, electorate) && AllEarned(cs, steps) && i <= |steps|
    ensures WonByMajority(cs[i], electorate)
  {
    hide Inv, Apply, Majority, Sound, Sized, Earned;
    if i > 0 {
      assert Enabled(cs[i - 1], steps[i - 1], electorate);
      RunWonByMajority(cs, steps, electorate, i - 1);
      RunInv(cs, steps, electorate, i - 1);
      TypedStale(cs[i - 1]);
      StepWonByMajority(cs[i - 1], steps[i - 1], electorate);
    }
  }

  lemma StepWonByMajority(c: Cluster, step: Step, electorate: nat -> set<Id>)
    requires Inv(c, electorate) && Typed(c) && Enabled(c, step, electorate) && WonByMajority(c, electorate)
    requires step.Win? ==> step.node in c.stale && Earned(c, step.node, step.size)
    ensures WonByMajority(Apply(c, step, electorate), electorate)
  {
    hide Inv, Typed, Apply, Majority, Earned;
    VotesGrow(c, step, electorate);
    var d := Apply(c, step, electorate);
    forall w | w in c.won ensures Majority(d, w.0, w.1, electorate) { MajorityStays(c, d, w.0, w.1, electorate); }
    if step.Win? {
      WinnerHasMajority(c, step.node, step.size, electorate);
      var e := c.servers[step.node].authEpoch;
      MajorityStays(c, d, step.node, e, electorate);
      WinRecords(c, step.node, step.size, electorate);
    }
  }

  lemma WinRecords(c: Cluster, n: Id, size: nat, electorate: nat -> set<Id>)
    requires Typed(c) && Enabled(c, Win(n, size), electorate)
    ensures Apply(c, Win(n, size), electorate).won == c.won + {(n, c.servers[n].authEpoch)}
  {
    hide Typed, ReplaceMaster;
  }

  /** No two slaves win an election of the same epoch, if every win is earned. */
  lemma ElectionSafety(cs: seq<Cluster>, steps: seq<Step>, electorate: nat -> set<Id>, a: Id, b: Id, e: nat)
    requires Run(cs, steps, electorate) && AllEarned(cs, steps)
    requires (a, e) in cs[|steps|].won && (b, e) in cs[|steps|].won
    ensures a == b
  {
    hide Typed, Majority;
    var c := cs[|steps|];
    RunWonByMajority(cs, steps, electorate, |steps|);
    RunInv(cs, steps, electorate, |steps|);
    assert Majority(c, (a, e).0, (a, e).1, electorate) && Majority(c, (b, e).0, (b, e).1, electorate);
    MajoritiesMeet(c, a, b, e, electorate);
  }

  // ---------- wins are earned when no vote is stale, and no vote is stale when ACKs arrive in time ----------

  /** At every win, nothing is in the winner's counter from before its request. */
  ghost predicate NoStaleWins(cs: seq<Cluster>, steps: seq<Step>)
    requires |cs| == |steps| + 1
  {
    forall i | 0 <= i < |steps| && steps[i].Win? && steps[i].node in cs[i].stale :: cs[i].stale[steps[i].node] == 0
  }

  lemma NoStaleEarned(cs: seq<Cluster>, steps: seq<Step>, electorate: nat -> set<Id>)
    requires Run(cs, steps, electorate) && NoStaleWins(cs, steps)
    ensures AllEarned(cs, steps)
  {
    hide Apply, Typed;
    forall i | 0 <= i < |steps| && steps[i].Win? && steps[i].node in cs[i].servers && steps[i].node in cs[i].stale
      ensures Earned(cs[i], steps[i].node, steps[i].size)
    {
      assert Enabled(cs[i], steps[i], electorate);
    }
  }

  /** Every vote that is counted arrives while the request it answers is out. */
  ghost predicate AcksInTime(cs: seq<Cluster>, steps: seq<Step>)
    requires |cs| == |steps| + 1
  {
    forall i | 0 <= i < |steps| && steps[i].ReceiveAck? && steps[i].m.to in cs[i].servers ::
      cs[i].servers[steps[i].m.to].authSent
  }

  ghost predicate Fresh(c: Cluster) {
    forall n | n in c.stale :: c.stale[n] == 0
  }

  lemma OtherStepFresh(c: Cluster, step: Step, electorate: nat -> set<Id>)
    requires Typed(c) && Enabled(c, step, electorate) && !step.ReceiveAck? && Fresh(c)
    ensures Fresh(Apply(c, step, electorate))
  {
    hide Typed, Process, ApplyLocal, Votes, BuildHdr, ReplaceMaster, Sized;
  }

  lemma AckInTimeFresh(c: Cluster, m: Msg, electorate: nat -> set<Id>)
    requires Typed(c) && Enabled(c, ReceiveAck(m), electorate) && Fresh(c) && c.servers[m.to].authSent
    ensures Fresh(Apply(c, ReceiveAck(m), electorate))
  {
    hide Typed, SeeEpochs;
    TypedStale(c);
  }

  lemma {:induction false} RunFresh(cs: seq<Cluster>, steps: seq<Step>, electorate: nat -> set<Id>, i: nat)
    requires Run(cs, steps, electorate) && AcksInTime(cs, steps) && i <= |steps|
    ensures Fresh(cs[i])
  {
    hide Inv, Apply, Sound, Sized, Votes;
    if i > 0 {
      var step := steps[i - 1];
      assert Enabled(cs[i - 1], step, electorate);
      RunFresh(cs, steps, electorate, i - 1);
      RunInv(cs, steps, electorate, i - 1);
      if step.ReceiveAck? {
        AckInTimeFresh(cs[i - 1], step.m, electorate);
      } else {
        OtherStepFresh(cs[i - 1], step, electorate);
      }
    }
  }

  /** If every ACK arrives while its request is out, no two slaves win the same epoch. */
  lemma SafetyWithAcksInTime(cs: seq<Cluster>, steps: seq<Step>, electorate: nat -> set<Id>, a: Id, b: Id, e: nat)
    requires Run(cs, steps, electorate) && AcksInTime(cs, steps)
    requires (a, e) in cs[|steps|].won && (b, e) in cs[|steps|].won
    ensures a == b
  {
    hide AcksInTime, AllEarned, Enabled, Apply, Typed, Init;
    forall i | 0 <= i < |steps| ensures Fresh(cs[i]) { RunFresh(cs, steps, electorate, i); }
    NoStaleEarned(cs, steps, electorate);
    ElectionSafety(cs, steps, electorate, a, b, e);
  }

  // ---------- an ACK that arrives too late can make a second winner ----------

  /** A cluster of one master, 0, with one slot, and its slaves 1 and 2. */
  function OneSlot(): Bitmap {
    SetBit(NoSlots(), 0)
  }

  function SmallView(me: Id, epoch: nat): View
    requires me <= 2
  {
    View(me, epoch,
         map[0 := Node(0, true, None, OneSlot(), 1),
             1 := Node(0, false, Some(0), NoSlots(), 0),
             2 := Node(0, false, Some(0), NoSlots(), 0)],
         seq(SLOTS, i => if i == 0 then Some(0) else None), seq(SLOTS, _ => None), seq(SLOTS, _ => None))
  }

  lemma SmallViewSound(me: Id, epoch: nat)
    requires me <= 2
    ensures Sound(SmallView(me, epoch)) && Sized(SmallView(me, epoch))
  {
    hide TestBit, CountBits, SetBit;
    NoBits(SLOTS);
    CountAfterSet(NoSlots(), 0, SLOTS);
    forall q | 0 <= q < SLOTS { BitAfterSet(NoSlots(), 0, q); }
  }

  function SmallHdr(me: Id, epoch: nat): Header {
    Header(me, epoch, 0, OneSlot(), if me == 0 then None else Some(0))
  }

  function Idle(me: Id, epoch: nat): Server
    requires me <= 2
  {
    Server(SmallView(me, epoch), 0, 0, 0, false)
  }

  function Alone(e: nat): set<Id> {
    {0}
  }

  /** Slave `n` asks master 0 for its vote. */
  lemma Ask(c: Cluster, n: Id, e: nat) returns (d: Cluster, step: Step, req: Msg)
    requires Inv(c, Alone) && c.net == {} && (n == 1 || n == 2) && n in c.servers
    requires c.servers[n].view == SmallView(n, e) && !c.servers[n].authSent
    ensures Typed(c) && Enabled(c, step, Alone) && d == Apply(c, step, Alone) && Inv(d, Alone)
    ensures req == Msg(0, 0, AuthRequest(SmallHdr(n, e + 1), true)) && d.net == {req}
    ensures d.servers == c.servers[n := c.servers[n].(view := SmallView(n, e + 1), authEpoch := e + 1, authSent := true)]
    ensures d.won == c.won && d.stale == c.stale
  {
    hide Inv, Sized, Sound, OneSlot, NoSlots;
    InvTyped(c, Alone);
    step := StartElection(n, {0}, true, 0);
    d := Apply(c, step, Alone);
    StepKeepsInv(c, step, Alone);
    req := Msg(0, 0, AuthRequest(SmallHdr(n, e + 1), true));
    assert BuildHdr(SmallView(n, e + 1)) == SmallHdr(n, e + 1);
    assert d.net == {req};
  }

  /** Slave 1 asks master 0 and, as the broadcast does, slave 2. */
  lemma AskAll(c: Cluster) returns (d: Cluster, step: Step, req: Msg, other: Msg)
    requires Inv(c, Alone) && c.net == {} && 1 in c.servers
    requires c.servers[1].view == SmallView(1, 0) && !c.servers[1].authSent
    ensures Typed(c) && Enabled(c, step, Alone) && d == Apply(c, step, Alone) && Inv(d, Alone)
    ensures req == Msg(0, 0, AuthRequest(SmallHdr(1, 1), true)) && other == req.(to := 2) && d.net == {req, other}
    ensures d.servers == c.servers[1 := c.servers[1].(view := SmallView(1, 1), authEpoch := 1, authSent := true)]
  {
    hide Inv, Sized, Sound, OneSlot, NoSlots;
    InvTyped(c, Alone);
    step := StartElection(1, {0, 2}, true, 0);
    d := Apply(c, step, Alone);
    StepKeepsInv(c, step, Alone);
    req := Msg(0, 0, AuthRequest(SmallHdr(1, 1), true));
    other := req.(to := 2);
    assert BuildHdr(SmallView(1, 1)) == SmallHdr(1, 1);
    assert d.net == {req, other};
  }

  /** Slave 2 takes the new epoch from the request, which it does not answer. */
  lemma Hear(c: Cluster, req: Msg, other: Msg) returns (d: Cluster, step: Step)
    requires Inv(c, Alone) && c.net == {req, other} && 2 in c.servers && c.servers[2].view == SmallView(2, 0)
    requires req == Msg(0, 0, AuthRequest(SmallHdr(1, 1), true)) && other == req.(to := 2)
    ensures Typed(c) && Enabled(c, step, Alone) && d == Apply(c, step, Alone) && Inv(d, Alone)
    ensures d.net == {req} && d.servers == c.servers[2 := c.servers[2].(view := SmallView(2, 1))]
  {
    hide Inv, Sized, Sound, OneSlot, NoSlots, TestBit, SeeEpochs;
    InvTyped(c, Alone);
    step := ReceiveRequest(other, false, false, 1);
    SmallSees(2, 0, 1);
    d := Apply(c, step, Alone);
    StepKeepsInv(c, step, Alone);
    assert d.net == {req};
  }

  lemma SmallSees(n: Id, e: nat, k: nat)
    requires n <= 2 && k <= 2 && e >= 0
    ensures SeeEpochs(SmallView(n, e), SmallHdr(k, e + 1)) == SmallView(n, e + 1)
  {
    hide OneSlot, NoSlots;
  }

  /** Master 0 has not voted in the request's epoch and grants it. */
  lemma GrantIt(c: Cluster, n: Id, e: nat, req: Msg) returns (d: Cluster, step: Step, ack: Msg)
    requires Inv(c, Alone) && 0 in c.servers && (n == 1 || n == 2)
    requires req == Msg(0, 0, AuthRequest(SmallHdr(n, e + 1), true)) && c.net == {req}
    requires c.servers[0].view == SmallView(0, e) && c.servers[0].lastVoteEpoch <= e
    ensures Typed(c) && Enabled(c, step, Alone) && d == Apply(c, step, Alone) && Inv(d, Alone)
    ensures ack == Msg(1, n, AuthAck(SmallHdr(0, e + 1))) && d.net == {ack}
    ensures d.servers == c.servers[0 := c.servers[0].(view := SmallView(0, e + 1), lastVoteEpoch := e + 1)]
    ensures d.won == c.won && d.stale == c.stale
  {
    hide Inv, Sized, Sound, TestBit, OneSlot, NoSlots, SeeEpochs;
    InvTyped(c, Alone);
    step := ReceiveRequest(req, false, false, 1);
    SmallViewSound(0, e + 1);
    SmallSees(0, e, n);
    var s := See(c.servers[0], req.body.hdr);
    SmallVotes(s, n, e);
    d := Apply(c, step, Alone);
    StepKeepsInv(c, step, Alone);
    ack := Msg(1, n, AuthAck(SmallHdr(0, e + 1)));
    assert BuildHdr(SmallView(0, e + 1)) == SmallHdr(0, e + 1);
    assert d.net == {ack};
  }

  lemma SmallVotes(s: Server, n: Id, e: nat)
    requires (n == 1 || n == 2) && s.view == SmallView(0, e + 1) && s.lastVoteEpoch <= e
    ensures Votes(s, SmallHdr(n, e + 1), true, false, false)
  {
    hide TestBit, OneSlot, NoSlots;
    SmallViewSound(0, e + 1);
  }

  /** The vote arrives and is counted, whether or not the request is still out. */
  lemma CountIt(c: Cluster, n: Id, e: nat, ack: Msg) returns (d: Cluster, step: Step)
    requires Inv(c, Alone) && n in c.servers && (n == 1 || n == 2)
    requires ack == Msg(1, n, AuthAck(SmallHdr(0, e))) && c.net == {ack}
    requires c.servers[n].view == SmallView(n, e) && c.servers[n].authEpoch == e
    ensures Typed(c) && Enabled(c, step, Alone) && d == Apply(c, step, Alone) && Inv(d, Alone)
    ensures d.net == {} && d.won == c.won && step == ReceiveAck(ack)
    ensures d.servers == c.servers[n := c.servers[n].(authCount := c.servers[n].authCount + 1)]
  {
    hide Inv, Sized, Sound, OneSlot, NoSlots;
    InvTyped(c, Alone);
    TypedStale(c);
    step := ReceiveAck(ack);
    d := Apply(c, step, Alone);
    StepKeepsInv(c, step, Alone);
    assert See(c.servers[n], ack.body.hdr) == c.servers[n];
    assert d.net == {};
  }

  lemma WinIt(c: Cluster, n: Id) returns (d: Cluster, step: Step)
    requires Inv(c, Alone) && n in c.servers && c.servers[n].authSent && c.servers[n].authCount == 1
    ensures Typed(c) && Enabled(c, step, Alone) && d == Apply(c, step, Alone) && Inv(d, Alone)
    ensures d.net == c.net && d.won == c.won + {(n, c.servers[n].authEpoch)}
    ensures forall k | k in c.servers && k != n :: k in d.servers && d.servers[k] == c.servers[k]
  {
    hide Inv, Sized, Sound, ReplaceMaster;
    InvTyped(c, Alone);
    step := Win(n, 1);
    d := Apply(c, step, Alone);
    StepKeepsInv(c, step, Alone);
  }

  /** The scheduling of a new attempt, and its request, which nobody receives. */
  lemma Retry(c: Cluster, n: Id, e: nat) returns (d: Cluster, step: Step)
    requires Inv(c, Alone) && n in c.servers && (n == 1 || n == 2)
    requires c.servers[n].view == SmallView(n, e) && !c.servers[n].authSent
    ensures Typed(c) && Enabled(c, step, Alone) && d == Apply(c, step, Alone) && Inv(d, Alone)
    ensures d.net == c.net && d.won == c.won
    ensures d.servers == c.servers[n := c.servers[n].(view := SmallView(n, e + 1), authEpoch := e + 1, authSent := true)]
  {
    hide Inv, Sized, Sound, OneSlot, NoSlots;
    InvTyped(c, Alone);
    step := StartElection(n, {}, true, 0);
    d := Apply(c, step, Alone);
    StepKeepsInv(c, step, Alone);
    assert d.net == c.net;
  }

  lemma GiveUp(c: Cluster, n: Id) returns (d: Cluster, step: Step)
    requires Inv(c, Alone) && n in c.servers
    ensures Typed(c) && Enabled(c, step, Alone) && d == Apply(c, step, Alone) && Inv(d, Alone)
    ensures d.net == c.net && d.won == c.won
    ensures d.servers == c.servers[n := c.servers[n].(authCount := 0, authSent := false)]
  {
    hide Inv, Sized, Sound;
    InvTyped(c, Alone);
    step := Schedule(n);
    d := Apply(c, step, Alone);
    StepKeepsInv(c, step, Alone);
  }

  /** One more step of a run. */
  lemma Extend(cs: seq<Cluster>, steps: seq<Step>, step: Step, d: Cluster, electorate: nat -> set<Id>)
    requires Run(cs, steps, electorate)
    requires var c := cs[|steps|]; Typed(c) && Enabled(c, step, electorate) && d == Apply(c, step, electorate)
    ensures Run(cs + [d], steps + [step], electorate)
  {
    hide Typed, Enabled, Apply, Init;
    var ds, ss := cs + [d], steps + [step];
    forall i | 0 <= i < |ss|
      ensures Enabled(ds[i], ss[i], electorate) && (Typed(ds[i]) ==> ds[i + 1] == Apply(ds[i], ss[i], electorate))
    {
      if i < |steps| { assert ds[i] == cs[i] && ds[i + 1] == cs[i + 1] && ss[i] == steps[i]; }
    }
  }

  /** Slave 1 counts its vote of epoch 1 in the election of epoch 2, and wins that. */
  lemma FirstWinner() returns (cs: seq<Cluster>, steps: seq<Step>)
    ensures Run(cs, steps, Alone) && Inv(cs[|steps|], Alone)
    ensures var c := cs[|steps|];
            && (1, 2) in c.won && c.net == {} && 0 in c.servers && 2 in c.servers
            && c.servers[2] == Idle(2, 1) && c.servers[0] == Idle(0, 1).(lastVoteEpoch := 1)
  {
    hide Inv, Apply, Enabled, Sized, Sound, SmallView, Typed, Run;
    var c0 := Cluster(map[0 := Idle(0, 0), 1 := Idle(1, 0), 2 := Idle(2, 0)], {}, {}, {}, map[0 := 0, 1 := 0, 2 := 0], {});
    SmallInit(c0);
    InitInv(c0, Alone);
    cs, steps := [c0], [];
    RunOfNone(c0);
    var c1, s0, req, other := AskAll(c0);
    Extend(cs, steps, s0, c1, Alone);
    cs, steps := cs + [c1], steps + [s0];
    var c2, s1 := Hear(c1, req, other);
    Extend(cs, steps, s1, c2, Alone);
    cs, steps := cs + [c2], steps + [s1];
    var c3, s2, ack := GrantIt(c2, 1, 0, req);
    Extend(cs, steps, s2, c3, Alone);
    cs, steps := cs + [c3], steps + [s2];
    var c4, s3 := GiveUp(c3, 1);
    Extend(cs, steps, s3, c4, Alone);
    cs, steps := cs + [c4], steps + [s3];
    var c5, s4 := CountIt(c4, 1, 1, ack);
    Extend(cs, steps, s4, c5, Alone);
    cs, steps := cs + [c5], steps + [s4];
    var c6, s5 := Retry(c5, 1, 1);
    Extend(cs, steps, s5, c6, Alone);
    cs, steps := cs + [c6], steps + [s5];
    var c7, s6 := WinIt(c6, 1);
    Extend(cs, steps, s6, c7, Alone);
    cs, steps := cs + [c7], steps + [s6];
  }

  lemma RunOfNone(c: Cluster)
    requires Init(c)
    ensures Run([c], [], Alone)
  {
  }

  /**
   A vote that arrives after the next attempt was scheduled stays in the counter, because asking
   for votes does not clear it: two slaves win the same epoch.
   */
  lemma LateAckMakesTwoWinners() returns (cs: seq<Cluster>, steps: seq<Step>)
    ensures Run(cs, steps, Alone) && |cs| == |steps| + 1 && !AllEarned(cs, steps) && !AcksInTime(cs, steps)
    ensures (1, 2) in cs[|steps|].won && (2, 2) in cs[|steps|].won
  {
    hide Inv, Apply, Enabled, Sized, Sound, SmallView, Typed, Run, AllEarned, AcksInTime;
    cs, steps := FirstWinner();
    RunLength(cs, steps);
    var c0 := cs[|steps|];
    var c1, s0, req := Ask(c0, 2, 1);
    Extend(cs, steps, s0, c1, Alone);
    cs, steps := cs + [c1], steps + [s0];
    var c2, s1, ack := GrantIt(c1, 2, 1, req);
    Extend(cs, steps, s1, c2, Alone);
    cs, steps := cs + [c2], steps + [s1];
    var c3, s2 := CountIt(c2, 2, 2, ack);
    Extend(cs, steps, s2, c3, Alone);
    cs, steps := cs + [c3], steps + [s2];
    var c4, s3 := WinIt(c3, 2);
    Extend(cs, steps, s3, c4, Alone);
    cs, steps := cs + [c4], steps + [s3];
    if AllEarned(cs, steps) { ElectionSafety(cs, steps, Alone, 1, 2, 2); }
    if AcksInTime(cs, steps) { SafetyWithAcksInTime(cs, steps, Alone, 1, 2, 2); }
  }

  lemma RunLength(cs: seq<Cluster>, steps: seq<Step>)
    requires Run(cs, steps, Alone)
    ensures |cs| == |steps| + 1
  {
  }

  lemma SmallInit(c: Cluster)
    requires c == Cluster(map[0 := Idle(0, 0), 1 := Idle(1, 0), 2 := Idle(2, 0)], {}, {}, {}, map[0 := 0, 1 := 0, 2 := 0], {})
    ensures Init(c)
  {
    hide Sound, Sized;
    SmallViewSound(0, 0);
    SmallViewSound(1, 0);
    SmallViewSound(2, 0);
  }
}
