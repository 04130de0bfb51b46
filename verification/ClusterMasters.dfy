/**
 What nodes keep about their own entry over whole runs.  A node that is a master or knows the master it replicates
 stays so, hence the NULL that `clusterUpdateSlotsConfigWith` does not test for is not read.  A slave owns no slot, hence
 the assertion of `clusterSetMaster` does not fail.
 */
module ClusterMasters {
  import opened Common
  import opened ClusterModel
  import opened ClusterPackets
  import opened ClusterOps
  import opened ClusterEffects
  import opened ClusterCommands
  import opened ClusterSlaves
  import opened ClusterNet
  import opened ClusterElection

  /** `nodeIsMaster(myself) || myself->slaveof` */
  ghost predicate KnowsMaster(v: View) {
    v.me in v.nodes && CurMaster(v).Some?
  }

  // ---------- packets ----------

  lemma UpdateKeepsMaster(v: View, s: Id, epoch: nat, claimed: Bitmap)
    requires Agree(v) && s in v.nodes && KnowsMaster(v)
    ensures Sized(UpdateSlots(v, s, epoch, claimed)) && KnowsMaster(UpdateSlots(v, s, epoch, claimed))
  {
    hide Agree, Rebind, Sized;
    AgreeSized(v);
    UpdateSlotsEffect(v, s, epoch, claimed);
    AgreeSized(UpdateSlots(v, s, epoch, claimed));
    RebindEffect(v, s, epoch, claimed, CurMaster(v), false, 0);
  }

  /** A packet of another node leaves this node with a known master, and does not read NULL. */
  lemma ProcessKeepsMaster(v: View, p: Packet)
    requires Agree(v) && KnowsMaster(v) && p.hdr.sender != v.me
    ensures KnowsMaster(Process(v, p)) && !ReadsNull(v, p)
  {
    hide Agree, OnPing, OnUpdate, PingReadsNull, UpdateReadsNull;
    if p.hdr.sender in v.nodes {
      SeeEpochsAgrees(v, p.hdr);
      var w := SeeEpochs(v, p.hdr);
      match p
      case Ping(hdr) => PingKeepsMaster(w, hdr);
      case Update(_, about, epoch, claimed) => AboutKeepsMaster(w, about, epoch, claimed);
      case Other(_) =>
    }
  }

  lemma PingKeepsMaster(v: View, hdr: Header)
    requires Agree(v) && KnowsMaster(v) && hdr.sender in v.nodes && hdr.sender != v.me
    ensures KnowsMaster(OnPing(v, hdr)) && !PingReadsNull(v, hdr)
  {
    hide Agree, RoleSwitch, UpdateSlots;
    AgreeSized(v);
    RoleSwitchAgrees(v, hdr);
    RoleSwitchOther(v, hdr);
    var w := RoleSwitch(v, hdr);
    AgreeSized(w);
    UpdateKeepsMaster(w, hdr.sender, hdr.configEpoch, hdr.slots);
  }

  lemma AboutKeepsMaster(v: View, about: Id, epoch: nat, claimed: Bitmap)
    requires Agree(v) && KnowsMaster(v)
    ensures KnowsMaster(OnUpdate(v, about, epoch, claimed)) && !UpdateReadsNull(v, about, epoch, claimed)
  {
    hide Agree, UpdateSlots;
    if about in v.nodes && v.nodes[about].configEpoch < epoch {
      var w := SetNodeAsMaster(v, about);
      WithNodeAgrees(v, about, v.nodes[about].(master := true, slaveof := None));
      WithNodeAgrees(w, about, w.nodes[about].(configEpoch := epoch));
      var u := WithNode(w, about, w.nodes[about].(configEpoch := epoch));
      AgreeSized(u);
      UpdateKeepsMaster(u, about, epoch, claimed);
    }
  }

  // ---------- local operations ----------

  lemma ReplaceKeepsMaster(v: View)
    requires Agree(v) && Sized(v) && KnowsMaster(v)
    ensures KnowsMaster(ReplaceMaster(v))
  {
    hide Agree, ReplaceMaster;
    ReplaceMasterRole(v);
    ReplaceMasterEffect(v);
  }

  lemma LocalKeepsMaster(v: View, op: LocalOp)
    requires Sound(v) && Sized(v) && KnowsMaster(v)
    ensures KnowsMaster(ApplyLocal(v, op))
  {
    hide Sound, ApplyLocal, ReplicateNode, ForgetNode;
    LocalSound(v, op);
    match op
    case Replicate(n, keys) => ReplicateRoles(v, n, keys); IsReplicate(v, op);
    case Takeover => TakeoverRoles(v);
    case Forget(n) => ForgetRoles(v, n); IsForget(v, op);
    case _ => OtherRoles(v, op);
  }

  // ---------- whole runs ----------

  /** What a node promises about its own entry. */
  datatype Promise = MasterKnown | SlaveBare

  ghost predicate Keeps(v: View, p: Promise) {
    match p
    case MasterKnown => KnowsMaster(v)
    case SlaveBare => Bare(v)
  }

  /** Every node keeps the promise, and configuration packets come from other nodes. */
  ghost predicate AllKeep(c: Cluster, p: Promise) {
    && (forall n | n in c.servers :: Keeps(c.servers[n].view, p))
    && (forall m | m in c.net && m.body.Config? :: m.body.packet.hdr.sender != m.to)
  }

  /** For slaves without slots, ADDSLOTS does not give a slave a slot. */
  ghost predicate Sensible(c: Cluster, step: Step, p: Promise) {
    p.SlaveBare? && step.Local? && step.node in c.servers && Sized(c.servers[step.node].view) ==>
      !SlotToSlave(c.servers[step.node].view, step.op)
  }

  lemma ProcessKeeps(v: View, packet: Packet, p: Promise)
    requires Agree(v) && Keeps(v, p) && packet.hdr.sender != v.me
    ensures Keeps(Process(v, packet), p)
  {
    hide Agree, Process, Bare, KnowsMaster;
    match p
    case MasterKnown => ProcessKeepsMaster(v, packet);
    case SlaveBare => ProcessKeepsBare(v, packet);
  }

  lemma LocalKeeps(v: View, op: LocalOp, p: Promise)
    requires Sound(v) && Sized(v) && Keeps(v, p) && (p.SlaveBare? ==> !SlotToSlave(v, op))
    ensures Keeps(ApplyLocal(v, op), p)
  {
    hide Sound, ApplyLocal, Bare, KnowsMaster;
    match p
    case MasterKnown => LocalKeepsMaster(v, op);
    case SlaveBare => LocalKeepsBare(v, op);
  }

  /** One node changes, and what is new in flight is no configuration packet. */
  lemma OneNodeKeeps(c: Cluster, d: Cluster, n: Id, p: Promise)
    requires AllKeep(c, p) && n in d.servers && d.servers == c.servers[n := d.servers[n]]
    requires Keeps(d.servers[n].view, p)
    requires forall m | m in d.net && m.body.Config? :: m in c.net
    ensures AllKeep(d, p)
  {
    hide Keeps;
  }

  lemma OneKeeps(c: Cluster, n: Id, p: Promise)
    requires AllKeep(c, p) && n in c.servers
    ensures Keeps(c.servers[n].view, p)
  {
  }

  lemma ReceiveKeepsAll(c: Cluster, m: Msg, electorate: nat -> set<Id>, p: Promise)
    requires Typed(c) && Enabled(c, Receive(m), electorate) && AllKeep(c, p)
    ensures AllKeep(Apply(c, Receive(m), electorate), p)
  {
    hide Process, Sound, Sized, Keeps;
    SoundAgrees(c.servers[m.to].view);
    ProcessKeeps(c.servers[m.to].view, m.body.packet, p);
  }

  lemma VoteKeepsAll(c: Cluster, step: Step, electorate: nat -> set<Id>, p: Promise)
    requires Typed(c) && Enabled(c, step, electorate) && AllKeep(c, p)
    requires step.ReceiveRequest? || step.ReceiveAck?
    ensures AllKeep(Apply(c, step, electorate), p)
  {
    hide Votes, Sound, Sized, Keeps, AllKeep, See, BuildHdr;
    var n := step.m.to;
    OneKeeps(c, n, p);
    SeeKeepsRole(c.servers[n], step.m.body.hdr, p);
    OneNodeKeeps(c, Apply(c, step, electorate), n, p);
  }

  lemma NodeKeepsAll(c: Cluster, step: Step, electorate: nat -> set<Id>, p: Promise)
    requires Typed(c) && Enabled(c, step, electorate) && AllKeep(c, p) && Sensible(c, step, p)
    requires step.Local? || step.Win? || step.StartElection? || step.Schedule?
    ensures AllKeep(Apply(c, step, electorate), p)
  {
    hide ApplyLocal, ReplaceMaster, Sound, Sized, Keeps, AllKeep, BuildHdr;
    var n := step.node;
    OneKeeps(c, n, p);
    match step {
      case Local(_, op) => LocalKeeps(c.servers[n].view, op, p);
      case Win(_, _) => WinKeepsRole(c.servers[n], p);
      case StartElection(_, _, _, _) => EpochKeepsRole(c.servers[n].view, c.servers[n].view.currentEpoch + 1, p);
      case Schedule(_) =>
    }
    OneNodeKeeps(c, Apply(c, step, electorate), n, p);
  }

  lemma SendKeepsAll(c: Cluster, step: Step, electorate: nat -> set<Id>, p: Promise)
    requires Typed(c) && Enabled(c, step, electorate) && AllKeep(c, p)
    requires step.SendPing? || step.SendUpdate? || step.Lose?
    ensures AllKeep(Apply(c, step, electorate), p)
  {
    hide Keeps, Sound, Sized;
    if !step.Lose? { assert c.servers[step.from].view.me == step.from; }
  }

  lemma StepKeepsAll(c: Cluster, step: Step, electorate: nat -> set<Id>, p: Promise)
    requires Typed(c) && Enabled(c, step, electorate) && AllKeep(c, p) && Sensible(c, step, p)
    ensures AllKeep(Apply(c, step, electorate), p)
  {
    hide AllKeep, Typed, Apply, Enabled, Sensible;
    match step
    case Receive(m) => ReceiveKeepsAll(c, m, electorate, p);
    case ReceiveRequest(_, _, _, _) => VoteKeepsAll(c, step, electorate, p);
    case ReceiveAck(_) => VoteKeepsAll(c, step, electorate, p);
    case SendPing(_, _, _) => SendKeepsAll(c, step, electorate, p);
    case SendUpdate(_, _, _, _) => SendKeepsAll(c, step, electorate, p);
    case Lose(_) => SendKeepsAll(c, step, electorate, p);
    case _ => NodeKeepsAll(c, step, electorate, p);
  }

  lemma SeeKeepsRole(s: Server, hdr: Header, p: Promise)
    requires Keeps(s.view, p)
    ensures Keeps(See(s, hdr).view, p)
  {
  }

  lemma EpochKeepsRole(v: View, e: nat, p: Promise)
    requires Keeps(v, p)
    ensures Keeps(AtEpoch(v, e), p)
  {
  }

  lemma WinKeepsRole(s: Server, p: Promise)
    requires Sound(s.view) && Sized(s.view) && Keeps(s.view, p)
    ensures var x := s.view.nodes[s.view.me];
            var w := if x.configEpoch < s.authEpoch then WithNode(s.view, s.view.me, x.(configEpoch := s.authEpoch)) else s.view;
            Sized(w) && Keeps(ReplaceMaster(w), p)
  {
    hide Agree, ReplaceMaster;
    var x := s.view.nodes[s.view.me];
    WithNodeAgrees(s.view, s.view.me, x.(configEpoch := s.authEpoch));
    var w := if x.configEpoch < s.authEpoch then WithNode(s.view, s.view.me, x.(configEpoch := s.authEpoch)) else s.view;
    match p
    case MasterKnown => ReplaceKeepsMaster(w);
    case SlaveBare => ReplaceKeepsBare(w);
  }

  lemma {:induction false} RunKeeps(cs: seq<Cluster>, steps: seq<Step>, electorate: nat -> set<Id>, p: Promise, i: nat)
    requires Run(cs, steps, electorate) && i <= |steps|
    requires forall n | n in cs[0].servers :: Keeps(cs[0].servers[n].view, p)
    requires forall j | 0 <= j < i :: Sensible(cs[j], steps[j], p)
    ensures AllKeep(cs[i], p)
  {
    hide Inv, Typed, Apply, Enabled, Keeps, Sensible;
    if i > 0 {
      RunKeeps(cs, steps, electorate, p, i - 1);
      RunInv(cs, steps, electorate, i - 1);
      assert Enabled(cs[i - 1], steps[i - 1], electorate);
      StepKeepsAll(cs[i - 1], steps[i - 1], electorate, p);
    }
  }

  /** In a run that starts with every master known, no packet that is received reads through NULL. */
  lemma NullNeverRead(cs: seq<Cluster>, steps: seq<Step>, electorate: nat -> set<Id>, i: nat)
    requires Run(cs, steps, electorate) && i < |steps| && steps[i].Receive?
    requires forall n | n in cs[0].servers :: KnowsMaster(cs[0].servers[n].view)
    ensures var m := steps[i].m;
            m.to in cs[i].servers && Agree(cs[i].servers[m.to].view) && m.body.Config? &&
            !ReadsNull(cs[i].servers[m.to].view, m.body.packet)
  {
    hide Inv, Apply, KnowsMaster, ReadsNull, Sound, Sized;
    assert Enabled(cs[i], steps[i], electorate);
    RunKeeps(cs, steps, electorate, MasterKnown, i);
    RunInv(cs, steps, electorate, i);
    var m := steps[i].m;
    SoundAgrees(cs[i].servers[m.to].view);
    OneKeeps(cs[i], m.to, MasterKnown);
    ProcessKeepsMaster(cs[i].servers[m.to].view, m.body.packet);
  }

  /**
   In a run that starts with slaves that own no slot, and in which ADDSLOTS gives no slave a slot, slaves own no slot,
   and neither a packet nor REPLICATE fails the assertion that a node about to become a slave has no slots.
   */
  lemma SetMasterNeverFails(cs: seq<Cluster>, steps: seq<Step>, electorate: nat -> set<Id>, i: nat)
    requires Run(cs, steps, electorate) && i < |steps|
    requires forall n | n in cs[0].servers :: Bare(cs[0].servers[n].view)
    requires forall j | 0 <= j < |steps| :: Sensible(cs[j], steps[j], SlaveBare)
    ensures forall n | n in cs[i].servers :: Bare(cs[i].servers[n].view)
    ensures steps[i].Receive? ==>
              var m := steps[i].m;
              m.to in cs[i].servers && Agree(cs[i].servers[m.to].view) && m.body.Config? &&
              PacketAsserts(cs[i].servers[m.to].view, m.body.packet)
    ensures steps[i].Local? && steps[i].op.Replicate? ==>
              steps[i].node in cs[i].servers &&
              var v, op := cs[i].servers[steps[i].node].view, steps[i].op;
              v.me in v.nodes && (ReplicateNode(v, op.node, op.keys) != v ==> v.nodes[v.me].numslots == 0)
  {
    hide Inv, Apply, Bare, PacketAsserts, Sound, Sized, ReplicateNode, Sensible;
    assert Enabled(cs[i], steps[i], electorate);
    RunKeeps(cs, steps, electorate, SlaveBare, i);
    RunInv(cs, steps, electorate, i);
    forall n | n in cs[i].servers ensures Bare(cs[i].servers[n].view) { OneKeeps(cs[i], n, SlaveBare); }
    match steps[i] {
      case Receive(m) =>
        SoundAgrees(cs[i].servers[m.to].view);
        ProcessKeepsBare(cs[i].servers[m.to].view, m.body.packet);
      case Local(n, op) =>
        var v := cs[i].servers[n].view;
        SoundAgrees(v);
        BareSized(v);
        if op.Replicate? { ReplicateKeepsBare(v, op.node, op.keys); }
      case _ =>
    }
  }

  lemma BareSized(v: View)
    requires Bare(v)
    ensures v.me in v.nodes
  {
  }

  // ---------- a configuration file that flags this node a slave and names no master ----------

  function LoadedView(): View {
    View(0, 1, map[0 := Node(0, false, None, NoSlots(), 0), 1 := NewNode()],
         seq(SLOTS, _ => None), seq(SLOTS, _ => None), seq(SLOTS, _ => None))
  }

  function FirstClaim(): Packet {
    Ping(Header(1, 1, 1, OneSlot(), None))
  }

  /** Loaded so, the node reads through NULL on the first claim of a slot by another master. */
  lemma LoadedSlaveReadsNull()
    ensures Agree(LoadedView()) && !KnowsMaster(LoadedView()) && ReadsNull(LoadedView(), FirstClaim())
  {
    hide TestBit, SetBit, CountBits, NoSlots, RoleSwitch, ReadsNullMaster;
    var v, hdr := LoadedView(), FirstClaim().hdr;
    NoBits(SLOTS);
    var w := SeeEpochs(v, hdr);
    SeeEpochsAgrees(v, hdr);
    ClaimIsNews(w);
    BitAfterSet(NoSlots(), 0, 0);
    NullMasterIff(w, 1, 1, OneSlot());
  }

  lemma ClaimIsNews(w: View)
    requires Agree(w) && 1 in w.nodes && w.nodes[1].master && w.nodes[1].slots == NoSlots()
    ensures var hdr := FirstClaim().hdr;
            RoleSwitch(w, hdr) == w && DirtySlots(w, hdr)
  {
    hide TestBit, SetBit;
    NoBits(1);
    BitAfterSet(NoSlots(), 0, 0);
  }
}
