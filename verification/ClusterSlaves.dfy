/** A slave owns no slot in its own view, so that the assertions of `clusterSetMaster` never fail. */
module ClusterSlaves {
  import opened Common
  import opened ClusterModel
  import opened ClusterPackets
  import opened ClusterOps
  import opened ClusterEffects
  import opened ClusterCommands

  ghost predicate Bare(v: View) {
    && Sized(v)
    && (v.nodes[v.me].master || forall j | 0 <= j < SLOTS :: v.slots[j] != Some(v.me))
  }

  // ---------- packets ----------

  /** Whether the update, if it comes to `clusterSetMaster`, finds this node without slots. */
  ghost predicate UpdateAsserts(v: View, s: Id, epoch: nat, claimed: Bitmap)
    requires Sized(v) && s in v.nodes
  {
    var cur := CurMaster(v);
    var (w, newmaster) := Rebind(v, s, epoch, claimed, cur, false);
    s != v.me && newmaster && cur.Some? && cur.value in w.nodes && w.nodes[cur.value].numslots == 0 ==>
      w.me in w.nodes && w.nodes[w.me].numslots == 0
  }

  lemma UpdateKeepsBare(v: View, s: Id, epoch: nat, claimed: Bitmap)
    requires Agree(v) && s in v.nodes && Bare(v)
    ensures UpdateAsserts(v, s, epoch, claimed) && Bare(UpdateSlots(v, s, epoch, claimed))
  {
    hide Agree, Rebind, Rebinds;
    if s != v.me {
      var cur := CurMaster(v);
      RebindEffect(v, s, epoch, claimed, cur, false, 0);
      var w := Rebind(v, s, epoch, claimed, cur, false).0;
      AgreeSized(w);
      NoSlotsIff(w, w.me);
    }
  }

  /** It fails exactly when the update takes the last slot of this node's master and leaves this node with one. */
  lemma UpdateAssertsIff(v: View, s: Id, epoch: nat, claimed: Bitmap)
    requires Agree(v) && s in v.nodes
    ensures var w := UpdateSlots(v, s, epoch, claimed);
            && Sized(v) && Sized(w)
            && (UpdateAsserts(v, s, epoch, claimed) <==>
                (Falls(v, w) ==> forall j | 0 <= j < SLOTS :: w.slots[j] != Some(v.me)))
  {
    hide Agree, Rebind, TestBit;
    UpdateSlotsEffect(v, s, epoch, claimed);
    AgreeSized(v);
    AgreeSized(UpdateSlots(v, s, epoch, claimed));
    if s != v.me {
      var cur := CurMaster(v);
      RebindEffect(v, s, epoch, claimed, cur, false, 0);
      var w := Rebind(v, s, epoch, claimed, cur, false).0;
      AgreeSized(w);
      LosesIff(v, w, s, epoch, claimed);
      NoSlotsIff(w, v.me);
      if cur.Some? && cur.value in w.nodes { NoSlotsIff(w, cur.value); }
    }
  }

  ghost predicate PingAsserts(v: View, hdr: Header)
    requires Agree(v) && hdr.sender in v.nodes
  {
    RoleSwitchAgrees(v, hdr);
    var w := RoleSwitch(v, hdr);
    w.nodes[hdr.sender].master && DirtySlots(w, hdr) ==> UpdateAsserts(w, hdr.sender, hdr.configEpoch, hdr.slots)
  }

  lemma PingKeepsBare(v: View, hdr: Header)
    requires Agree(v) && Bare(v) && hdr.sender in v.nodes && hdr.sender != v.me
    ensures PingAsserts(v, hdr) && Bare(OnPing(v, hdr))
  {
    hide Agree, RoleSwitch, UpdateSlots, UpdateAsserts;
    RoleSwitchAgrees(v, hdr);
    RoleSwitchEffect(v, hdr);
    RoleSwitchOther(v, hdr);
    var w := RoleSwitch(v, hdr);
    AgreeSized(w);
    UpdateKeepsBare(w, hdr.sender, hdr.configEpoch, hdr.slots);
  }

  /** This node's own entry keeps its role. */
  ghost predicate OwnRole(v: View, w: View) {
    w.me == v.me && SameRole(v, w, v.me)
  }

  lemma RoleSwitchOther(v: View, hdr: Header)
    requires Agree(v) && hdr.sender in v.nodes && hdr.sender != v.me
    ensures OwnRole(v, RoleSwitch(v, hdr))
  {
    hide Agree, DelNodeSlots;
    AgreeSized(v);
    RoleSwitchEffect(v, hdr);
    RoleSwitchRoles(v, hdr);
  }

  ghost predicate AboutAsserts(v: View, about: Id, epoch: nat, claimed: Bitmap)
    requires Agree(v)
  {
    about in v.nodes && v.nodes[about].configEpoch < epoch ==>
      var w := SetNodeAsMaster(v, about);
      UpdateAsserts(WithNode(w, about, w.nodes[about].(configEpoch := epoch)), about, epoch, claimed)
  }

  lemma AboutKeepsBare(v: View, about: Id, epoch: nat, claimed: Bitmap)
    requires Agree(v) && Bare(v)
    ensures AboutAsserts(v, about, epoch, claimed) && Bare(OnUpdate(v, about, epoch, claimed))
  {
    hide Agree, UpdateSlots, UpdateAsserts;
    if about in v.nodes && v.nodes[about].configEpoch < epoch {
      var w := SetNodeAsMaster(v, about);
      WithNodeAgrees(v, about, v.nodes[about].(master := true, slaveof := None));
      WithNodeAgrees(w, about, w.nodes[about].(configEpoch := epoch));
      UpdateKeepsBare(WithNode(w, about, w.nodes[about].(configEpoch := epoch)), about, epoch, claimed);
    }
  }

  /** Whether `clusterSetMaster`, if processing the packet calls it, finds this node without slots. */
  ghost predicate PacketAsserts(v: View, p: Packet)
    requires Agree(v)
  {
    p.hdr.sender in v.nodes ==>
      var w := SeeEpochs(v, p.hdr);
      SeeEpochsAgrees(v, p.hdr);
      match p
      case Ping(hdr) => PingAsserts(w, hdr)
      case Update(_, about, epoch, claimed) => AboutAsserts(w, about, epoch, claimed)
      case Other(_) => true
  }

  lemma ProcessKeepsBare(v: View, p: Packet)
    requires Agree(v) && Bare(v) && p.hdr.sender != v.me
    ensures PacketAsserts(v, p) && Bare(Process(v, p))
  {
    hide Agree, OnPing, OnUpdate, PingAsserts, AboutAsserts;
    if p.hdr.sender in v.nodes {
      SeeEpochsAgrees(v, p.hdr);
      var w := SeeEpochs(v, p.hdr);
      AgreeSized(w);
      match p
      case Ping(hdr) => PingKeepsBare(w, hdr);
      case Update(_, about, epoch, claimed) => AboutKeepsBare(w, about, epoch, claimed);
      case Other(_) =>
    }
  }

  // ---------- local operations ----------

  /** For a PING from a master, the same condition on the views before and after. */
  lemma PingAssertsIff(v: View, hdr: Header)
    requires Agree(v) && hdr.sender in v.nodes && hdr.slaveof.None? && hdr.sender != v.me
    ensures var w := Process(v, Ping(hdr));
            && Sized(v) && Sized(w)
            && (PacketAsserts(v, Ping(hdr)) <==>
                (Falls(v, w) ==> forall j | 0 <= j < SLOTS :: w.slots[j] != Some(v.me)))
  {
    hide Agree, TestBit, RoleSwitch, UpdateSlots, UpdateAsserts, DirtySlots, Process;
    var s, u := hdr.sender, SeeEpochs(v, hdr);
    SeeEpochsAgrees(v, hdr);
    SeeEpochsExact(v, hdr);
    PingFromMaster(v, hdr);
    RoleSwitchEffect(u, hdr);
    RoleSwitchRoles(u, hdr);
    MasterPingSlots(u, hdr);
    var w := RoleSwitch(u, hdr);
    assert w.slots == v.slots && SameRole(v, w, v.me);
    SameOwners(v, Process(v, Ping(hdr)), MasterPing(u, hdr), u, hdr);
    if DirtySlots(w, hdr) { UpdateAssertsIff(w, s, hdr.configEpoch, hdr.slots); }
  }

  /** The collision that follows moves no slot. */
  lemma SameOwners(v: View, w: View, x: View, u: View, hdr: Header)
    requires Sized(v) && Sized(w) && Sized(x) && Sized(u) && hdr.sender in v.nodes && u == SeeEpochs(v, hdr)
    requires SlotsGo(v, w, hdr.sender, hdr.configEpoch, hdr.slots) && SlotsGo(u, x, hdr.sender, hdr.configEpoch, hdr.slots)
    ensures w.slots == x.slots
  {
    hide TestBit;
    SeeEpochsExact(v, hdr);
    forall j | 0 <= j < SLOTS ensures w.slots[j] == x.slots[j] {
      assert Goes(u, hdr.sender, hdr.configEpoch, hdr.slots, j) == Goes(v, hdr.sender, hdr.configEpoch, hdr.slots, j);
    }
  }

  /** CLUSTER REPLICATE that is not refused finds this node without slots. */
  lemma ReplicateKeepsBare(v: View, n: Id, keys: bool)
    requires Agree(v) && Bare(v)
    ensures Bare(ReplicateNode(v, n, keys)) && (ReplicateNode(v, n, keys) != v ==> v.nodes[v.me].numslots == 0)
  {
    hide Agree;
    NoSlotsIff(v, v.me);
  }

  lemma ReplaceKeepsBare(v: View)
    requires Agree(v) && Bare(v)
    ensures Bare(ReplaceMaster(v))
  {
    hide Agree, ReplaceMaster;
    ReplaceMasterEffect(v);
    ReplaceMasterRole(v);
  }

  /** ADDSLOTS of a free slot, sent to a slave, which the source does not refuse. */
  ghost predicate SlotToSlave(v: View, op: LocalOp)
    requires Sized(v)
  {
    op.AddSlotToMe? && op.slot < SLOTS && v.slots[op.slot].None? && !v.nodes[v.me].master
  }

  /** That is the only operation that gives a slave a slot. */
  lemma LocalKeepsBare(v: View, op: LocalOp)
    requires Sound(v) && Bare(v)
    ensures Bare(ApplyLocal(v, op)) <==> !SlotToSlave(v, op)
  {
    hide Agree, Dominated, ApplyLocal, ReplicateNode, ForgetNode;
    LocalSound(v, op);
    LocalSlots(v, op);
    match op
    case Replicate(n, keys) => ReplicateKeepsBare(v, n, keys); IsReplicate(v, op);
    case Takeover => TakeoverRoles(v);
    case Forget(n) => ForgetRoles(v, n); IsForget(v, op);
    case AddSlotToMe(j) =>
      OtherRoles(v, op);
      if SlotToSlave(v, op) { assert ApplyLocal(v, op).slots[j] == Some(v.me); }
    case _ => OtherRoles(v, op);
  }

  lemma IsReplicate(v: View, op: LocalOp)
    requires Sized(v) && op.Replicate?
    ensures ApplyLocal(v, op) == ReplicateNode(v, op.node, op.keys)
  {
    hide ReplicateNode, ForgetNode, ReplaceMaster, Bump, SetSlot, AddSlot, DelSlot, DelNodeSlots, AssignEpoch;
  }

  lemma IsForget(v: View, op: LocalOp)
    requires Sized(v) && op.Forget?
    ensures ApplyLocal(v, op) == ForgetNode(v, op.node)
  {
    hide ReplicateNode, ForgetNode, ReplaceMaster, Bump, SetSlot, AddSlot, DelSlot, DelNodeSlots, AssignEpoch;
  }

  /** After it, CLUSTER REPLICATE is not refused and `clusterSetMaster` finds a slot. */
  lemma SlotToSlaveFails(v: View, op: LocalOp, n: Id, keys: bool)
    requires Sound(v) && Bare(v) && SlotToSlave(v, op) && n in v.nodes && n != v.me && v.nodes[n].master
    ensures var w := ApplyLocal(v, op);
            w.me in w.nodes && ReplicateNode(w, n, keys) == SetMaster(w, n) && w.nodes[w.me].numslots == 1
  {
    hide Agree, TestBit, SetBit, CountBits, SetMaster;
    NoSlotsIff(v, v.me);
    AgreeAt(v, v.me, op.slot);
  }

  function SlaveView(): View {
    View(0, 1, map[0 := Node(0, false, Some(1), NoSlots(), 0), 1 := NewNode()],
         seq(SLOTS, _ => None), seq(SLOTS, _ => None), seq(SLOTS, _ => None))
  }

  lemma SlaveWithSlotFails(keys: bool)
    ensures Sound(SlaveView()) && Bare(SlaveView())
    ensures var w := ApplyLocal(SlaveView(), AddSlotToMe(0));
            w.me in w.nodes && ReplicateNode(w, 1, keys) == SetMaster(w, 1) && w.nodes[w.me].numslots == 1
  {
    hide TestBit, CountBits, NoSlots, ApplyLocal, SetMaster, ReplicateNode;
    NoBits(SLOTS);
    SlotToSlaveFails(SlaveView(), AddSlotToMe(0), 1, keys);
  }
}
