/**
 Packet processing of cluster.c: epochs, roles, slot rebinding and collisions, as functions of one
 node's view.  Handshakes are complete: every node in the table is known by its final name.
 */
module ClusterPackets {
  import opened Common
  import opened ClusterModel

  datatype Header = Header(sender: Id, currentEpoch: nat, configEpoch: nat, slots: Bitmap, slaveof: Option<Id>)

  /** PING, PONG and MEET carry the header only; UPDATE reports a third node; the rest only move epochs. */
  datatype Packet =
    | Ping(hdr: Header)
    | Update(hdr: Header, about: Id, epoch: nat, claimed: Bitmap)
    | Other(hdr: Header)

  function WithNode(v: View, n: Id, x: Node): View {
    v.(nodes := v.nodes[n := x])
  }

  /** The epoch updates made for every packet of a known sender. */
  function SeeEpochs(v: View, hdr: Header): View
    requires hdr.sender in v.nodes
  {
    var x := v.nodes[hdr.sender];
    var w := if hdr.currentEpoch > v.currentEpoch then v.(currentEpoch := hdr.currentEpoch) else v;
    if hdr.configEpoch > x.configEpoch then WithNode(w, hdr.sender, x.(configEpoch := hdr.configEpoch)) else w
  }

  function SetNodeAsMaster(v: View, n: Id): View
    requires n in v.nodes
  {
    if v.nodes[n].master then v else WithNode(v, n, v.nodes[n].(master := true, slaveof := None))
  }

  /** A master that announces a master of its own loses its slots. */
  function Demote(v: View, n: Id): View
    requires n in v.nodes && |v.slots| == SLOTS
  {
    var w := DelNodeSlots(v, n);
    if n in w.nodes then WithNode(w, n, w.nodes[n].(master := false)) else w
  }

  function RoleSwitch(v: View, hdr: Header): View
    requires hdr.sender in v.nodes && |v.slots| == SLOTS
  {
    var s := hdr.sender;
    if hdr.slaveof.None? then SetNodeAsMaster(v, s)
    else
      var w := if v.nodes[s].master then Demote(v, s) else v;
      if hdr.slaveof.value in w.nodes && s in w.nodes && w.nodes[s].slaveof != hdr.slaveof
      then WithNode(w, s, w.nodes[s].(slaveof := hdr.slaveof))
      else w
  }

  /** Whether the slots the sender's side claims differ from what this node has for it. */
  predicate DirtySlots(v: View, hdr: Header)
    requires hdr.sender in v.nodes
  {
    var m := if v.nodes[hdr.sender].master then Some(hdr.sender) else v.nodes[hdr.sender].slaveof;
    m.Some? && m.value in v.nodes && v.nodes[m.value].slots != hdr.slots
  }

  /** `clusterHandleConfigEpochCollision`. */
  function HandleCollision(v: View, s: Id): View
    requires s in v.nodes && v.me in v.nodes
  {
    if v.nodes[s].configEpoch != v.nodes[v.me].configEpoch || !v.nodes[s].master || !v.nodes[v.me].master then v
    else if s <= v.me then v
    else NewEpoch(v)
  }

  /** `currentEpoch++; myself->configEpoch = currentEpoch;` */
  function NewEpoch(v: View): View
    requires v.me in v.nodes
  {
    WithNode(v, v.me, v.nodes[v.me].(configEpoch := v.currentEpoch + 1)).(currentEpoch := v.currentEpoch + 1)
  }

  /** The configuration part of PING, PONG and MEET, after the epoch updates. */
  ghost function OnPing(v: View, hdr: Header): View
    requires Agree(v) && hdr.sender in v.nodes
  {
    var s := hdr.sender;
    RoleSwitchAgrees(v, hdr);
    var w := RoleSwitch(v, hdr);
    var u := if w.nodes[s].master && DirtySlots(w, hdr)
             then UpdateSlots(w, s, hdr.configEpoch, hdr.slots) else w;
    if u.me in u.nodes && s in u.nodes && u.nodes[u.me].master && u.nodes[s].master &&
       hdr.configEpoch == u.nodes[u.me].configEpoch
    then HandleCollision(u, s)
    else u
  }

  ghost function OnUpdate(v: View, about: Id, epoch: nat, claimed: Bitmap): View
    requires Agree(v)
  {
    if about !in v.nodes || v.nodes[about].configEpoch >= epoch then v
    else
      var w := SetNodeAsMaster(v, about);
      var u := WithNode(w, about, w.nodes[about].(configEpoch := epoch));
      UpdateSlots(u, about, epoch, claimed)
  }

  /** `clusterProcessPacket`. */
  ghost function Process(v: View, p: Packet): View
    requires Agree(v)
  {
    if p.hdr.sender !in v.nodes then v
    else
      var w := SeeEpochs(v, p.hdr);
      SeeEpochsAgrees(v, p.hdr);
      match p
      case Ping(hdr) => OnPing(w, hdr)
      case Update(_, about, epoch, claimed) => OnUpdate(w, about, epoch, claimed)
      case Other(_) => w
  }

  /** Whether processing the packet reads through a NULL current master on the way. */
  ghost predicate ReadsNull(v: View, p: Packet)
    requires Agree(v)
  {
    p.hdr.sender in v.nodes &&
    var w := SeeEpochs(v, p.hdr);
    SeeEpochsAgrees(v, p.hdr);
    match p
    case Ping(hdr) => PingReadsNull(w, hdr)
    case Update(_, about, epoch, claimed) => UpdateReadsNull(w, about, epoch, claimed)
    case Other(_) => false
  }

  ghost predicate PingReadsNull(v: View, hdr: Header)
    requires Agree(v) && hdr.sender in v.nodes
  {
    RoleSwitchAgrees(v, hdr);
    var w := RoleSwitch(v, hdr);
    w.nodes[hdr.sender].master && DirtySlots(w, hdr) && ReadsNullMaster(w, hdr.sender, hdr.configEpoch, hdr.slots)
  }

  ghost predicate UpdateReadsNull(v: View, about: Id, epoch: nat, claimed: Bitmap)
    requires Agree(v)
  {
    about in v.nodes && v.nodes[about].configEpoch < epoch &&
    var w := SetNodeAsMaster(v, about);
    ReadsNullMaster(WithNode(w, about, w.nodes[about].(configEpoch := epoch)), about, epoch, claimed)
  }

  // ---------- the slot table stays in step with the bitmaps ----------

  /** Changing a node's epoch or role leaves its bitmap alone. */
  lemma WithNodeAgrees(v: View, n: Id, x: Node)
    requires Agree(v) && n in v.nodes
    requires x.slots == v.nodes[n].slots && x.numslots == v.nodes[n].numslots
    ensures Agree(WithNode(v, n, x))
  {
    hide TestBit, CountBits;
  }

  lemma SeeEpochsAgrees(v: View, hdr: Header)
    requires Agree(v) && hdr.sender in v.nodes
    ensures Agree(SeeEpochs(v, hdr)) && SeeEpochs(v, hdr).nodes.Keys == v.nodes.Keys
  {
    hide TestBit, CountBits;
    var x := v.nodes[hdr.sender];
    WithNodeAgrees(v, hdr.sender, x.(configEpoch := hdr.configEpoch));
  }

  lemma RoleSwitchAgrees(v: View, hdr: Header)
    requires Agree(v) && hdr.sender in v.nodes
    ensures Agree(RoleSwitch(v, hdr)) && RoleSwitch(v, hdr).nodes.Keys == v.nodes.Keys
  {
    hide TestBit, CountBits, DelNodeSlots, Agree;
    AgreeSized(v);
    var s := hdr.sender;
    if hdr.slaveof.None? {
      WithNodeAgrees(v, s, v.nodes[s].(master := true, slaveof := None));
    } else {
      var w := v;
      if v.nodes[s].master {
        DelNodeSlotsEffect(v, s, 0);
        var d := DelNodeSlots(v, s);
        WithNodeAgrees(d, s, d.nodes[s].(master := false));
        w := Demote(v, s);
      }
      WithNodeAgrees(w, s, w.nodes[s].(slaveof := hdr.slaveof));
    }
  }

  /** Roles and slots change, epochs do not. */
  ghost predicate SameEpochs(v: View, w: View) {
    && w.me == v.me && w.currentEpoch == v.currentEpoch && w.nodes.Keys == v.nodes.Keys
    && forall n | n in v.nodes :: w.nodes[n].configEpoch == v.nodes[n].configEpoch
  }

  lemma RoleSwitchEffect(v: View, hdr: Header)
    requires Agree(v) && hdr.sender in v.nodes
    ensures var w := RoleSwitch(v, hdr);
            && Agree(w) && SameEpochs(v, w) && w.importing == v.importing
            && forall j | 0 <= j < SLOTS :: w.slots[j] == v.slots[j] || w.slots[j].None?
  {
    hide TestBit, CountBits, DelNodeSlots, Agree;
    AgreeSized(v);
    RoleSwitchAgrees(v, hdr);
    if v.nodes[hdr.sender].master { DelNodeSlotsEffect(v, hdr.sender, 0); }
  }

  lemma UpdateSlotsEffect(v: View, s: Id, epoch: nat, claimed: Bitmap)
    requires Agree(v) && s in v.nodes
    ensures var w := UpdateSlots(v, s, epoch, claimed);
            && Agree(w) && SameEpochs(v, w)
            && forall j | 0 <= j < SLOTS ::
                 w.slots[j] == if s != v.me && Rebinds(v, s, epoch, claimed, j) then Some(s) else v.slots[j]
  {
    hide TestBit, CountBits, Rebind, Agree, Rebinds;
    AgreeSized(v);
    if s != v.me {
      RebindEffect(v, s, epoch, claimed, CurMaster(v), false, 0);
      var w := Rebind(v, s, epoch, claimed, CurMaster(v), false).0;
      AgreeSized(w);
      SetMasterAgrees(w, s);
    }
  }

  lemma SetMasterAgrees(v: View, n: Id)
    requires Agree(v)
    ensures Agree(SetMaster(v, n))
  {
    hide TestBit, CountBits;
    WithNodeAgrees(v, v.me, v.nodes[v.me].(master := false, slaveof := Some(n)));
  }

  // ---------- epoch dominance and slot progress, for one packet ----------

  /** No node is known with a configuration epoch above the current epoch. */
  ghost predicate Dominated(v: View) {
    forall n | n in v.nodes :: v.nodes[n].configEpoch <= v.currentEpoch
  }

  ghost predicate PacketDominated(p: Packet) {
    p.hdr.configEpoch <= p.hdr.currentEpoch && (p.Update? ==> p.epoch <= p.hdr.currentEpoch)
  }

  ghost predicate EpochsGrow(v: View, w: View) {
    && w.currentEpoch >= v.currentEpoch && w.me == v.me && w.nodes.Keys == v.nodes.Keys
    && forall n | n in v.nodes :: w.nodes[n].configEpoch >= v.nodes[n].configEpoch
  }

  ghost function OwnerEpoch(v: View, j: nat): nat
    requires Sized(v) && j < SLOTS && v.slots[j].Some?
  {
    v.nodes[v.slots[j].value].configEpoch
  }

  /** A slot keeps its owner, loses it, or goes to an owner with a greater epoch, unless it is importing. */
  ghost predicate SlotStep(v: View, w: View, j: nat)
    requires Sized(v) && Sized(w) && j < SLOTS
  {
    || w.slots[j] == v.slots[j]
    || w.slots[j].None?
    || (v.importing[j].None? && (v.slots[j].None? || OwnerEpoch(w, j) > OwnerEpoch(v, j)))
  }

  ghost predicate Progress(v: View, w: View) {
    && Agree(w) && Dominated(w) && EpochsGrow(v, w)
    && (Sized(v) && Sized(w) ==> forall j | 0 <= j < SLOTS :: SlotStep(v, w, j))
  }

  lemma NewEpochProgress(v: View)
    requires Agree(v) && Dominated(v)
    ensures Progress(v, NewEpoch(v)) && NewEpoch(v).slots == v.slots
    ensures forall n | n in v.nodes :: NewEpoch(v).nodes[v.me].configEpoch > v.nodes[n].configEpoch
  {
    hide TestBit, CountBits;
    WithNodeAgrees(v, v.me, v.nodes[v.me].(configEpoch := v.currentEpoch + 1));
  }

  lemma RebindProgress(v: View, s: Id, epoch: nat, claimed: Bitmap)
    requires Agree(v) && Dominated(v) && s in v.nodes && v.nodes[s].configEpoch >= epoch
    ensures Progress(v, UpdateSlots(v, s, epoch, claimed))
  {
    hide TestBit, CountBits, Agree, UpdateSlots;
    AgreeSized(v);
    UpdateSlotsEffect(v, s, epoch, claimed);
    AgreeSized(UpdateSlots(v, s, epoch, claimed));
  }

  lemma OnUpdateProgress(v: View, about: Id, epoch: nat, claimed: Bitmap)
    requires Agree(v) && Dominated(v) && epoch <= v.currentEpoch
    ensures Progress(v, OnUpdate(v, about, epoch, claimed))
  {
    hide TestBit, CountBits, Agree, UpdateSlots;
    AgreeSized(v);
    if about in v.nodes && v.nodes[about].configEpoch < epoch {
      var w := SetNodeAsMaster(v, about);
      WithNodeAgrees(v, about, v.nodes[about].(master := true, slaveof := None));
      var u := WithNode(w, about, w.nodes[about].(configEpoch := epoch));
      WithNodeAgrees(w, about, w.nodes[about].(configEpoch := epoch));
      AgreeSized(u);
      RebindProgress(u, about, epoch, claimed);
      var z := UpdateSlots(u, about, epoch, claimed);
      AgreeSized(z);
      forall j | 0 <= j < SLOTS ensures SlotStep(v, z, j) { assert SlotStep(u, z, j); }
    }
  }

  lemma OnPingProgress(v: View, hdr: Header)
    requires Agree(v) && Dominated(v) && hdr.sender in v.nodes
    requires v.nodes[hdr.sender].configEpoch >= hdr.configEpoch
    ensures Progress(v, OnPing(v, hdr))
  {
    hide TestBit, CountBits, Agree, UpdateSlots, RoleSwitch, DirtySlots;
    AgreeSized(v);
    RoleSwitchEffect(v, hdr);
    var w := RoleSwitch(v, hdr);
    AgreeSized(w);
    var u := w;
    if w.nodes[hdr.sender].master && DirtySlots(w, hdr) {
      MasterKeepsSlots(v, hdr);
      RebindProgress(w, hdr.sender, hdr.configEpoch, hdr.slots);
      u := UpdateSlots(w, hdr.sender, hdr.configEpoch, hdr.slots);
    }
    AgreeSized(u);
    forall j | 0 <= j < SLOTS ensures SlotStep(v, u, j) {
      if u != w { assert SlotStep(w, u, j); }
    }
    NewEpochProgress(u);
    AgreeSized(NewEpoch(u));
    forall j | 0 <= j < SLOTS ensures SlotStep(v, NewEpoch(u), j) { assert SlotStep(v, u, j); }
  }

  /** A sender that is a master after the role switch lost no slot in it. */
  lemma MasterKeepsSlots(v: View, hdr: Header)
    requires Agree(v) && hdr.sender in v.nodes
    requires hdr.sender in RoleSwitch(v, hdr).nodes && RoleSwitch(v, hdr).nodes[hdr.sender].master
    ensures RoleSwitch(v, hdr).slots == v.slots
  {
    hide TestBit, CountBits, DelNodeSlots, Agree;
    AgreeSized(v);
    if v.nodes[hdr.sender].master { DelNodeSlotsEffect(v, hdr.sender, 0); }
  }

  /** One packet keeps the table in step, keeps epochs dominated, and moves slots only forward. */
  lemma ProcessProgress(v: View, p: Packet)
    requires Agree(v) && Dominated(v) && PacketDominated(p)
    ensures Progress(v, Process(v, p))
  {
    hide TestBit, CountBits, Agree, OnPing, OnUpdate;
    AgreeSized(v);
    if p.hdr.sender in v.nodes {
      SeeEpochsAgrees(v, p.hdr);
      var w := SeeEpochs(v, p.hdr);
      AgreeSized(w);
      assert Dominated(w) && EpochsGrow(v, w) && w.slots == v.slots && w.importing == v.importing;
      var z := Process(v, p);
      match p {
        case Ping(hdr) => OnPingProgress(w, hdr);
        case Update(_, about, epoch, claimed) => OnUpdateProgress(w, about, epoch, claimed);
        case Other(_) =>
      }
      AgreeSized(z);
      forall j | 0 <= j < SLOTS ensures SlotStep(v, z, j) { assert z == w || SlotStep(w, z, j); }
    }
  }

  // ---------- along any run of packets ----------

  ghost predicate PacketRun(vs: seq<View>, ps: seq<Packet>) {
    && |vs| == |ps| + 1 && Agree(vs[0]) && Dominated(vs[0])
    && (forall i | 0 <= i < |ps| :: PacketDominated(ps[i]))
    && forall i | 0 <= i < |ps| :: Agree(vs[i]) ==> vs[i + 1] == Process(vs[i], ps[i])
  }

  lemma {:induction false} RunKeeps(vs: seq<View>, ps: seq<Packet>, i: nat)
    requires PacketRun(vs, ps) && i <= |ps|
    ensures Agree(vs[i]) && Dominated(vs[i])
  {
    if i > 0 {
      RunKeeps(vs, ps, i - 1);
      ProcessProgress(vs[i - 1], ps[i - 1]);
    }
  }

  /** While a slot stays assigned, its owner's configuration epoch never decreases. */
  lemma {:induction false} NewerConfigWins(vs: seq<View>, ps: seq<Packet>, j: nat, lo: nat, hi: nat)
    requires PacketRun(vs, ps) && j < SLOTS && lo <= hi <= |ps|
    requires forall i | lo <= i <= hi :: Sized(vs[i]) && vs[i].slots[j].Some?
    ensures OwnerEpoch(vs[lo], j) <= OwnerEpoch(vs[hi], j)
  {
    hide Agree, Process, Sized;
    if lo < hi {
      NewerConfigWins(vs, ps, j, lo, hi - 1);
      RunKeeps(vs, ps, hi - 1);
      ProcessProgress(vs[hi - 1], ps[hi - 1]);
      assert Sized(vs[hi - 1]) && Sized(vs[hi]);
      StepGrowsOwner(vs[hi - 1], vs[hi], j);
    }
  }

  lemma StepGrowsOwner(v: View, w: View, j: nat)
    requires Progress(v, w) && Sized(v) && Sized(w) && j < SLOTS && v.slots[j].Some? && w.slots[j].Some?
    ensures OwnerEpoch(v, j) <= OwnerEpoch(w, j)
  {
    assert SlotStep(v, w, j);
  }

  /** A slot marked importing when a packet arrives is never rebound by it. */
  lemma ImportingNotRebound(v: View, p: Packet, j: nat)
    requires Agree(v) && Dominated(v) && PacketDominated(p) && j < SLOTS && v.importing[j].Some?
    ensures Sized(Process(v, p))
    ensures Process(v, p).slots[j] == v.slots[j] || Process(v, p).slots[j].None?
  {
    ProcessProgress(v, p);
    AgreeSized(Process(v, p));
    assert SlotStep(v, Process(v, p), j);
  }
}
