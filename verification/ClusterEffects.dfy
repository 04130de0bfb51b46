/**
 What one packet or one promotion leaves behind at a node: every slot's owner, every role, and the epochs, stated on
 the views before and after.
 */
module ClusterEffects {
  import opened Common
  import opened ClusterModel
  import opened ClusterPackets
  import opened ClusterOps

  function Max(a: nat, b: nat): nat {
    if a < b then b else a
  }

  /** Roles may change at these nodes only. */
  ghost predicate RolesBut(v: View, w: View, changed: set<Id>) {
    w.nodes.Keys == v.nodes.Keys && forall n | n in v.nodes && n !in changed :: SameRole(v, w, n)
  }

  ghost predicate SameSlotStates(v: View, w: View) {
    w.importing == v.importing && w.migrating == v.migrating
  }

  // ---------- slots claimed by another node ----------

  /** The master of this node, or this node as a master, lost a slot and has none left. */
  ghost predicate Falls(v: View, w: View)
    requires Sized(v) && Sized(w)
  {
    var cur := CurMaster(v);
    && cur.Some?
    && (exists j | 0 <= j < SLOTS :: v.slots[j] == cur && w.slots[j] != cur)
    && (forall j | 0 <= j < SLOTS :: w.slots[j] != cur)
  }

  /** Then this node replicates the node that took the slots; otherwise its role and its slot states stay. */
  ghost predicate FollowsSlots(v: View, w: View, s: Id)
    requires Sized(v) && Sized(w)
  {
    if Falls(v, w) then
      && v.me in w.nodes && !w.nodes[v.me].master && w.nodes[v.me].slaveof == Some(s)
      && (if v.nodes[v.me].master then forall j | 0 <= j < SLOTS :: w.importing[j].None? && w.migrating[j].None?
          else SameSlotStates(v, w))
    else SameRole(v, w, v.me) && SameSlotStates(v, w)
  }

  lemma UpdateSlotsRole(v: View, s: Id, epoch: nat, claimed: Bitmap)
    requires Agree(v) && s in v.nodes
    ensures var w := UpdateSlots(v, s, epoch, claimed);
            Sized(w) && RolesBut(v, w, {v.me}) && FollowsSlots(v, w, s)
  {
    hide Agree, Rebind, TestBit;
    UpdateSlotsEffect(v, s, epoch, claimed);
    AgreeSized(v);
    AgreeSized(UpdateSlots(v, s, epoch, claimed));
    if s != v.me {
      var cur := CurMaster(v);
      RebindEffect(v, s, epoch, claimed, cur, false, 0);
      var w := Rebind(v, s, epoch, claimed, cur, false).0;
      AgreeSized(w);
      LosesIff(v, w, s, epoch, claimed);
      if cur.Some? && cur.value in w.nodes { NoSlotsIff(w, cur.value); }
    }
  }

  /** The flag `newmaster` is set exactly when the current master loses a slot. */
  lemma LosesIff(v: View, w: View, s: Id, epoch: nat, claimed: Bitmap)
    requires Sized(v) && Sized(w) && s in v.nodes
    requires forall q | 0 <= q < SLOTS :: w.slots[q] == if Rebinds(v, s, epoch, claimed, q) then Some(s) else v.slots[q]
    ensures (exists q | 0 <= q < SLOTS :: Taken(v, s, epoch, claimed, CurMaster(v), q)) <==>
            (exists j | 0 <= j < SLOTS :: v.slots[j] == CurMaster(v) && w.slots[j] != CurMaster(v))
  {
    hide TestBit;
    var cur := CurMaster(v);
    if q :| 0 <= q < SLOTS && Taken(v, s, epoch, claimed, cur, q) {
      assert v.slots[q] == cur && w.slots[q] != cur;
    }
    if j :| 0 <= j < SLOTS && v.slots[j] == cur && w.slots[j] != cur {
      assert Taken(v, s, epoch, claimed, cur, j);
    }
  }

  // ---------- the sender's epochs and role ----------

  lemma SeeEpochsExact(v: View, hdr: Header)
    requires hdr.sender in v.nodes
    ensures var s, w := hdr.sender, SeeEpochs(v, hdr);
            && w.currentEpoch == Max(v.currentEpoch, hdr.currentEpoch)
            && w.nodes == v.nodes[s := v.nodes[s].(configEpoch := Max(v.nodes[s].configEpoch, hdr.configEpoch))]
            && w.me == v.me && w.slots == v.slots && SameSlotStates(v, w)
  {
  }

  /** A sender that names no master is one, and keeps its slots; one that names a master is a slave without slots. */
  lemma RoleSwitchRoles(v: View, hdr: Header)
    requires Agree(v) && hdr.sender in v.nodes
    ensures var s, w := hdr.sender, RoleSwitch(v, hdr);
            && Sized(v) && Sized(w) && RolesBut(v, w, {s}) && SameSlotStates(v, w)
            && (w.nodes[s].master <==> hdr.slaveof.None?)
            && w.nodes[s].slaveof == (if hdr.slaveof.None? then (if v.nodes[s].master then v.nodes[s].slaveof else None)
                                      else if hdr.slaveof.value in v.nodes then hdr.slaveof else v.nodes[s].slaveof)
            && forall j | 0 <= j < SLOTS ::
                 w.slots[j] == if hdr.slaveof.Some? && v.nodes[s].master && v.slots[j] == Some(s) then None else v.slots[j]
  {
    hide TestBit, CountBits, DelNodeSlots, Agree;
    AgreeSized(v);
    RoleSwitchAgrees(v, hdr);
    AgreeSized(RoleSwitch(v, hdr));
    if v.nodes[hdr.sender].master { DelNodeSlotsEffect(v, hdr.sender, 0); }
  }

  // ---------- PING, PONG and MEET ----------

  /** Slot `j` goes to a sender that claims it if it is free, or its owner has an older configuration, and is not importing. */
  ghost predicate Goes(v: View, s: Id, epoch: nat, claimed: Bitmap, j: nat)
    requires Sized(v) && j < SLOTS
  {
    && TestBit(claimed, j) && v.slots[j] != Some(s) && s != v.me && v.importing[j].None?
    && (v.slots[j].None? || OwnerEpoch(v, j) < epoch)
  }

  ghost predicate SlotsGo(v: View, w: View, s: Id, epoch: nat, claimed: Bitmap)
    requires Sized(v) && Sized(w)
  {
    forall j | 0 <= j < SLOTS :: w.slots[j] == if Goes(v, s, epoch, claimed, j) then Some(s) else v.slots[j]
  }

  /** Skipping the update when the sender's slots are as they were makes no difference. */
  lemma CleanChangesNothing(v: View, hdr: Header, j: nat)
    requires Agree(v) && hdr.sender in v.nodes && v.nodes[hdr.sender].master && !DirtySlots(v, hdr) && j < SLOTS
    ensures Sized(v) && !Goes(v, hdr.sender, hdr.configEpoch, hdr.slots, j)
  {
    hide TestBit, CountBits;
    AgreeAt(v, hdr.sender, j);
  }

  /** The two masters have the same configuration epoch, and this one gives way. */
  ghost predicate GivesWay(v: View, w: View, hdr: Header)
    requires hdr.sender in v.nodes && v.me in v.nodes && v.me in w.nodes
  {
    && w.nodes[v.me].master && hdr.configEpoch == v.nodes[v.me].configEpoch
    && v.nodes[hdr.sender].configEpoch <= hdr.configEpoch && v.me < hdr.sender
  }

  /** The slots and roles of a PING from a master, once its epochs are taken and before a collision is looked for. */
  ghost function MasterPing(v: View, hdr: Header): View
    requires Agree(v) && hdr.sender in v.nodes && hdr.slaveof.None?
  {
    RoleSwitchAgrees(v, hdr);
    var w := RoleSwitch(v, hdr);
    if DirtySlots(w, hdr) then UpdateSlots(w, hdr.sender, hdr.configEpoch, hdr.slots) else w
  }

  lemma MasterPingSlots(v: View, hdr: Header)
    requires Agree(v) && hdr.sender in v.nodes && hdr.slaveof.None? && hdr.sender != v.me
    ensures var s, w := hdr.sender, MasterPing(v, hdr);
            && Agree(w) && Sized(v) && Sized(w) && SameEpochs(v, w)
            && SlotsGo(v, w, s, hdr.configEpoch, hdr.slots)
            && RolesBut(v, w, {s, v.me}) && w.nodes[s].master && FollowsSlots(v, w, s)
  {
    hide Agree, TestBit, RoleSwitch, UpdateSlots, DirtySlots;
    AgreeSized(v);
    var s := hdr.sender;
    var w := RoleSwitch(v, hdr);
    RoleSwitchEffect(v, hdr);
    RoleSwitchRoles(v, hdr);
    assert w.slots == v.slots;
    assert SameRole(v, w, v.me);
    if DirtySlots(w, hdr) {
      UpdateSlotsEffect(w, s, hdr.configEpoch, hdr.slots);
      UpdateSlotsRole(w, s, hdr.configEpoch, hdr.slots);
    } else {
      forall j | 0 <= j < SLOTS ensures !Goes(v, s, hdr.configEpoch, hdr.slots, j) { CleanChangesNothing(w, hdr, j); }
    }
  }

  lemma PingIsMasterPing(v: View, hdr: Header)
    requires Agree(v) && hdr.sender in v.nodes && hdr.slaveof.None?
    ensures var s, u := hdr.sender, MasterPing(v, hdr);
            OnPing(v, hdr) == if u.me in u.nodes && s in u.nodes && u.nodes[u.me].master && u.nodes[s].master &&
                                 hdr.configEpoch == u.nodes[u.me].configEpoch
                              then HandleCollision(u, s) else u
  {
    hide Agree, UpdateSlots, HandleCollision, DirtySlots;
    RoleSwitchRoles(v, hdr);
  }

  /**
   A packet of a master.  Each slot it claims goes to it unless the slot is importing or its owner is as new; nothing else
   changes hands.  A node whose master loses the last slot by it follows the sender.  Of two masters with the same
   configuration epoch, the one with the smaller name takes a new one.
   */
  lemma PingFromMaster(v: View, hdr: Header)
    requires Agree(v) && hdr.sender in v.nodes && hdr.slaveof.None? && hdr.sender != v.me
    ensures var s, w := hdr.sender, Process(v, Ping(hdr));
            var e := Max(v.currentEpoch, hdr.currentEpoch);
            && Sized(v) && Sized(w) && w.me == v.me
            && SlotsGo(v, w, s, hdr.configEpoch, hdr.slots)
            && RolesBut(v, w, {s, v.me}) && w.nodes[s].master && FollowsSlots(v, w, s)
            && w.currentEpoch == e + (if GivesWay(v, w, hdr) then 1 else 0)
            && w.nodes[v.me].configEpoch == (if GivesWay(v, w, hdr) then e + 1 else v.nodes[v.me].configEpoch)
            && w.nodes[s].configEpoch == Max(v.nodes[s].configEpoch, hdr.configEpoch)
            && forall n | n in v.nodes && n != s && n != v.me :: w.nodes[n].configEpoch == v.nodes[n].configEpoch
  {
    hide Agree, TestBit, MasterPing, OnPing;
    var s, u := hdr.sender, SeeEpochs(v, hdr);
    SeeEpochsAgrees(v, hdr);
    SeeEpochsExact(v, hdr);
    MasterPingSlots(u, hdr);
    PingIsMasterPing(u, hdr);
    AgreeSized(v);
    assert forall j | 0 <= j < SLOTS :: Goes(u, s, hdr.configEpoch, hdr.slots, j) == Goes(v, s, hdr.configEpoch, hdr.slots, j);
  }

  /** A packet of a slave: it has no slots any more, follows the master it names, and takes no others' slots. */
  lemma PingFromSlave(v: View, hdr: Header)
    requires Agree(v) && hdr.sender in v.nodes && hdr.slaveof.Some?
    ensures var s, w := hdr.sender, Process(v, Ping(hdr));
            && Sized(v) && Sized(w) && w.me == v.me
            && RolesBut(v, w, {s}) && SameSlotStates(v, w) && !w.nodes[s].master
            && w.nodes[s].slaveof == (if hdr.slaveof.value in v.nodes then hdr.slaveof else v.nodes[s].slaveof)
            && (forall j | 0 <= j < SLOTS ::
                  w.slots[j] == if v.nodes[s].master && v.slots[j] == Some(s) then None else v.slots[j])
            && w.currentEpoch == Max(v.currentEpoch, hdr.currentEpoch)
            && w.nodes[s].configEpoch == Max(v.nodes[s].configEpoch, hdr.configEpoch)
            && forall n | n in v.nodes && n != s :: w.nodes[n].configEpoch == v.nodes[n].configEpoch
  {
    hide Agree, TestBit, RoleSwitch, UpdateSlots;
    var u := SeeEpochs(v, hdr);
    SeeEpochsAgrees(v, hdr);
    SeeEpochsExact(v, hdr);
    RoleSwitchRoles(u, hdr);
    RoleSwitchEffect(u, hdr);
    AgreeSized(v);
  }

  // ---------- UPDATE ----------

  /** The subject of an UPDATE, before its slots are looked at. */
  ghost function Promoted(v: View, s: Id, epoch: nat): View
    requires s in v.nodes
  {
    var m := SetNodeAsMaster(v, s);
    WithNode(m, s, m.nodes[s].(configEpoch := epoch))
  }

  lemma PromotedAgrees(v: View, s: Id, epoch: nat)
    requires Agree(v) && s in v.nodes
    ensures Agree(Promoted(v, s, epoch)) && Sized(v) && Sized(Promoted(v, s, epoch))
  {
    hide Agree;
    var m := SetNodeAsMaster(v, s);
    WithNodeAgrees(v, s, v.nodes[s].(master := true, slaveof := None));
    WithNodeAgrees(m, s, m.nodes[s].(configEpoch := epoch));
    AgreeSized(v);
    AgreeSized(Promoted(v, s, epoch));
  }

  lemma NewsSlots(v: View, s: Id, epoch: nat, claimed: Bitmap)
    requires Agree(v) && s in v.nodes && s != v.me && v.nodes[s].configEpoch < epoch
    ensures var w := OnUpdate(v, s, epoch, claimed);
            && Sized(v) && Sized(w) && w.me == v.me && w.currentEpoch == v.currentEpoch
            && RolesBut(v, w, {s, v.me}) && FollowsSlots(v, w, s) && SlotsGo(v, w, s, epoch, claimed)
            && w.nodes[s].master && w.nodes[s].configEpoch == epoch
  {
    hide Agree, TestBit, UpdateSlots;
    var x := Promoted(v, s, epoch);
    PromotedAgrees(v, s, epoch);
    UpdateSlotsEffect(x, s, epoch, claimed);
    UpdateSlotsRole(x, s, epoch, claimed);
    assert SameRole(v, x, v.me);
    forall j | 0 <= j < SLOTS ensures Goes(v, s, epoch, claimed, j) == Rebinds(x, s, epoch, claimed, j) {
    }
  }

  /** An UPDATE that is news makes its subject a master with that epoch, and gives it the slots it claims in the same way. */
  lemma UpdateNews(v: View, p: Packet)
    requires Agree(v) && p.Update? && p.hdr.sender in v.nodes && p.about in v.nodes && p.about != v.me
    requires SeeEpochs(v, p.hdr).nodes[p.about].configEpoch < p.epoch
    ensures var s, u, w := p.about, SeeEpochs(v, p.hdr), Process(v, p);
            && Sized(v) && Sized(u) && Sized(w) && w.me == v.me && w.currentEpoch == Max(v.currentEpoch, p.hdr.currentEpoch)
            && RolesBut(v, w, {s, v.me}) && FollowsSlots(v, w, s) && SlotsGo(u, w, s, p.epoch, p.claimed)
            && w.nodes[s].master && w.nodes[s].configEpoch == p.epoch
  {
    hide Agree, TestBit, OnUpdate, SlotsGo;
    SeeEpochsAgrees(v, p.hdr);
    SeeEpochsExact(v, p.hdr);
    AgreeSized(v);
    NewsSlots(SeeEpochs(v, p.hdr), p.about, p.epoch, p.claimed);
  }

  /** An UPDATE about this node itself makes it a master with that epoch, and moves no slot. */
  lemma UpdateAboutMe(v: View, p: Packet)
    requires Agree(v) && p.Update? && p.hdr.sender in v.nodes && p.about == v.me
    requires Sized(v) && SeeEpochs(v, p.hdr).nodes[v.me].configEpoch < p.epoch
    ensures var w := Process(v, p);
            && w.me == v.me && w.currentEpoch == Max(v.currentEpoch, p.hdr.currentEpoch) && w.slots == v.slots
            && RolesBut(v, w, {v.me}) && SameSlotStates(v, w)
            && w.nodes[v.me].master && w.nodes[v.me].configEpoch == p.epoch
  {
    hide Agree;
    SeeEpochsAgrees(v, p.hdr);
    SeeEpochsExact(v, p.hdr);
    PromotedAgrees(SeeEpochs(v, p.hdr), v.me, p.epoch);
  }

  /** Any other UPDATE, and every other packet, only brings the sender's epochs. */
  lemma OldNews(v: View, p: Packet)
    requires Agree(v) && p.hdr.sender in v.nodes
    requires p.Other? ||
             (p.Update? && (p.about in v.nodes ==> SeeEpochs(v, p.hdr).nodes[p.about].configEpoch >= p.epoch))
    ensures var s, w := p.hdr.sender, Process(v, p);
            && w.me == v.me && w.slots == v.slots && SameSlotStates(v, w)
            && w.currentEpoch == Max(v.currentEpoch, p.hdr.currentEpoch)
            && w.nodes == v.nodes[s := v.nodes[s].(configEpoch := Max(v.nodes[s].configEpoch, p.hdr.configEpoch))]
  {
    hide Agree;
    SeeEpochsAgrees(v, p.hdr);
    SeeEpochsExact(v, p.hdr);
  }

  /** A packet of an unknown node changes nothing. */
  lemma UnknownSender(v: View, p: Packet)
    requires Agree(v) && p.hdr.sender !in v.nodes
    ensures Process(v, p) == v
  {
  }

  // ---------- a collision of configuration epochs ----------

  /**
   Two masters with the same configuration epoch that hear of each other: exactly the one with the smaller name takes a new
   epoch, so that afterwards their epochs differ.
   */
  lemma CollisionResolved(v: View, w: View, hv: Header, hw: Header)
    requires Agree(v) && Agree(w) && Dominated(v) && Dominated(w) && v.me < w.me && v.me in w.nodes && w.me in v.nodes
    requires v.me in v.nodes && w.me in w.nodes && v.nodes[v.me].master && w.nodes[w.me].master
    requires hv.sender == v.me && hw.sender == w.me && hv.slaveof.None? && hw.slaveof.None?
    requires hv.configEpoch == v.nodes[v.me].configEpoch == w.nodes[w.me].configEpoch == hw.configEpoch
    requires v.nodes[w.me].configEpoch <= hw.configEpoch && w.nodes[v.me].configEpoch <= hv.configEpoch
    ensures var v', w', e := Process(v, Ping(hw)), Process(w, Ping(hv)), v.nodes[v.me].configEpoch;
            && v.me in v'.nodes && w.me in w'.nodes
            && v'.nodes[v.me].configEpoch == v'.currentEpoch > e && w'.nodes[w.me].configEpoch == e
            && v'.nodes[v.me].master && w'.nodes[w.me].master
  {
    hide Agree, Process, Dominated;
    PingFromMaster(v, hw);
    PingFromMaster(w, hv);
    KeepsOwnSlots(v, Process(v, Ping(hw)), hw);
    KeepsOwnSlots(w, Process(w, Ping(hv)), hv);
    OwnDominated(v);
  }

  lemma OwnDominated(v: View)
    requires Dominated(v) && v.me in v.nodes
    ensures v.nodes[v.me].configEpoch <= v.currentEpoch
  {
  }

  /** A master does not lose slots to another with the same epoch. */
  lemma KeepsOwnSlots(v: View, w: View, hdr: Header)
    requires Sized(v) && Sized(w) && v.nodes[v.me].master && hdr.configEpoch == v.nodes[v.me].configEpoch
    requires hdr.sender in v.nodes && SlotsGo(v, w, hdr.sender, hdr.configEpoch, hdr.slots) && FollowsSlots(v, w, hdr.sender)
    ensures w.nodes[v.me].master
  {
    hide TestBit;
    forall j | 0 <= j < SLOTS && v.slots[j] == Some(v.me)
      ensures !Goes(v, hdr.sender, hdr.configEpoch, hdr.slots, j)
    {
    }
  }

  // ---------- taking the place of a master ----------

  /** A slave of a known master becomes a master; nothing else changes its role. */
  lemma ReplaceMasterRole(v: View)
    requires Agree(v)
    ensures var x, w := v.nodes[v.me], ReplaceMaster(v);
            && Sized(w) && RolesBut(v, w, {v.me}) && SameSlotStates(v, w)
            && (if !x.master && x.slaveof.Some? && x.slaveof.value in v.nodes then w.nodes[v.me].master && w.nodes[v.me].slaveof.None?
                else w == v)
  {
    hide Agree, ClaimSlots;
    AgreeSized(v);
    var x := v.nodes[v.me];
    if !x.master && x.slaveof.Some? && x.slaveof.value in v.nodes {
      var w := SetNodeAsMaster(v, v.me);
      WithNodeAgrees(v, v.me, x.(master := true, slaveof := None));
      if x.slaveof.value != v.me {
        ClaimSlotsEffect(w, x.slaveof.value, 0);
      } else {
        ClaimOwnSlots(w, 0);
      }
      AgreeSized(ReplaceMaster(v));
    }
  }

  lemma {:induction false} DropNodeRoles(v: View, n: Id, j: nat)
    requires Agree(v) && j <= SLOTS
    ensures RolesBut(v, DropNode(v, n, j), {}) && DropNode(v, n, j).me == v.me
    decreases SLOTS - j
  {
    hide Agree, TestBit, CountBits, SetBit, ClearBit;
    AgreeSized(v);
    if j < SLOTS {
      DropSlotEffect(v, n, j);
      AgreeSized(DropSlot(v, n, j));
      DropNodeRoles(DropSlot(v, n, j), n, j + 1);
    }
  }
}
