/** The mutable cluster state of cluster.c: the handlers as methods over its fields, slot by slot. */
module ClusterState {
  import opened Common
  import opened ClusterModel
  import opened ClusterPackets
  import opened ClusterOps
  import opened ClusterSlaves

  class State {
    const me: Id
    var currentEpoch: nat
    var nodes: map<Id, Node>
    const slots: array<Option<Id>>
    const importing: array<Option<Id>>
    const migrating: array<Option<Id>>

    ghost function V(): View
      reads this, slots, importing, migrating
    {
      View(me, currentEpoch, nodes, slots[..], importing[..], migrating[..])
    }

    ghost predicate Valid()
      reads this, slots, importing, migrating
    {
      slots != importing && slots != migrating && importing != migrating && Agree(V())
    }

    /** A node that knows only itself. */
    constructor (me: Id)
      ensures Valid() && fresh(slots) && fresh(importing) && fresh(migrating)
      ensures this.me == me && currentEpoch == 0 && nodes == map[me := NewNode()]
      ensures forall j | 0 <= j < SLOTS :: slots[j].None? && importing[j].None? && migrating[j].None?
    {
      this.me := me;
      currentEpoch := 0;
      nodes := map[me := NewNode()];
      slots := new Option<Id>[SLOTS](_ => None);
      importing := new Option<Id>[SLOTS](_ => None);
      migrating := new Option<Id>[SLOTS](_ => None);
      new;
      hide TestBit, CountBits, NoSlots;
      NoBits(SLOTS);
    }

    /** `clusterAddSlot`. */
    method Assign(n: Id, j: nat) returns (ok: bool)
      requires Valid() && j < SLOTS && n in nodes
      modifies this`nodes, slots
      ensures Valid() && ok == old(slots[j]).None? && V() == AddSlot(old(V()), n, j)
    {
      hide Agree, TestBit, SetBit;
      AddSlotAgrees(V(), n, j);
      AgreeSized(V());
      if slots[j].Some? {
        return false;
      }
      var x := nodes[n];
      var was := TestBit(x.slots, j);
      x := x.(slots := SetBit(x.slots, j));
      if !was {
        x := x.(numslots := x.numslots + 1);
      }
      nodes := nodes[n := x];
      slots[j] := Some(n);
      assert V().slots == old(V()).slots[j := Some(n)];
      return true;
    }

    /** `clusterDelSlot`, with the assertion that the owner's bit is set. */
    method Unassign(j: nat) returns (ok: bool)
      requires Valid() && j < SLOTS
      modifies this`nodes, slots
      ensures Valid() && ok == old(slots[j]).Some? && V() == DelSlot(old(V()), j)
    {
      hide Agree, TestBit, ClearBit;
      DelSlotAgrees(V(), j);
      AgreeSized(V());
      if slots[j].None? {
        return false;
      }
      var n := slots[j].value;
      var x := nodes[n];
      assert TestBit(x.slots, j) && x.numslots > 0 by { HasSlot(V(), n, j); }
      nodes := nodes[n := x.(slots := ClearBit(x.slots, j), numslots := x.numslots - 1)];
      slots[j] := None;
      assert V().slots == old(V()).slots[j := None];
      return true;
    }

    /** `clusterDelNodeSlots`; the count returned is of the slots looked at, not of those deleted. */
    method UnassignAll(n: Id) returns (deleted: nat)
      requires Valid() && n in nodes
      modifies this`nodes, slots
      ensures Valid() && V() == DelNodeSlots(old(V()), n) && deleted == SLOTS
    {
      hide Agree, TestBit, DelSlot;
      AgreeSized(V());
      deleted := 0;
      var j := 0;
      while j < SLOTS
        invariant j <= SLOTS && deleted == j && Valid() && n in nodes && |V().slots| == SLOTS
        invariant DelNodeSlots(V(), n, j) == DelNodeSlots(old(V()), n)
      {
        DelSlotKeys(V(), j);
        if TestBit(nodes[n].slots, j) {
          var _ := Unassign(j);
        }
        deleted := deleted + 1;
        j := j + 1;
      }
    }

    /** Gives slot `j` to `n`, whoever had it. */
    method Reassign(n: Id, j: nat)
      requires Valid() && j < SLOTS && n in nodes
      modifies this`nodes, slots
      ensures Valid() && V() == MoveSlot(old(V()), n, j)
    {
      hide Agree, AddSlot, DelSlot;
      DelSlotKeys(V(), j);
      var _ := Unassign(j);
      var _ := Assign(n, j);
    }

    /** The slot loop of `clusterFailoverReplaceYourMaster`. */
    method TakeSlots(oldmaster: Id)
      requires Valid() && oldmaster in nodes && me in nodes
      modifies this`nodes, slots
      ensures Valid() && V() == ClaimSlots(old(V()), oldmaster)
    {
      hide Agree, TestBit, MoveSlot;
      AgreeSized(V());
      var j := 0;
      while j < SLOTS
        invariant j <= SLOTS && Valid() && oldmaster in nodes && me in nodes && |V().slots| == SLOTS
        invariant ClaimSlots(V(), oldmaster, j) == ClaimSlots(old(V()), oldmaster)
      {
        MoveSlotAgrees(V(), me, j);
        if TestBit(nodes[oldmaster].slots, j) {
          Reassign(me, j);
        }
        j := j + 1;
      }
    }

    /** The slot loop of `clusterUpdateSlotsConfigWith`. */
    method RebindSlots(sender: Id, epoch: nat, claimed: Bitmap, curmaster: Option<Id>) returns (newmaster: bool)
      requires Valid() && sender in nodes
      modifies this`nodes, slots
      ensures Valid() && (V(), newmaster) == Rebind(old(V()), sender, epoch, claimed, curmaster, false)
    {
      hide Agree, TestBit, MoveSlot;
      AgreeSized(V());
      newmaster := false;
      var j := 0;
      while j < SLOTS
        invariant j <= SLOTS && Valid() && sender in nodes && Sized(V())
        invariant Rebind(V(), sender, epoch, claimed, curmaster, newmaster, j) ==
                  Rebind(old(V()), sender, epoch, claimed, curmaster, false)
      {
        MoveSlotAgrees(V(), sender, j);
        if TestBit(claimed, j) && slots[j] != Some(sender) && importing[j].None? &&
           (slots[j].None? || nodes[slots[j].value].configEpoch < epoch) {
          if slots[j] == curmaster {
            newmaster := true;
          }
          Reassign(sender, j);
        }
        AgreeSized(V());
        j := j + 1;
      }
    }

    /** `clusterCloseAllSlots`. */
    method CloseAllSlots()
      requires Valid()
      modifies importing, migrating
      ensures Valid()
      ensures V() == old(V()).(importing := seq(SLOTS, _ => None), migrating := seq(SLOTS, _ => None))
    {
      hide Agree;
      AgreeSized(V());
      ghost var v := V();
      forall j | 0 <= j < SLOTS {
        migrating[j] := None;
      }
      forall j | 0 <= j < SLOTS {
        importing[j] := None;
      }
      assert V().importing == seq(SLOTS, _ => None) && V().migrating == seq(SLOTS, _ => None);
      ImportAgrees(v, V().importing, V().migrating);
      assert V() == v.(importing := V().importing, migrating := V().migrating);
    }

    /** `clusterSetMaster`; the flag says whether its two assertions hold. */
    method BecomeReplicaOf(n: Id) returns (held: bool)
      requires Valid() && me in nodes
      modifies this`nodes, importing, migrating
      ensures Valid() && V() == SetMaster(old(V()), n)
      ensures held == (n != me && old(nodes[me].numslots) == 0)
    {
      held := n != me && nodes[me].numslots == 0;
      hide Agree;
      AgreeSized(V());
      SetMasterAgrees(V(), n);
      if nodes[me].master {
        CloseAllSlots();
      }
      nodes := nodes[me := nodes[me].(master := false, slaveof := Some(n))];
    }

    /** `clusterUpdateSlotsConfigWith`; `crash` reports the read through a NULL `curmaster`, `held` the assertions. */
    method UpdateSlotsConfigWith(sender: Id, epoch: nat, claimed: Bitmap) returns (crash: bool, held: bool)
      requires Valid() && sender in nodes && me in nodes && Sized(V())
      modifies this`nodes, slots, importing, migrating
      ensures Valid() && V() == UpdateSlots(old(V()), sender, epoch, claimed)
      ensures crash == ReadsNullMaster(old(V()), sender, epoch, claimed)
      ensures held == UpdateAsserts(old(V()), sender, epoch, claimed)
    {
      hide Agree, Rebind, SetMaster;
      var curmaster := if nodes[me].master then Some(me) else nodes[me].slaveof;
      if sender == me {
        return false, true;
      }
      RebindEffect(V(), sender, epoch, claimed, curmaster, false, 0);
      var newmaster := RebindSlots(sender, epoch, claimed, curmaster);
      if newmaster && curmaster.None? {
        return true, true;
      }
      crash, held := false, true;
      if newmaster && curmaster.value in nodes && nodes[curmaster.value].numslots == 0 {
        held := BecomeReplicaOf(sender);
      }
    }

    /** `clusterSetNodeAsMaster`. */
    method PromoteNode(n: Id)
      requires Valid() && n in nodes
      modifies this`nodes
      ensures Valid() && V() == SetNodeAsMaster(old(V()), n)
    {
      hide Agree;
      if !nodes[n].master {
        WithNodeAgrees(V(), n, nodes[n].(master := true, slaveof := None));
        nodes := nodes[n := nodes[n].(master := true, slaveof := None)];
      }
    }

    /** `clusterFailoverReplaceYourMaster`. */
    method ReplaceYourMaster()
      requires Valid() && me in nodes && |V().slots| == SLOTS
      modifies this`nodes, slots
      ensures Valid() && V() == ReplaceMaster(old(V()))
    {
      hide Agree, ClaimSlots;
      var oldmaster := nodes[me].slaveof;
      if nodes[me].master || oldmaster.None? || oldmaster.value !in nodes {
        return;
      }
      PromoteNode(me);
      TakeSlots(oldmaster.value);
    }

    /** The epoch part of `clusterProcessPacket`. */
    method TakeEpochs(hdr: Header)
      requires Valid() && hdr.sender in nodes
      modifies this`nodes, this`currentEpoch
      ensures Valid() && V() == SeeEpochs(old(V()), hdr)
    {
      hide Agree;
      SeeEpochsAgrees(V(), hdr);
      if hdr.currentEpoch > currentEpoch {
        currentEpoch := hdr.currentEpoch;
      }
      if hdr.configEpoch > nodes[hdr.sender].configEpoch {
        nodes := nodes[hdr.sender := nodes[hdr.sender].(configEpoch := hdr.configEpoch)];
      }
    }

    /** The role part of `clusterProcessPacket`. */
    method SwitchRole(hdr: Header)
      requires Valid() && hdr.sender in nodes && |V().slots| == SLOTS
      modifies this`nodes, slots
      ensures Valid() && V() == RoleSwitch(old(V()), hdr)
    {
      hide Agree, DelNodeSlots;
      var s := hdr.sender;
      RoleSwitchAgrees(V(), hdr);
      if hdr.slaveof.None? {
        PromoteNode(s);
        return;
      }
      if nodes[s].master {
        DelNodeSlotsEffect(V(), s, 0);
        var _ := UnassignAll(s);
        nodes := nodes[s := nodes[s].(master := false)];
      }
      if hdr.slaveof.value in nodes && nodes[s].slaveof != hdr.slaveof {
        nodes := nodes[s := nodes[s].(slaveof := hdr.slaveof)];
      }
    }

    /** `clusterHandleConfigEpochCollision`. */
    method ResolveCollision(s: Id)
      requires Valid() && s in nodes && me in nodes
      modifies this`nodes, this`currentEpoch
      ensures Valid() && V() == HandleCollision(old(V()), s)
    {
      hide Agree;
      if nodes[s].configEpoch != nodes[me].configEpoch || !nodes[s].master || !nodes[me].master {
        return;
      }
      if s <= me {
        return;
      }
      WithNodeAgrees(V(), me, nodes[me].(configEpoch := currentEpoch + 1));
      EpochOnlyAgrees(WithNode(V(), me, nodes[me].(configEpoch := currentEpoch + 1)), currentEpoch + 1);
      currentEpoch := currentEpoch + 1;
      nodes := nodes[me := nodes[me].(configEpoch := currentEpoch)];
    }

    /** The PING, PONG and MEET branch of `clusterProcessPacket`. */
    method ProcessPing(hdr: Header) returns (crash: bool, held: bool)
      requires Valid() && hdr.sender in nodes
      modifies this`nodes, this`currentEpoch, slots, importing, migrating
      ensures Valid() && V() == OnPing(old(V()), hdr) && crash == PingReadsNull(old(V()), hdr)
      ensures held == PingAsserts(old(V()), hdr)
    {
      hide Agree, RoleSwitch, UpdateSlots, ReadsNullMaster, HandleCollision, UpdateAsserts;
      crash, held := false, true;
      AgreeSized(V());
      RoleSwitchAgrees(V(), hdr);
      SwitchRole(hdr);
      AgreeSized(V());
      var s := hdr.sender;
      var m := if nodes[s].master then Some(s) else nodes[s].slaveof;
      var dirty := m.Some? && m.value in nodes && nodes[m.value].slots != hdr.slots;
      if nodes[s].master && dirty {
        UpdateSlotsEffect(V(), s, hdr.configEpoch, hdr.slots);
        crash, held := UpdateSlotsConfigWith(s, hdr.configEpoch, hdr.slots);
      }
      AgreeSized(V());
      if nodes[me].master && nodes[s].master && hdr.configEpoch == nodes[me].configEpoch {
        ResolveCollision(s);
      }
    }

    /** The UPDATE branch of `clusterProcessPacket`. */
    method ProcessUpdate(about: Id, epoch: nat, claimed: Bitmap) returns (crash: bool, held: bool)
      requires Valid()
      modifies this`nodes, slots, importing, migrating
      ensures Valid() && V() == OnUpdate(old(V()), about, epoch, claimed)
      ensures crash == UpdateReadsNull(old(V()), about, epoch, claimed)
      ensures held == AboutAsserts(old(V()), about, epoch, claimed)
    {
      hide Agree, UpdateSlots, ReadsNullMaster, UpdateAsserts;
      if about !in nodes || nodes[about].configEpoch >= epoch {
        return false, true;
      }
      PromoteNode(about);
      WithNodeAgrees(V(), about, nodes[about].(configEpoch := epoch));
      nodes := nodes[about := nodes[about].(configEpoch := epoch)];
      AgreeSized(V());
      crash, held := UpdateSlotsConfigWith(about, epoch, claimed);
    }

    /** `clusterProcessPacket`. */
    method ProcessPacket(p: Packet) returns (crash: bool, held: bool)
      requires Valid()
      modifies this`nodes, this`currentEpoch, slots, importing, migrating
      ensures Valid() && V() == Process(old(V()), p) && crash == ReadsNull(old(V()), p)
      ensures held == PacketAsserts(old(V()), p)
    {
      hide Agree, OnPing, OnUpdate, PingReadsNull, UpdateReadsNull, PingAsserts, AboutAsserts;
      if p.hdr.sender !in nodes {
        return false, true;
      }
      SeeEpochsAgrees(V(), p.hdr);
      TakeEpochs(p.hdr);
      match p
      case Ping(hdr) => crash, held := ProcessPing(hdr);
      case Update(_, about, epoch, claimed) => crash, held := ProcessUpdate(about, epoch, claimed);
      case Other(_) => crash, held := false, true;
    }

    /** `clusterGetMaxEpoch`. */
    method MaxEpoch() returns (max: nat)
      ensures max >= currentEpoch && forall n | n in nodes :: nodes[n].configEpoch <= max
      ensures max == currentEpoch || exists n :: n in nodes && nodes[n].configEpoch == max
    {
      max := 0;
      var todo := nodes.Keys;
      while todo != {}
        invariant todo <= nodes.Keys
        invariant forall n | n in nodes && n !in todo :: nodes[n].configEpoch <= max
        invariant max == 0 || exists n :: n in nodes && nodes[n].configEpoch == max
        decreases |todo|
      {
        var n :| n in todo;
        if nodes[n].configEpoch > max {
          max := nodes[n].configEpoch;
        }
        todo := todo - {n};
      }
      if max < currentEpoch {
        max := currentEpoch;
      }
    }

    /** `clusterBumpConfigEpochWithoutConsensus`. */
    method BumpConfigEpoch() returns (ok: bool)
      requires Valid() && me in nodes
      modifies this`nodes, this`currentEpoch
      ensures Valid() && V() == Bump(old(V())) && ok == (V() != old(V()))
    {
      hide Agree;
      var max := MaxEpoch();
      if nodes[me].configEpoch == 0 || nodes[me].configEpoch != max {
        WithNodeAgrees(V(), me, nodes[me].(configEpoch := currentEpoch + 1));
        EpochOnlyAgrees(WithNode(V(), me, nodes[me].(configEpoch := currentEpoch + 1)), currentEpoch + 1);
        currentEpoch := currentEpoch + 1;
        nodes := nodes[me := nodes[me].(configEpoch := currentEpoch)];
        return true;
      }
      return false;
    }
  }

  lemma DelSlotKeys(v: View, j: nat)
    requires Agree(v) && j < SLOTS
    ensures |v.slots| == SLOTS && DelSlot(v, j).nodes.Keys == v.nodes.Keys && DelSlot(v, j).me == v.me
    ensures |DelSlot(v, j).slots| == SLOTS
  {
    hide TestBit, ClearBit, CountBits;
  }
}
