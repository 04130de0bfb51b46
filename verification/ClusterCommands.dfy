/** What each CLUSTER subcommand does to a node: slot owners, roles, slot states and the node's own epochs. */
module ClusterCommands {
  import opened Common
  import opened ClusterModel
  import opened ClusterPackets
  import opened ClusterOps
  import opened ClusterEffects

  /** The owner of slot `j` after the subcommand. */
  ghost function OwnerAfter(v: View, op: LocalOp, j: nat): Option<Id>
    requires Sized(v) && j < SLOTS
  {
    var x, owner := v.nodes[v.me], v.slots[j];
    match op
    case AddSlotToMe(s) => if j == s && owner.None? then Some(v.me) else owner
    case DeleteSlot(s) => if j == s then None else owner
    case FlushSlots(keys) => if !keys && owner == Some(v.me) then None else owner
    case SetSlotNode(s, n, keys) =>
      if j == s && x.master && n in v.nodes && !(keys && owner == Some(v.me) && n != v.me) then Some(n) else owner
    case Takeover => if !x.master && x.slaveof.Some? && owner == x.slaveof then Some(v.me) else owner
    case Forget(n) =>
      if n != v.me && (x.master || x.slaveof != Some(n)) && owner == Some(n) then None else owner
    case _ => owner
  }

  lemma LocalSlots(v: View, op: LocalOp)
    requires Sound(v) && Sized(v)
    ensures var w := ApplyLocal(v, op);
            Sized(w) && forall j | 0 <= j < SLOTS :: w.slots[j] == OwnerAfter(v, op, j)
  {
    hide Agree, Dominated, TestBit, SetBit, ClearBit, CountBits, DelNodeSlots, DropNode, ReplaceMaster, Bump, AddSlot, DelSlot, MoveSlot;
    LocalSound(v, op);
    AgreeSized(v);
    AgreeSized(ApplyLocal(v, op));
    match op {
      case AddSlotToMe(s) =>
        if s < SLOTS {
          var u := WithImporting(v, s, None);
          ImportAgrees(v, u.importing, v.migrating);
          AddSlotAgrees(u, v.me, s);
        }
      case DeleteSlot(s) =>
        if s < SLOTS {
          var u := WithImporting(v, s, None);
          ImportAgrees(v, u.importing, v.migrating);
          DelSlotAgrees(u, s);
        }
      case FlushSlots(_) => DelNodeSlotsEffect(v, v.me, 0);
      case SetSlotNode(s, n, keys) => if s < SLOTS && n in v.nodes { SetSlotEffect(v, s, n, keys); }
      case Takeover =>
        BumpSound(v);
        AgreeSized(Bump(v));
        ReplaceMasterEffect(Bump(v));
      case Forget(n) => DropNodeEffect(v, n, 0);
      case BumpEpoch => BumpSound(v);
      case _ =>
    }
  }

  /** SETSLOT NODE on a master, the refusal aside. */
  lemma SetSlotEffect(v: View, j: nat, n: Id, keys: bool)
    requires Sound(v) && Sized(v) && j < SLOTS && n in v.nodes
    ensures var x, w := v.nodes[v.me], SetSlot(v, j, n, keys);
            && w.slots == (if keys && v.slots[j] == Some(v.me) && n != v.me then v.slots else v.slots[j := Some(n)])
            && RolesBut(v, w, {})
            && Bumped(v, w, !(n == v.me && v.importing[j].Some?) || (x.configEpoch != 0 && x.configEpoch == v.currentEpoch))
  {
    hide Agree, Bump, MoveSlot;
    var w := if keys then v else WithMigrating(v, j, None);
    ImportAgrees(v, v.importing, w.migrating);
    MoveSlotAgrees(w, n, j);
    if n == v.me && v.importing[j].Some? {
      BumpSound(w);
      BumpExact(w);
      var b := Bump(w);
      AgreeSized(b);
      ImportAgrees(b, b.importing[j := None], b.migrating);
      MoveSlotAgrees(WithImporting(b, j, None), n, j);
    }
  }

  lemma ReplicateRoles(v: View, n: Id, keys: bool)
    requires Sized(v)
    ensures var x, w := v.nodes[v.me], ReplicateNode(v, n, keys);
            RolesBut(v, w, {v.me}) &&
            if n in v.nodes && n != v.me && v.nodes[n].master && (x.master ==> x.numslots == 0 && !keys)
            then !w.nodes[v.me].master && w.nodes[v.me].slaveof == Some(n) else w == v
  {
  }

  lemma TakeoverRoles(v: View)
    requires Sound(v) && Sized(v)
    ensures var x, w := v.nodes[v.me], ApplyLocal(v, Takeover);
            RolesBut(v, w, {v.me}) &&
            if !x.master && x.slaveof.Some? && x.slaveof.value in v.nodes
            then w.nodes[v.me].master && w.nodes[v.me].slaveof.None? else SameRole(v, w, v.me)
  {
    hide Agree, Dominated, ReplaceMaster, Bump;
    BumpSound(v);
    AgreeSized(Bump(v));
    ReplaceMasterRole(Bump(v));
  }

  /** A forgotten node is gone, and its slaves know no master. */
  lemma ForgetRoles(v: View, n: Id)
    requires Sound(v) && Sized(v)
    ensures var x, w := v.nodes[v.me], ForgetNode(v, n);
            if n in v.nodes && n != v.me && (x.master || x.slaveof != Some(n)) then
              && w.nodes.Keys == v.nodes.Keys - {n}
              && forall k | k in w.nodes ::
                   && w.nodes[k].master == v.nodes[k].master
                   && w.nodes[k].slaveof == if v.nodes[k].slaveof == Some(n) then None else v.nodes[k].slaveof
            else w == v
  {
    hide Agree, Dominated, DropNode;
    DropNodeRoles(v, n, 0);
  }

  /** No other subcommand changes a role; MEET adds a node without slots. */
  lemma OtherRoles(v: View, op: LocalOp)
    requires Sound(v) && Sized(v) && !op.Replicate? && !op.Takeover? && !op.Forget?
    ensures var w := ApplyLocal(v, op);
            if op.Meet? then w == (if op.node in v.nodes then v else WithNode(v, op.node, NewNode()))
            else RolesBut(v, w, {})
  {
    hide Agree, Dominated, TestBit, SetBit, ClearBit, CountBits, DelNodeSlots, Bump, SetSlot;
    match op {
      case BumpEpoch => BumpSound(v);
      case FlushSlots(_) => DelNodeSlotsEffect(v, v.me, 0);
      case SetSlotNode(s, n, keys) => if s < SLOTS && n in v.nodes { SetSlotEffect(v, s, n, keys); }
      case _ =>
    }
  }

  /** The slot states that MIGRATING, IMPORTING and STABLE set, on a master. */
  lemma SlotStates(v: View, op: LocalOp)
    requires Sound(v) && Sized(v) && (op.SetImporting? || op.SetMigrating? || op.SetStable?)
    ensures var x, w := v.nodes[v.me], ApplyLocal(v, op);
            var ok := x.master && op.slot < SLOTS && (!op.SetStable? ==> op.node in v.nodes) &&
                      (op.SetImporting? ==> v.slots[op.slot] != Some(v.me)) &&
                      (op.SetMigrating? ==> v.slots[op.slot] == Some(v.me));
            && w.nodes == v.nodes && w.currentEpoch == v.currentEpoch
            && |w.importing| == |w.migrating| == SLOTS
            && forall j | 0 <= j < SLOTS ::
                 && w.importing[j] == (if !ok || j != op.slot || op.SetMigrating? then v.importing[j]
                                       else if op.SetStable? then None else Some(op.node))
                 && w.migrating[j] == (if !ok || j != op.slot || op.SetImporting? then v.migrating[j]
                                       else if op.SetStable? then None else Some(op.node))
  {
  }

  /**
   The node's own epoch.  A bump leaves it alone only if it is already the greatest known and not zero; taking over an
   importing slot bumps; SET-CONFIG-EPOCH sets it once, on a node that knows no other; nothing else touches it.
   */
  lemma OwnEpoch(v: View, op: LocalOp)
    requires Sound(v) && Sized(v)
    ensures var x, w := v.nodes[v.me], ApplyLocal(v, op);
            var top := x.configEpoch != 0 && x.configEpoch == v.currentEpoch;
            && v.me in w.nodes
            && match op
               case BumpEpoch => Bumped(v, w, top)
               case Takeover => Bumped(v, w, top)
               case SetSlotNode(s, n, keys) =>
                 if s < SLOTS && x.master && n == v.me && v.importing[s].Some? then Bumped(v, w, top) else Bumped(v, w, true)
               case SetConfigEpoch(e) =>
                 if v.nodes.Keys == {v.me} && x.configEpoch == 0
                 then w.nodes[v.me].configEpoch == e && w.currentEpoch == Max(v.currentEpoch, e) else w == v
               case _ => Bumped(v, w, true)
  {
    hide Agree, TestBit, SetBit, ClearBit, CountBits, DelNodeSlots, DropNode, ReplaceMaster;
    match op {
      case BumpEpoch => BumpExact(v);
      case Takeover =>
        BumpExact(v);
        BumpSound(v);
        ReplaceMasterEffect(Bump(v));
      case SetSlotNode(s, n, keys) => if s < SLOTS && n in v.nodes { SetSlotEffect(v, s, n, keys); }
      case Forget(n) => DropNodeEffect(v, n, 0);
      case FlushSlots(_) => DelNodeSlotsEffect(v, v.me, 0);
      case _ =>
    }
  }

  /** The own epoch and the current one are one more than the current one was, or both are as they were. */
  ghost predicate Bumped(v: View, w: View, same: bool)
    requires v.me in v.nodes && v.me in w.nodes
  {
    if same then w.currentEpoch == v.currentEpoch && w.nodes[v.me].configEpoch == v.nodes[v.me].configEpoch
    else w.currentEpoch == w.nodes[v.me].configEpoch == v.currentEpoch + 1
  }

  lemma BumpExact(v: View)
    requires Sound(v) && v.me in v.nodes
    ensures v.me in Bump(v).nodes
    ensures Bumped(v, Bump(v), v.nodes[v.me].configEpoch != 0 && v.nodes[v.me].configEpoch == v.currentEpoch)
  {
    hide Agree;
  }
}
