/**
 What a node does on its own account: CLUSTER commands on slots, nodes and epochs, and the takeover
 of a master's slots.
 */
module ClusterOps {
  import opened Common
  import opened Octets
  import opened ClusterModel
  import opened ClusterPackets

  /** The CLUSTER subcommands; `keys` says whether the slot concerned, or the database, holds keys. */
  datatype LocalOp =
    | BumpEpoch
    | Takeover
    | AddSlotToMe(slot: nat)
    | DeleteSlot(slot: nat)
    | FlushSlots(keys: bool)
    | SetSlotNode(slot: nat, node: Id, keys: bool)
    | SetImporting(slot: nat, node: Id)
    | SetMigrating(slot: nat, node: Id)
    | SetStable(slot: nat)
    | SetConfigEpoch(epoch: nat)
    | Meet(node: Id)
    | Forget(node: Id)
    | Replicate(node: Id, keys: bool)

  function NoSlots(): Bitmap {
    seq(SLOTS / 8, _ => 0)
  }

  function NewNode(): Node {
    Node(0, true, None, NoSlots(), 0)
  }

  /** `myself->configEpoch == clusterGetMaxEpoch()` */
  ghost predicate HasMaxEpoch(v: View)
    requires v.me in v.nodes
  {
    && v.currentEpoch <= v.nodes[v.me].configEpoch
    && forall n | n in v.nodes :: v.nodes[n].configEpoch <= v.nodes[v.me].configEpoch
  }

  /** `clusterBumpConfigEpochWithoutConsensus`. */
  ghost function Bump(v: View): View
    requires v.me in v.nodes
  {
    if v.nodes[v.me].configEpoch == 0 || !HasMaxEpoch(v) then NewEpoch(v) else v
  }

  /** `clusterFailoverReplaceYourMaster`. */
  function ReplaceMaster(v: View): View
    requires |v.slots| == SLOTS && v.me in v.nodes
  {
    var x := v.nodes[v.me];
    if x.master || x.slaveof.None? || x.slaveof.value !in v.nodes then v
    else ClaimSlots(SetNodeAsMaster(v, v.me), x.slaveof.value)
  }

  /** One iteration of `clusterDelNode`: slot `j` and the states that name the node are dropped. */
  function DropSlot(v: View, n: Id, j: nat): View
    requires j < SLOTS && |v.slots| == SLOTS && |v.importing| == SLOTS && |v.migrating| == SLOTS
  {
    var u := if v.importing[j] == Some(n) then WithImporting(v, j, None) else v;
    var w := if u.migrating[j] == Some(n) then WithMigrating(u, j, None) else u;
    if w.slots[j] == Some(n) then DelSlot(w, j) else w
  }

  /** `clusterDelNode`, from slot `j` on. */
  function DropNode(v: View, n: Id, j: nat := 0): View
    requires |v.slots| == SLOTS && |v.importing| == SLOTS && |v.migrating| == SLOTS
    decreases SLOTS - j
  {
    if j >= SLOTS then v else DropNode(DropSlot(v, n, j), n, j + 1)
  }

  /** CLUSTER FORGET, which refuses unknown nodes, this node and its master. */
  function ForgetNode(v: View, n: Id): View
    requires |v.slots| == SLOTS && |v.importing| == SLOTS && |v.migrating| == SLOTS && v.me in v.nodes
  {
    if n !in v.nodes || n == v.me || (!v.nodes[v.me].master && v.nodes[v.me].slaveof == Some(n)) then v
    else
      var w := DropNode(v, n);
      View(w.me, w.currentEpoch, Unlink(w.nodes, n), w.slots, w.importing, w.migrating)
  }

  /** `freeClusterNode`: the node leaves the table and its slaves no longer know their master. */
  function Unlink(nodes: map<Id, Node>, n: Id): map<Id, Node> {
    map m | m in nodes && m != n :: Orphan(nodes[m], n)
  }

  function Orphan(x: Node, n: Id): Node {
    if x.slaveof == Some(n) then x.(slaveof := None) else x
  }

  function WithImporting(v: View, j: nat, n: Option<Id>): View
    requires j < |v.importing|
  {
    v.(importing := v.importing[j := n])
  }

  function WithMigrating(v: View, j: nat, n: Option<Id>): View
    requires j < |v.migrating|
  {
    v.(migrating := v.migrating[j := n])
  }

  /** CLUSTER SETSLOT NODE, which refuses to give away a slot of this node that still holds keys. */
  ghost function SetSlot(v: View, j: nat, n: Id, keys: bool): View
    requires Sized(v) && j < SLOTS && n in v.nodes
  {
    var w := if keys then v else WithMigrating(v, j, None);
    if v.slots[j] == Some(v.me) && n != v.me && keys then v
    else if n == v.me && v.importing[j].Some? then MoveSlot(WithImporting(Bump(w), j, None), n, j)
    else MoveSlot(w, n, j)
  }

  /** CLUSTER SET-CONFIG-EPOCH on a node that knows no other. */
  function AssignEpoch(v: View, e: nat): View
    requires v.me in v.nodes
  {
    if v.nodes.Keys != {v.me} || v.nodes[v.me].configEpoch != 0 then v
    else AtEpoch(WithNode(v, v.me, v.nodes[v.me].(configEpoch := e)), if v.currentEpoch < e then e else v.currentEpoch)
  }

  /** CLUSTER REPLICATE: only a master is replicated, and a master replicates only without slots and keys. */
  function ReplicateNode(v: View, n: Id, keys: bool): View
    requires v.me in v.nodes
  {
    if n !in v.nodes || n == v.me || !v.nodes[n].master || (v.nodes[v.me].master && (v.nodes[v.me].numslots != 0 || keys))
    then v
    else SetMaster(v, n)
  }

  function AtEpoch(v: View, e: nat): View {
    v.(currentEpoch := e)
  }

  ghost function ApplyLocal(v: View, op: LocalOp): View
    requires Sized(v)
  {
    match op
    case BumpEpoch => Bump(v)
    case Takeover => ReplaceMaster(Bump(v))
    case AddSlotToMe(j) =>
      if j >= SLOTS || v.slots[j].Some? then v else AddSlot(WithImporting(v, j, None), v.me, j)
    case DeleteSlot(j) =>
      if j >= SLOTS || v.slots[j].None? then v else DelSlot(WithImporting(v, j, None), j)
    case FlushSlots(keys) => if keys then v else DelNodeSlots(v, v.me)
    case SetSlotNode(j, n, keys) =>
      if j >= SLOTS || n !in v.nodes || !v.nodes[v.me].master then v else SetSlot(v, j, n, keys)
    case SetImporting(j, n) =>
      if j >= SLOTS || n !in v.nodes || !v.nodes[v.me].master || v.slots[j] == Some(v.me) then v
      else WithImporting(v, j, Some(n))
    case SetMigrating(j, n) =>
      if j >= SLOTS || n !in v.nodes || !v.nodes[v.me].master || v.slots[j] != Some(v.me) then v
      else WithMigrating(v, j, Some(n))
    case SetStable(j) =>
      if j >= SLOTS || !v.nodes[v.me].master then v else WithImporting(WithMigrating(v, j, None), j, None)
    case SetConfigEpoch(e) => AssignEpoch(v, e)
    case Meet(n) =>
      if n in v.nodes then v else WithNode(v, n, NewNode())
    case Forget(n) => ForgetNode(v, n)
    case Replicate(n, keys) => ReplicateNode(v, n, keys)
  }

  // ---------- every operation keeps the slot table in step and the epochs dominated ----------

  ghost predicate Sound(v: View) {
    Agree(v) && Dominated(v)
  }

  /** The outcome every local operation promises. */
  ghost predicate KeepsSound(v: View, w: View) {
    Sound(w) && w.me == v.me && w.currentEpoch >= v.currentEpoch
  }

  lemma BumpSound(v: View)
    requires Sound(v)
    ensures KeepsSound(v, Bump(v)) && Bump(v).slots == v.slots && Bump(v).nodes.Keys == v.nodes.Keys
    ensures SameRoles(v, Bump(v))
  {
    hide Agree;
    AgreeSized(v);
    NewEpochProgress(v);
  }

  ghost predicate SameRoles(v: View, w: View) {
    && w.me == v.me && w.importing == v.importing && w.migrating == v.migrating && w.nodes.Keys == v.nodes.Keys
    && forall n | n in v.nodes ::
         w.nodes[n] == v.nodes[n].(configEpoch := w.nodes[n].configEpoch)
  }

  /** After a bump this node's epoch is the greatest it knows, strictly so if a new one was made. */
  lemma BumpIsGreatest(v: View)
    requires Sound(v)
    ensures var w := Bump(v);
            forall n | n in v.nodes && n != v.me :: w.nodes[v.me].configEpoch >= w.nodes[n].configEpoch
    ensures var w := Bump(v);
            w != v ==> forall n | n in v.nodes :: w.nodes[v.me].configEpoch > v.nodes[n].configEpoch
  {
    hide TestBit, CountBits;
    NewEpochProgress(v);
  }

  /** Who owns slot `j` after this node has taken its master's place. */
  lemma ReplaceMasterEffect(v: View)
    requires Agree(v)
    ensures var w := ReplaceMaster(v);
            && Agree(w) && SameEpochs(v, w)
            && forall j | 0 <= j < SLOTS ::
                 w.slots[j] == if v.nodes[v.me].master || v.nodes[v.me].slaveof.None? || v.slots[j] != v.nodes[v.me].slaveof
                               then v.slots[j] else Some(v.me)
  {
    hide TestBit, CountBits, Agree, ClaimSlots;
    AgreeSized(v);
    var x := v.nodes[v.me];
    if !x.master && x.slaveof.Some? && x.slaveof.value in v.nodes {
      var w := SetNodeAsMaster(v, v.me);
      WithNodeAgrees(v, v.me, x.(master := true, slaveof := None));
      if x.slaveof.value != v.me {
        ClaimSlotsEffect(w, x.slaveof.value, 0);
      } else {
        ClaimOwnSlots(w, 0);
      }
    }
  }

  lemma {:induction false} ClaimOwnSlots(v: View, j: nat)
    requires Agree(v) && j <= SLOTS
    ensures Agree(ClaimSlots(v, v.me, j)) && SameHeads(v, ClaimSlots(v, v.me, j))
    ensures ClaimSlots(v, v.me, j).slots == v.slots
    decreases SLOTS - j
  {
    hide TestBit, CountBits, Agree, MoveSlot;
    AgreeSized(v);
    if j < SLOTS {
      AgreeAt(v, v.me, j);
      MoveSlotAgrees(v, v.me, j);
      var w := if TestBit(v.nodes[v.me].slots, j) then MoveSlot(v, v.me, j) else v;
      assert w.slots == v.slots;
      AgreeSized(w);
      ClaimOwnSlots(w, j + 1);
    }
  }

  /** A takeover keeps the set of assigned slots. */
  lemma TakeoverKeepsAssigned(v: View, j: nat)
    requires Agree(v) && j < SLOTS
    ensures Sized(ReplaceMaster(v)) && (ReplaceMaster(v).slots[j].Some? <==> v.slots[j].Some?)
  {
    hide Agree, ReplaceMaster;
    AgreeSized(v);
    ReplaceMasterEffect(v);
    AgreeSized(ReplaceMaster(v));
  }

  lemma DropSlotEffect(v: View, n: Id, j: nat)
    requires Agree(v) && j < SLOTS
    ensures var w := DropSlot(v, n, j);
            && Agree(w) && SameEpochs(v, w)
            && w.slots == if v.slots[j] == Some(n) then v.slots[j := None] else v.slots
  {
    hide TestBit, CountBits, Agree, SetBit, ClearBit;
    AgreeSized(v);
    var u := if v.importing[j] == Some(n) then WithImporting(v, j, None) else v;
    var w := if u.migrating[j] == Some(n) then WithMigrating(u, j, None) else u;
    assert w == v.(importing := w.importing, migrating := w.migrating);
    ImportAgrees(v, w.importing, w.migrating);
    DelSlotAgrees(w, j);
  }

  lemma {:induction false} DropNodeEffect(v: View, n: Id, j: nat)
    requires Agree(v) && j <= SLOTS
    ensures var w := DropNode(v, n, j);
            && Agree(w) && SameEpochs(v, w)
            && forall q | 0 <= q < SLOTS :: w.slots[q] == if q >= j && v.slots[q] == Some(n) then None else v.slots[q]
    decreases SLOTS - j
  {
    hide TestBit, CountBits, Agree, DropSlot;
    AgreeSized(v);
    if j < SLOTS {
      DropSlotEffect(v, n, j);
      var w := DropSlot(v, n, j);
      AgreeSized(w);
      DropNodeEffect(w, n, j + 1);
    }
  }

  lemma ImportAgrees(v: View, importing: seq<Option<Id>>, migrating: seq<Option<Id>>)
    requires Agree(v) && |importing| == SLOTS && |migrating| == SLOTS
    ensures Agree(v.(importing := importing, migrating := migrating))
  {
    hide TestBit, CountBits;
  }

  lemma ForgetSound(v: View, n: Id)
    requires Sound(v) && Sized(v)
    ensures KeepsSound(v, ForgetNode(v, n))
  {
    hide Agree, DropNode;
    if ForgetNode(v, n) != v {
      DropNodeEffect(v, n, 0);
      RemoveAgrees(DropNode(v, n), n);
    }
  }

  lemma RemoveAgrees(w: View, n: Id)
    requires Agree(w) && n != w.me && forall q | 0 <= q < SLOTS :: w.slots[q] != Some(n)
    ensures Agree(View(w.me, w.currentEpoch, Unlink(w.nodes, n), w.slots, w.importing, w.migrating))
  {
    hide TestBit, CountBits;
  }

  lemma {:induction false} NoBits(k: nat)
    requires k <= SLOTS
    ensures CountBits(NoSlots(), k) == 0 && forall j | 0 <= j < k :: !TestBit(NoSlots(), j)
  {
    hide BitMask;
    if k > 0 { NoBits(k - 1); }
  }

  lemma MeetSound(v: View, n: Id)
    requires Sound(v) && n !in v.nodes
    ensures KeepsSound(v, WithNode(v, n, NewNode()))
  {
    hide TestBit, CountBits;
    NoBits(SLOTS);
  }

  lemma SlotOpSound(v: View, op: LocalOp)
    requires Sound(v) && Sized(v)
    requires op.AddSlotToMe? || op.DeleteSlot? || op.FlushSlots? || op.SetImporting? || op.SetMigrating? || op.SetStable?
    ensures KeepsSound(v, ApplyLocal(v, op))
  {
    hide TestBit, CountBits, Agree, SetBit, ClearBit, DelNodeSlots;
    match op
    case AddSlotToMe(j) =>
      if j < SLOTS {
        var w := WithImporting(v, j, None);
        ImportAgrees(v, w.importing, v.migrating);
        AddSlotAgrees(w, v.me, j);
      }
    case DeleteSlot(j) =>
      if j < SLOTS {
        var w := WithImporting(v, j, None);
        ImportAgrees(v, w.importing, v.migrating);
        DelSlotAgrees(w, j);
      }
    case FlushSlots(_) => DelNodeSlotsEffect(v, v.me, 0);
    case SetImporting(j, n) => if j < SLOTS { ImportAgrees(v, v.importing[j := Some(n)], v.migrating); }
    case SetMigrating(j, n) => if j < SLOTS { ImportAgrees(v, v.importing, v.migrating[j := Some(n)]); }
    case SetStable(j) => if j < SLOTS { ImportAgrees(v, v.importing[j := None], v.migrating[j := None]); }
  }

  lemma SetSlotSound(v: View, j: nat, n: Id, keys: bool)
    requires Sound(v) && Sized(v)
    ensures KeepsSound(v, ApplyLocal(v, SetSlotNode(j, n, keys)))
  {
    hide TestBit, CountBits, Agree, MoveSlot, Bump;
    if j < SLOTS && n in v.nodes && v.nodes[v.me].master {
      var w := if keys then v else WithMigrating(v, j, None);
      ImportAgrees(v, v.importing, w.migrating);
      var u := w;
      if n == v.me && v.importing[j].Some? {
        BumpSound(w);
        u := WithImporting(Bump(w), j, None);
        ImportAgrees(Bump(w), u.importing, w.migrating);
      }
      MoveSlotAgrees(u, n, j);
    }
  }

  lemma ReplicateSound(v: View, n: Id, keys: bool)
    requires Sound(v) && Sized(v)
    ensures KeepsSound(v, ReplicateNode(v, n, keys))
  {
    hide Agree;
    SetMasterAgrees(v, n);
  }

  /** Slot table and bitmaps agree, and epochs stay dominated, after every local operation. */
  lemma LocalSound(v: View, op: LocalOp)
    requires Sound(v) && Sized(v)
    ensures KeepsSound(v, ApplyLocal(v, op))
  {
    hide TestBit, CountBits, Agree, Bump, ReplaceMaster, ForgetNode, DelSlot, AddSlot, MoveSlot, DelNodeSlots;
    match op
    case BumpEpoch => BumpSound(v);
    case Takeover =>
      BumpSound(v);
      AgreeSized(Bump(v));
      ReplaceMasterEffect(Bump(v));
    case SetSlotNode(j, n, keys) => SetSlotSound(v, j, n, keys);
    case SetConfigEpoch(e) => WithNodeAgrees(v, v.me, v.nodes[v.me].(configEpoch := e));
      EpochOnlyAgrees(WithNode(v, v.me, v.nodes[v.me].(configEpoch := e)), if v.currentEpoch < e then e else v.currentEpoch);
    case Meet(n) => if n !in v.nodes { MeetSound(v, n); }
    case Forget(n) => ForgetSound(v, n);
    case Replicate(n, keys) => ReplicateSound(v, n, keys);
    case _ => SlotOpSound(v, op);
  }

  lemma EpochOnlyAgrees(v: View, e: nat)
    requires Agree(v)
    ensures Agree(v.(currentEpoch := e))
  {
    hide TestBit, CountBits;
  }
}
