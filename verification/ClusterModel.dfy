/**
 One node's view of a Redis Cluster: the nodes it knows with their slot bitmaps, the slot table,
 and the epochs.  A node pointer is the node's identifier; NULL is None.
 */
module ClusterModel {
  import opened Common
  import opened Octets

  const SLOTS := 16384

  /** A node name; names are compared as `memcmp` does, by a total order. */
  type Id = nat

  // ---------- slot bitmaps ----------

  type Bitmap = b: seq<bv8> | |b| == SLOTS / 8 witness seq(SLOTS / 8, _ => 0)

  predicate TestBit(b: Bitmap, pos: nat)
    requires pos < SLOTS
  {
    ByteHas(b[pos / 8], pos % 8)
  }

  function SetBit(b: Bitmap, pos: nat): Bitmap
    requires pos < SLOTS
  {
    b[pos / 8 := ByteSet(b[pos / 8], pos % 8)]
  }

  function ClearBit(b: Bitmap, pos: nat): Bitmap
    requires pos < SLOTS
  {
    b[pos / 8 := ByteClear(b[pos / 8], pos % 8)]
  }

  /** Setting or clearing one position changes no other. */
  lemma BitAfterSet(b: Bitmap, p: nat, q: nat)
    requires p < SLOTS && q < SLOTS
    ensures TestBit(SetBit(b, p), q) == (p == q || TestBit(b, q))
    ensures TestBit(ClearBit(b, p), q) == (p != q && TestBit(b, q))
  {
    hide ByteHas, ByteSet, ByteClear;
    ByteBits(b[p / 8], p % 8, q % 8);
  }

  /** The number of set bits below position `k`. */
  function CountBits(b: Bitmap, k: nat): (n: nat)
    requires k <= SLOTS
    ensures n <= k
  {
    if k == 0 then 0 else CountBits(b, k - 1) + if TestBit(b, k - 1) then 1 else 0
  }

  lemma {:induction false} CountAfterSet(b: Bitmap, p: nat, k: nat)
    requires p < SLOTS && k <= SLOTS
    ensures CountBits(SetBit(b, p), k) == CountBits(b, k) + if p < k && !TestBit(b, p) then 1 else 0
    ensures CountBits(ClearBit(b, p), k) == CountBits(b, k) - if p < k && TestBit(b, p) then 1 else 0
  {
    hide TestBit, SetBit, ClearBit;
    if k > 0 {
      CountAfterSet(b, p, k - 1);
      BitAfterSet(b, p, k - 1);
    }
  }

  // ---------- the view ----------

  datatype Node = Node(configEpoch: nat, master: bool, slaveof: Option<Id>, slots: Bitmap, numslots: nat)

  datatype View = View(me: Id, currentEpoch: nat, nodes: map<Id, Node>,
                       slots: seq<Option<Id>>, importing: seq<Option<Id>>, migrating: seq<Option<Id>>)

  ghost predicate Sized(v: View) {
    && |v.slots| == SLOTS && |v.importing| == SLOTS && |v.migrating| == SLOTS
    && v.me in v.nodes
    && forall j | 0 <= j < SLOTS && v.slots[j].Some? :: v.slots[j].value in v.nodes
  }

  ghost predicate SameRole(v: View, w: View, n: Id) {
    n in v.nodes && n in w.nodes && w.nodes[n].master == v.nodes[n].master && w.nodes[n].slaveof == v.nodes[n].slaveof
  }

  /** The slot table and the bitmaps say the same, and every counter counts its bitmap. */
  ghost predicate Agree(v: View) {
    && Sized(v)
    && (forall n, j | n in v.nodes && 0 <= j < SLOTS :: TestBit(v.nodes[n].slots, j) <==> v.slots[j] == Some(n))
    && (forall n | n in v.nodes :: v.nodes[n].numslots == CountBits(v.nodes[n].slots, SLOTS))
  }

  // ---------- slot operations ----------

  /** `clusterAddSlot`; a slot that is taken is left alone. */
  function AddSlot(v: View, n: Id, j: nat): View
    requires j < SLOTS && j < |v.slots| && n in v.nodes
  {
    if v.slots[j].Some? then v
    else
      var x := v.nodes[n];
      var was := TestBit(x.slots, j);
      v.(slots := v.slots[j := Some(n)],
         nodes := v.nodes[n := x.(slots := SetBit(x.slots, j), numslots := x.numslots + if was then 0 else 1)])
  }

  /** `clusterDelSlot`. */
  function DelSlot(v: View, j: nat): View
    requires j < SLOTS && j < |v.slots|
  {
    if v.slots[j].None? || v.slots[j].value !in v.nodes then v
    else
      var n := v.slots[j].value;
      var x := v.nodes[n];
      var was := TestBit(x.slots, j);
      v.(slots := v.slots[j := None],
         nodes := v.nodes[n := x.(slots := ClearBit(x.slots, j),
                                  numslots := if was && x.numslots > 0 then x.numslots - 1 else x.numslots)])
  }

  lemma DelSlotAgrees(v: View, j: nat)
    requires Agree(v) && j < SLOTS
    ensures Agree(DelSlot(v, j))
    ensures v.slots[j].Some? ==> TestBit(v.nodes[v.slots[j].value].slots, j)
    ensures DelSlot(v, j).slots == v.slots[j := None]
  {
    hide TestBit, SetBit, ClearBit, CountBits;
    if v.slots[j].Some? {
      var n := v.slots[j].value;
      var x := v.nodes[n];
      CountAfterSet(x.slots, j, SLOTS);
      forall q | 0 <= q < SLOTS { BitAfterSet(x.slots, j, q); }
    } else {
      assert v.slots[j := None] == v.slots;
    }
  }

  lemma AddSlotAgrees(v: View, n: Id, j: nat)
    requires Agree(v) && j < SLOTS && n in v.nodes
    ensures Agree(AddSlot(v, n, j))
    ensures v.slots[j].None? ==> AddSlot(v, n, j).slots == v.slots[j := Some(n)]
  {
    hide TestBit, SetBit, ClearBit, CountBits;
    if v.slots[j].None? {
      var x := v.nodes[n];
      CountAfterSet(x.slots, j, SLOTS);
      forall q | 0 <= q < SLOTS { BitAfterSet(x.slots, j, q); }
    }
  }

  /** Everything but the slot table, the bitmaps and their counters is unchanged. */
  ghost predicate SameHeads(v: View, w: View) {
    && w.me == v.me && w.currentEpoch == v.currentEpoch
    && w.importing == v.importing && w.migrating == v.migrating
    && w.nodes.Keys == v.nodes.Keys
    && forall n | n in v.nodes ::
         && w.nodes[n].configEpoch == v.nodes[n].configEpoch
         && w.nodes[n].master == v.nodes[n].master && w.nodes[n].slaveof == v.nodes[n].slaveof
  }

  /** `clusterDelSlot(j); clusterAddSlot(n, j);` */
  function MoveSlot(v: View, n: Id, j: nat): View
    requires j < SLOTS && j < |v.slots| && n in v.nodes
  {
    AddSlot(DelSlot(v, j), n, j)
  }

  lemma MoveSlotAgrees(v: View, n: Id, j: nat)
    requires Agree(v) && j < SLOTS && n in v.nodes
    ensures Agree(MoveSlot(v, n, j)) && SameHeads(v, MoveSlot(v, n, j))
    ensures MoveSlot(v, n, j).slots == v.slots[j := Some(n)]
  {
    hide Agree, TestBit, SetBit, ClearBit;
    AgreeSized(v);
    DelSlotAgrees(v, j);
    var w := DelSlot(v, j);
    AgreeSized(w);
    AddSlotAgrees(w, n, j);
  }

  lemma AgreeSized(v: View)
    requires Agree(v)
    ensures Sized(v)
  {
  }

  /** `clusterDelNodeSlots`, from slot `j` on. */
  function DelNodeSlots(v: View, n: Id, j: nat := 0): View
    requires |v.slots| == SLOTS && n in v.nodes
    decreases SLOTS - j
  {
    if j >= SLOTS then v
    else DelNodeSlots(if TestBit(v.nodes[n].slots, j) then DelSlot(v, j) else v, n, j + 1)
  }

  lemma {:induction false} DelNodeSlotsEffect(v: View, n: Id, j: nat)
    requires Agree(v) && n in v.nodes && j <= SLOTS
    ensures Agree(DelNodeSlots(v, n, j)) && SameHeads(v, DelNodeSlots(v, n, j))
    ensures forall q | 0 <= q < SLOTS ::
              DelNodeSlots(v, n, j).slots[q] == if q >= j && v.slots[q] == Some(n) then None else v.slots[q]
    decreases SLOTS - j
  {
    hide TestBit, SetBit, ClearBit, CountBits, Agree;
    AgreeSized(v);
    if j < SLOTS {
      AgreeAt(v, n, j);
      var w := if TestBit(v.nodes[n].slots, j) then DelSlot(v, j) else v;
      DelSlotAgrees(v, j);
      AgreeSized(w);
      DelNodeSlotsEffect(w, n, j + 1);
    }
  }

  lemma AgreeAt(v: View, n: Id, j: nat)
    requires Agree(v) && n in v.nodes && j < SLOTS
    ensures TestBit(v.nodes[n].slots, j) <==> v.slots[j] == Some(n)
  {
  }

  /** The slot loop of `clusterFailoverReplaceYourMaster`, from slot `j` on. */
  function ClaimSlots(v: View, oldmaster: Id, j: nat := 0): View
    requires |v.slots| == SLOTS && oldmaster in v.nodes && v.me in v.nodes
    decreases SLOTS - j
  {
    if j >= SLOTS then v
    else ClaimSlots(if TestBit(v.nodes[oldmaster].slots, j) then MoveSlot(v, v.me, j) else v, oldmaster, j + 1)
  }

  /** Taking over a master moves exactly its slots; every other slot keeps its owner. */
  lemma {:induction false} ClaimSlotsEffect(v: View, oldmaster: Id, j: nat)
    requires Agree(v) && oldmaster in v.nodes && oldmaster != v.me && j <= SLOTS
    ensures Agree(ClaimSlots(v, oldmaster, j)) && SameHeads(v, ClaimSlots(v, oldmaster, j))
    ensures forall q | 0 <= q < SLOTS ::
              ClaimSlots(v, oldmaster, j).slots[q] == if q >= j && v.slots[q] == Some(oldmaster) then Some(v.me) else v.slots[q]
    decreases SLOTS - j
  {
    hide TestBit, SetBit, ClearBit, CountBits, Agree, MoveSlot;
    AgreeSized(v);
    if j < SLOTS {
      AgreeAt(v, oldmaster, j);
      var w := if TestBit(v.nodes[oldmaster].slots, j) then MoveSlot(v, v.me, j) else v;
      MoveSlotAgrees(v, v.me, j);
      AgreeSized(w);
      ClaimSlotsEffect(w, oldmaster, j + 1);
    }
  }

  lemma HasSlot(v: View, n: Id, j: nat)
    requires Agree(v) && j < SLOTS && v.slots[j] == Some(n)
    ensures n in v.nodes && TestBit(v.nodes[n].slots, j) && v.nodes[n].numslots > 0
  {
    CountPositive(v.nodes[n].slots, j, SLOTS);
  }

  lemma {:induction false} CountPositive(b: Bitmap, j: nat, k: nat)
    requires j < k <= SLOTS && TestBit(b, j)
    ensures CountBits(b, k) > 0
  {
    hide TestBit;
    if j < k - 1 { CountPositive(b, j, k - 1); }
  }

  lemma {:induction false} NoCount(b: Bitmap, k: nat)
    requires k <= SLOTS && forall j | 0 <= j < k :: !TestBit(b, j)
    ensures CountBits(b, k) == 0
  {
    hide TestBit;
    if k > 0 { NoCount(b, k - 1); }
  }

  /** A node's counter is zero exactly when the table gives it no slot. */
  lemma NoSlotsIff(v: View, n: Id)
    requires Agree(v) && n in v.nodes
    ensures v.nodes[n].numslots == 0 <==> forall j | 0 <= j < SLOTS :: v.slots[j] != Some(n)
  {
    hide TestBit, CountBits;
    if j :| 0 <= j < SLOTS && v.slots[j] == Some(n) {
      HasSlot(v, n, j);
    } else {
      forall j | 0 <= j < SLOTS ensures !TestBit(v.nodes[n].slots, j) { AgreeAt(v, n, j); }
      NoCount(v.nodes[n].slots, SLOTS);
    }
  }

  // ---------- clusterUpdateSlotsConfigWith ----------

  /** The condition under which slot `j` is rebound to the sender. */
  predicate Rebinds(v: View, sender: Id, epoch: nat, claimed: Bitmap, j: nat)
    requires j < SLOTS && |v.slots| == SLOTS && |v.importing| == SLOTS
    requires v.slots[j].Some? ==> v.slots[j].value in v.nodes
  {
    && TestBit(claimed, j)
    && v.slots[j] != Some(sender)
    && v.importing[j].None?
    && (v.slots[j].None? || v.nodes[v.slots[j].value].configEpoch < epoch)
  }

  /** The slot loop, from slot `j` on; the flag is `newmaster`. */
  function Rebind(v: View, sender: Id, epoch: nat, claimed: Bitmap, curmaster: Option<Id>, newmaster: bool,
                  j: nat := 0): (View, bool)
    requires |v.slots| == SLOTS && |v.importing| == SLOTS && sender in v.nodes
    requires forall q | 0 <= q < SLOTS && v.slots[q].Some? :: v.slots[q].value in v.nodes
    decreases SLOTS - j
  {
    if j >= SLOTS then (v, newmaster)
    else if Rebinds(v, sender, epoch, claimed, j) then
      Rebind(MoveSlot(v, sender, j), sender, epoch, claimed, curmaster,
             newmaster || v.slots[j] == curmaster, j + 1)
    else Rebind(v, sender, epoch, claimed, curmaster, newmaster, j + 1)
  }

  /** `clusterSetMaster`. */
  function SetMaster(v: View, n: Id): View
    requires v.me in v.nodes
  {
    var x := v.nodes[v.me];
    var w := if x.master then v.(importing := seq(|v.importing|, _ => None), migrating := seq(|v.migrating|, _ => None))
             else v;
    w.(nodes := w.nodes[v.me := x.(master := false, slaveof := Some(n))])
  }

  /** `curmaster`: this node, or the node it replicates; None is the NULL that the source does not test for. */
  function CurMaster(v: View): Option<Id>
    requires v.me in v.nodes
  {
    if v.nodes[v.me].master then Some(v.me) else v.nodes[v.me].slaveof
  }

  /** The view after `clusterUpdateSlotsConfigWith`, when it does not crash. */
  function UpdateSlots(v: View, sender: Id, epoch: nat, claimed: Bitmap): View
    requires |v.slots| == SLOTS && |v.importing| == SLOTS && sender in v.nodes && v.me in v.nodes
    requires forall q | 0 <= q < SLOTS && v.slots[q].Some? :: v.slots[q].value in v.nodes
  {
    if sender == v.me then v
    else
      var cur := CurMaster(v);
      var (w, newmaster) := Rebind(v, sender, epoch, claimed, cur, false);
      if newmaster && cur.Some? && cur.value in w.nodes && w.nodes[cur.value].numslots == 0 && w.me in w.nodes
      then SetMaster(w, sender) else w
  }

  /** `curmaster->numslots` is read through a NULL pointer. */
  predicate ReadsNullMaster(v: View, sender: Id, epoch: nat, claimed: Bitmap)
    requires |v.slots| == SLOTS && |v.importing| == SLOTS && sender in v.nodes && v.me in v.nodes
    requires forall q | 0 <= q < SLOTS && v.slots[q].Some? :: v.slots[q].value in v.nodes
  {
    sender != v.me && CurMaster(v).None? && Rebind(v, sender, epoch, claimed, None, false).1
  }

  lemma {:induction false} RebindSlots(v: View, sender: Id, epoch: nat, claimed: Bitmap, cur: Option<Id>,
                                       newmaster: bool, j: nat)
    requires Agree(v) && sender in v.nodes && j <= SLOTS
    ensures var w := Rebind(v, sender, epoch, claimed, cur, newmaster, j).0;
            && Agree(w) && SameHeads(v, w)
            && forall q | 0 <= q < SLOTS ::
                 w.slots[q] == if q >= j && Rebinds(v, sender, epoch, claimed, q) then Some(sender) else v.slots[q]
    decreases SLOTS - j
  {
    hide TestBit, SetBit, ClearBit, CountBits, Agree, MoveSlot, Rebinds;
    AgreeSized(v);
    if j < SLOTS {
      var w := if Rebinds(v, sender, epoch, claimed, j) then MoveSlot(v, sender, j) else v;
      MoveSlotAgrees(v, sender, j);
      AgreeSized(w);
      var nm := if Rebinds(v, sender, epoch, claimed, j) then newmaster || v.slots[j] == cur else newmaster;
      RebindSlots(w, sender, epoch, claimed, cur, nm, j + 1);
      forall q | j < q < SLOTS
        ensures Rebinds(w, sender, epoch, claimed, q) == Rebinds(v, sender, epoch, claimed, q)
      {
        OtherSlotRebinds(v, w, sender, epoch, claimed, q);
      }
    }
  }

  /** Slot `q` is taken from `cur`. */
  ghost predicate Taken(v: View, sender: Id, epoch: nat, claimed: Bitmap, cur: Option<Id>, q: nat)
    requires Sized(v) && q < SLOTS
  {
    Rebinds(v, sender, epoch, claimed, q) && v.slots[q] == cur
  }

  lemma {:induction false} RebindFlag(v: View, sender: Id, epoch: nat, claimed: Bitmap, cur: Option<Id>,
                                      newmaster: bool, j: nat)
    requires Agree(v) && Sized(v) && sender in v.nodes && j <= SLOTS
    ensures Rebind(v, sender, epoch, claimed, cur, newmaster, j).1 <==>
            newmaster || exists q | j <= q < SLOTS :: Taken(v, sender, epoch, claimed, cur, q)
    decreases SLOTS - j
  {
    hide TestBit, SetBit, ClearBit, CountBits, Agree, MoveSlot, Rebinds;
    if j < SLOTS {
      var w := if Rebinds(v, sender, epoch, claimed, j) then MoveSlot(v, sender, j) else v;
      MoveSlotAgrees(v, sender, j);
      AgreeSized(w);
      RebindFlag(w, sender, epoch, claimed, cur, newmaster || Taken(v, sender, epoch, claimed, cur, j), j + 1);
      forall q | j < q < SLOTS
        ensures Taken(w, sender, epoch, claimed, cur, q) == Taken(v, sender, epoch, claimed, cur, q)
      {
        OtherSlotRebinds(v, w, sender, epoch, claimed, q);
      }
    }
  }

  lemma RebindEffect(v: View, sender: Id, epoch: nat, claimed: Bitmap, cur: Option<Id>, newmaster: bool, j: nat)
    requires Agree(v) && sender in v.nodes && j <= SLOTS
    ensures var w := Rebind(v, sender, epoch, claimed, cur, newmaster, j).0;
            && Agree(w) && SameHeads(v, w)
            && forall q | 0 <= q < SLOTS ::
                 w.slots[q] == if q >= j && Rebinds(v, sender, epoch, claimed, q) then Some(sender) else v.slots[q]
    ensures Rebind(v, sender, epoch, claimed, cur, newmaster, j).1 <==>
            newmaster || exists q | j <= q < SLOTS :: Taken(v, sender, epoch, claimed, cur, q)
  {
    hide Agree, Rebind, Rebinds;
    AgreeSized(v);
    RebindSlots(v, sender, epoch, claimed, cur, newmaster, j);
    RebindFlag(v, sender, epoch, claimed, cur, newmaster, j);
  }

  /** Moving one slot does not change whether another is rebound. */
  lemma OtherSlotRebinds(v: View, w: View, sender: Id, epoch: nat, claimed: Bitmap, q: nat)
    requires Sized(v) && Sized(w) && SameHeads(v, w) && q < SLOTS && w.slots[q] == v.slots[q]
    ensures Rebinds(w, sender, epoch, claimed, q) == Rebinds(v, sender, epoch, claimed, q)
  {
    hide TestBit;
  }

  /** The NULL read happens exactly when a slave without a known master is told of an unassigned slot. */
  lemma NullMasterIff(v: View, sender: Id, epoch: nat, claimed: Bitmap)
    requires Agree(v) && sender in v.nodes
    ensures ReadsNullMaster(v, sender, epoch, claimed) <==>
            && sender != v.me && !v.nodes[v.me].master && v.nodes[v.me].slaveof.None?
            && exists j :: 0 <= j < SLOTS && TestBit(claimed, j) && v.slots[j].None? && v.importing[j].None?
  {
    hide TestBit, Agree, Rebind;
    AgreeSized(v);
    RebindEffect(v, sender, epoch, claimed, None, false, 0);
    if j :| 0 <= j < SLOTS && TestBit(claimed, j) && v.slots[j].None? && v.importing[j].None? {
      assert Taken(v, sender, epoch, claimed, None, j);
    }
  }
}
