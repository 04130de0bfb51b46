/**
 What the steps of a cluster bring about: what a header says, what a PING teaches, when a master votes, what a win
 does, whose votes a winner has, and that a slave with enough willing masters can win.
 */
module ClusterSteps {
  import opened Common
  import opened ClusterModel
  import opened ClusterPackets
  import opened ClusterOps
  import opened ClusterEffects
  import opened ClusterNet
  import opened ClusterElection

  // ---------- configuration ----------

  /** The node a header speaks for: the sender, or the known master of a slave. */
  ghost function Speaker(v: View): Id
    requires v.me in v.nodes
  {
    var x := v.nodes[v.me];
    if !x.master && x.slaveof.Some? && x.slaveof.value in v.nodes then x.slaveof.value else v.me
  }

  lemma HeaderClaims(v: View)
    requires Agree(v)
    ensures v.me in v.nodes &&
            var h := BuildHdr(v);
            && h.sender == v.me && h.currentEpoch == v.currentEpoch && h.slaveof == v.nodes[v.me].slaveof
            && h.configEpoch == v.nodes[Speaker(v)].configEpoch
            && forall j | 0 <= j < SLOTS :: TestBit(h.slots, j) <==> v.slots[j] == Some(Speaker(v))
  {
    hide TestBit, CountBits;
    forall j | 0 <= j < SLOTS ensures TestBit(BuildHdr(v).slots, j) <==> v.slots[j] == Some(Speaker(v)) {
      AgreeAt(v, Speaker(v), j);
    }
  }

  /** Why slot `j` of another master may stay with someone else: it is importing here, or its owner is as new. */
  ghost predicate Withheld(v: View, j: nat, epoch: nat)
    requires Sized(v) && j < SLOTS
  {
    v.importing[j].Some? || (v.slots[j].Some? && OwnerEpoch(v, j) >= epoch)
  }

  ghost function PingMsg(c: Cluster, a: Id, b: Id, id: nat): Msg
    requires Typed(c) && a in c.servers
  {
    Msg(id, b, Config(Ping(BuildHdr(c.servers[a].view))))
  }

  /** A PING of a master, once received, gives it every slot it owns at the receiver, unless the receiver withholds it. */
  lemma PingTeaches(c: Cluster, a: Id, b: Id, id: nat, electorate: nat -> set<Id>)
    requires Typed(c) && a in c.servers && b in c.servers && a != b
    requires var v := c.servers[a].view; a in c.servers[b].view.nodes && v.nodes[a].master && v.nodes[a].slaveof.None?
    ensures Enabled(c, SendPing(a, b, id), electorate)
    ensures var d, m := Apply(c, SendPing(a, b, id), electorate), PingMsg(c, a, b, id);
            && Typed(d) && Enabled(d, Receive(m), electorate)
            && var e := Apply(d, Receive(m), electorate);
               var v, w := c.servers[a].view, c.servers[b].view;
               && e.servers == c.servers[b := c.servers[b].(view := e.servers[b].view)] && e.net == c.net - {m}
               && Sized(v) && Sized(w) && Sized(e.servers[b].view)
               && forall j | 0 <= j < SLOTS && v.slots[j] == Some(a) ::
                    e.servers[b].view.slots[j] == Some(a) || Withheld(w, j, v.nodes[a].configEpoch)
  {
    hide Sound, TestBit, Process, BuildHdr;
    var v, w := c.servers[a].view, c.servers[b].view;
    SoundAgrees(v);
    SoundAgrees(w);
    HeaderClaims(v);
    PingFromMaster(w, BuildHdr(v));
    assert c.net + {PingMsg(c, a, b, id)} - {PingMsg(c, a, b, id)} == c.net - {PingMsg(c, a, b, id)};
  }

  ghost function UpdateMsg(c: Cluster, a: Id, b: Id, about: Id, id: nat): Msg
    requires Typed(c) && a in c.servers && about in c.servers[a].view.nodes
  {
    var v := c.servers[a].view;
    Msg(id, b, Config(Update(BuildHdr(v), about, v.nodes[about].configEpoch, v.nodes[about].slots)))
  }

  /** An UPDATE says what the sender's table says of its subject; `UpdateNews` is what it does at the receiver. */
  lemma UpdateSays(c: Cluster, a: Id, b: Id, about: Id, id: nat, electorate: nat -> set<Id>)
    requires Typed(c) && Enabled(c, SendUpdate(a, b, about, id), electorate)
    ensures var d, v, m := Apply(c, SendUpdate(a, b, about, id), electorate), c.servers[a].view, UpdateMsg(c, a, b, about, id);
            && d == c.(net := c.net + {m}) && m.to == b && m.body.packet.hdr == BuildHdr(v) && m.body.packet.about == about
            && m.body.packet.epoch == v.nodes[about].configEpoch
            && Sized(v) && forall j | 0 <= j < SLOTS :: TestBit(m.body.packet.claimed, j) <==> v.slots[j] == Some(about)
  {
    hide Sound, TestBit, BuildHdr;
    var v := c.servers[a].view;
    SoundAgrees(v);
    forall j | 0 <= j < SLOTS ensures TestBit(v.nodes[about].slots, j) <==> v.slots[j] == Some(about) { AgreeAt(v, about, j); }
  }

  // ---------- votes ----------

  /**
   A master with slots votes for a slave whose epoch is not old, once in an epoch, if the slave's master is down or the
   vote is forced, if it has not voted for that master lately, and if it knows no newer owner of a slot that is claimed.
   */
  ghost predicate Willing(s: Server, hdr: Header, forceAck: bool, masterDown: bool, votedLately: bool) {
    var v := s.view;
    && Sized(v) && v.nodes[v.me].master && (exists j | 0 <= j < SLOTS :: v.slots[j] == Some(v.me))
    && hdr.sender in v.nodes && !v.nodes[hdr.sender].master && v.nodes[hdr.sender].slaveof.Some?
    && v.currentEpoch <= hdr.currentEpoch && s.lastVoteEpoch != hdr.currentEpoch
    && (masterDown || forceAck) && !votedLately
    && forall j | 0 <= j < SLOTS && TestBit(hdr.slots, j) && v.slots[j].Some? :: OwnerEpoch(v, j) <= hdr.configEpoch
  }

  lemma WillingVotes(s: Server, hdr: Header, forceAck: bool, masterDown: bool, votedLately: bool)
    requires Sound(s.view)
    ensures Votes(See(s, hdr), hdr, forceAck, masterDown, votedLately) <==> Willing(s, hdr, forceAck, masterDown, votedLately)
  {
    hide TestBit, Agree, CountBits;
    var v := s.view;
    SoundAgrees(v);
    AgreeSized(v);
    NoSlotsIff(v, v.me);
    if hdr.sender in v.nodes {
      SeeEpochsExact(v, hdr);
      SeeEpochsAgrees(v, hdr);
      AgreeSized(SeeEpochs(v, hdr));
      var w := SeeEpochs(v, hdr);
      forall j | 0 <= j < SLOTS && v.slots[j].Some?
        ensures w.nodes[w.slots[j].value].configEpoch <= hdr.configEpoch <==> OwnerEpoch(v, j) <= hdr.configEpoch
      {
      }
    }
  }

  ghost function AckMsg(c: Cluster, m: Msg, id: nat): Msg
    requires Typed(c) && m.to in c.servers && m.body.AuthRequest? && m.body.hdr.sender in c.servers[m.to].view.nodes
  {
    var w := SeeEpochs(c.servers[m.to].view, m.body.hdr);
    Msg(id, m.body.hdr.sender, AuthAck(BuildHdr(w)))
  }

  /** A request gets the vote, which is then on its way, exactly from a willing master. */
  lemma VoteIff(c: Cluster, m: Msg, down: bool, lately: bool, id: nat, electorate: nat -> set<Id>)
    requires Typed(c) && Enabled(c, ReceiveRequest(m, down, lately, id), electorate)
    ensures var d, s, hdr := Apply(c, ReceiveRequest(m, down, lately, id), electorate), c.servers[m.to], m.body.hdr;
            && d.servers.Keys == c.servers.Keys && (forall n | n in c.servers && n != m.to :: d.servers[n] == c.servers[n])
            && d.counted == c.counted && d.stale == c.stale && d.won == c.won
            && if Willing(s, hdr, m.body.forceAck, down, lately) then
                 && hdr.sender in s.view.nodes
                 && d.granted == c.granted + {Grant(m.to, hdr.currentEpoch, hdr.sender)}
                 && d.servers[m.to] == s.(view := SeeEpochs(s.view, hdr), lastVoteEpoch := hdr.currentEpoch)
                 && d.net == c.net - {m} + {AckMsg(c, m, id)}
               else d.granted == c.granted && d.net == c.net - {m} && d.servers[m.to].lastVoteEpoch == s.lastVoteEpoch
  {
    hide Votes, Willing, Sound, Sized, BuildHdr;
    var s, hdr := c.servers[m.to], m.body.hdr;
    WillingVotes(s, hdr, m.body.forceAck, down, lately);
    WillingKnows(s, hdr, m.body.forceAck, down, lately);
    if hdr.sender in s.view.nodes { SeeEpochsExact(s.view, hdr); }
  }

  lemma WillingKnows(s: Server, hdr: Header, forceAck: bool, masterDown: bool, votedLately: bool)
    ensures Willing(s, hdr, forceAck, masterDown, votedLately) ==>
              hdr.sender in s.view.nodes && s.view.me in s.view.nodes && s.view.currentEpoch <= hdr.currentEpoch
  {
  }

  /** The step at which a vote was given. */
  ghost predicate GrantedAt(cs: seq<Cluster>, steps: seq<Step>, j: nat, g: Grant)
    requires j < |steps| && |cs| == |steps| + 1
  {
    && steps[j].ReceiveRequest? && steps[j].m.to == g.voter && g.voter in cs[j].servers
    && steps[j].m.body.AuthRequest? && steps[j].m.body.hdr.sender == g.candidate
    && steps[j].m.body.hdr.currentEpoch == g.epoch
    && Willing(cs[j].servers[g.voter], steps[j].m.body.hdr, steps[j].m.body.forceAck, steps[j].masterDown,
               steps[j].votedLately)
  }

  lemma StepGrants(c: Cluster, step: Step, electorate: nat -> set<Id>)
    requires Typed(c) && Enabled(c, step, electorate) && !step.ReceiveRequest?
    ensures Apply(c, step, electorate).granted == c.granted
  {
    hide Process, ApplyLocal, ReplaceMaster, BuildHdr, Sound, Sized;
  }

  lemma {:induction false} GrantedByWilling(cs: seq<Cluster>, steps: seq<Step>, electorate: nat -> set<Id>, i: nat, g: Grant)
    returns (j: nat)
    requires Run(cs, steps, electorate) && i <= |steps| && g in cs[i].granted
    ensures j < i && GrantedAt(cs, steps, j, g)
  {
    hide Inv, Typed, Apply, Enabled, Willing;
    if i == 0 {
      assert false;
    } else {
      var c, step := cs[i - 1], steps[i - 1];
      RunInv(cs, steps, electorate, i - 1);
      assert Enabled(c, step, electorate);
      if g in c.granted {
        j := GrantedByWilling(cs, steps, electorate, i - 1, g);
      } else {
        j := i - 1;
        NewGrant(c, step, electorate, g);
      }
    }
  }

  lemma NewGrant(c: Cluster, step: Step, electorate: nat -> set<Id>, g: Grant)
    requires Typed(c) && Enabled(c, step, electorate) && g !in c.granted && g in Apply(c, step, electorate).granted
    ensures step.ReceiveRequest? && step.m.to == g.voter && g.voter in c.servers && step.m.body.AuthRequest?
    ensures step.m.body.hdr.sender == g.candidate && step.m.body.hdr.currentEpoch == g.epoch
    ensures Willing(c.servers[g.voter], step.m.body.hdr, step.m.body.forceAck, step.masterDown, step.votedLately)
  {
    hide Willing, Typed, OnRequest, Votes;
    if step.ReceiveRequest? {
      VoteIff(c, step.m, step.masterDown, step.votedLately, step.id, electorate);
    } else {
      StepGrants(c, step, electorate);
    }
  }

  /** A slave that earned its win was voted for by a majority of masters, each willing when it received the request. */
  lemma WinnerWasWanted(cs: seq<Cluster>, steps: seq<Step>, electorate: nat -> set<Id>, i: nat)
    requires Run(cs, steps, electorate) && i < |steps| && steps[i].Win?
    requires steps[i].node in cs[i].servers && steps[i].node in cs[i].stale && Earned(cs[i], steps[i].node, steps[i].size)
    ensures var n := steps[i].node;
            var e := cs[i].servers[n].authEpoch;
            && Majority(cs[i], n, e, electorate)
            && forall g | g in VotesFor(cs[i].granted, n, e) :: exists j | 0 <= j < i :: GrantedAt(cs, steps, j, g)
  {
    hide Inv, Typed, Apply, GrantedAt;
    var n := steps[i].node;
    var e := cs[i].servers[n].authEpoch;
    RunInv(cs, steps, electorate, i);
    assert Enabled(cs[i], steps[i], electorate);
    WinnerHasMajority(cs[i], n, steps[i].size, electorate);
    forall g | g in VotesFor(cs[i].granted, n, e) ensures exists j | 0 <= j < i :: GrantedAt(cs, steps, j, g) {
      var j := GrantedByWilling(cs, steps, electorate, i, g);
      assert GrantedAt(cs, steps, j, g);
    }
  }

  // ---------- a win ----------

  /**
   The winner takes the epoch of the election.  If it was the slave of a known master, it is a master now and owns that
   master's slots besides its own; nothing else changes, at it or elsewhere.
   */
  lemma WinEffect(c: Cluster, n: Id, size: nat, electorate: nat -> set<Id>)
    requires Typed(c) && Enabled(c, Win(n, size), electorate)
    ensures var d, s := Apply(c, Win(n, size), electorate), c.servers[n];
            var v, w := s.view, d.servers[n].view;
            && d.servers == c.servers[n := s.(view := w)] && d.won == c.won + {(n, s.authEpoch)}
            && d.net == c.net && d.granted == c.granted && d.counted == c.counted && d.stale == c.stale
            && Sized(v) && Agree(w) && Sized(w) && w.me == n && w.currentEpoch == v.currentEpoch && SameSlotStates(v, w)
            && RolesBut(v, w, {n}) && w.nodes[n].configEpoch == Max(v.nodes[n].configEpoch, s.authEpoch)
            && (forall k | k in v.nodes && k != n :: w.nodes[k].configEpoch == v.nodes[k].configEpoch)
            && var m := v.nodes[n].slaveof;
               if !v.nodes[n].master && m.Some? && m.value in v.nodes then
                 && w.nodes[n].master && w.nodes[n].slaveof.None?
                 && forall j | 0 <= j < SLOTS :: w.slots[j] == if v.slots[j] == m then Some(n) else v.slots[j]
               else w.slots == v.slots && SameRole(v, w, n)
  {
    hide ReplaceMaster, Agree, TestBit;
    var s := c.servers[n];
    var v := s.view;
    SoundAgrees(v);
    AgreeSized(v);
    var u := if v.nodes[n].configEpoch < s.authEpoch then WithNode(v, n, v.nodes[n].(configEpoch := s.authEpoch)) else v;
    WithNodeAgrees(v, n, v.nodes[n].(configEpoch := s.authEpoch));
    AgreeSized(u);
    ReplaceMasterEffect(u);
    ReplaceMasterRole(u);
  }

  // ---------- an election that succeeds ----------

  /** What the candidate asks with once its election has begun. */
  ghost function Request(s: Server): Header
    requires s.view.me in s.view.nodes
  {
    BuildHdr(AtEpoch(s.view, s.view.currentEpoch + 1))
  }

  /** The candidate knows the voter as a master with slots. */
  ghost predicate Counted(s: Server, r: Id) {
    r in s.view.nodes && s.view.nodes[r].master && s.view.nodes[r].numslots > 0
  }

  lemma {:induction false} FreshId(net: set<Msg>) returns (id: nat)
    ensures forall m | m in net :: m.id < id
  {
    if net == {} {
      id := 0;
    } else {
      var m :| m in net;
      var i := FreshId(net - {m});
      id := if m.id < i then i else m.id + 1;
    }
  }

  /** Where the election stands: these voters have not answered yet, and the rest have been counted. */
  ghost predicate Pending(c: Cluster, n: Id, hdr: Header, forceAck: bool, id: nat, left: set<Id>, count: nat) {
    && n in c.servers && n !in left && hdr.sender == n
    && c.servers[n].authSent && c.servers[n].authCount >= count
    && c.servers[n].authEpoch == hdr.currentEpoch && c.servers[n].view.currentEpoch == hdr.currentEpoch
    && forall r | r in left ::
         && r in c.servers && Willing(c.servers[r], hdr, forceAck, true, false) && Counted(c.servers[n], r)
         && Msg(id, r, AuthRequest(hdr, forceAck)) in c.net
  }

  /** A voter receives the request and votes. */
  lemma VoterVotes(c: Cluster, n: Id, hdr: Header, forceAck: bool, id: nat, left: set<Id>, count: nat, r: Id, ackId: nat,
                   electorate: nat -> set<Id>)
    requires Typed(c) && Pending(c, n, hdr, forceAck, id, left, count) && r in left && r in electorate(hdr.currentEpoch)
    requires forall m | m in c.net :: m.id < ackId
    ensures var m := Msg(id, r, AuthRequest(hdr, forceAck));
            && Enabled(c, ReceiveRequest(m, true, false, ackId), electorate) && n in c.servers[r].view.nodes
            && var d := Apply(c, ReceiveRequest(m, true, false, ackId), electorate);
               && AckMsg(c, m, ackId) in d.net && d.servers[n] == c.servers[n]
               && Pending(d, n, hdr, forceAck, id, left - {r}, count)
  {
    hide Typed, Votes, Willing, Apply, OnRequest, BuildHdr, Counted;
    var m := Msg(id, r, AuthRequest(hdr, forceAck));
    TypedSound(c, r);
    WillingKnows(c.servers[r], hdr, forceAck, true, false);
    WillingVotes(c.servers[r], hdr, forceAck, true, false);
    SeeEpochsExact(c.servers[r].view, hdr);
    VoteIff(c, m, true, false, ackId, electorate);
  }

  lemma TypedSound(c: Cluster, n: Id)
    requires Typed(c) && n in c.servers
    ensures Sound(c.servers[n].view) && c.servers[n].view.me == n && n in c.servers[n].view.nodes
    ensures c.stale.Keys == c.servers.Keys
  {
  }

  /** The vote arrives and is counted. */
  lemma VoteArrives(c: Cluster, n: Id, hdr: Header, forceAck: bool, id: nat, left: set<Id>, count: nat, ack: Msg,
                    electorate: nat -> set<Id>)
    requires Typed(c) && Pending(c, n, hdr, forceAck, id, left, count) && ack in c.net && ack.to == n && ack.body.AuthAck?
    requires ack.body.hdr.currentEpoch == hdr.currentEpoch && Counted(c.servers[n], ack.body.hdr.sender)
    ensures Enabled(c, ReceiveAck(ack), electorate)
    ensures Pending(Apply(c, ReceiveAck(ack), electorate), n, hdr, forceAck, id, left, count + 1)
  {
    hide Typed, Votes, Willing, BuildHdr;
    TypedSound(c, n);
    SeeEpochsExact(c.servers[n].view, ack.body.hdr);
  }

  /** One more of the voters that are left answers, and its vote is counted. */
  lemma OneVote(cs: seq<Cluster>, steps: seq<Step>, electorate: nat -> set<Id>, n: Id, hdr: Header, forceAck: bool, id: nat,
                left: set<Id>, count: nat, r: Id)
    returns (ds: seq<Cluster>, ts: seq<Step>)
    requires Run(cs, steps, electorate) && |cs| == |steps| + 1 && Pending(cs[|steps|], n, hdr, forceAck, id, left, count)
    requires left <= electorate(hdr.currentEpoch) && r in left
    ensures Run(ds, ts, electorate) && |ds| == |ts| + 1 && cs <= ds && steps <= ts
    ensures Pending(ds[|ts|], n, hdr, forceAck, id, left - {r}, count + 1)
  {
    hide Run, Typed, Pending, Apply, Enabled, Willing, Counted;
    var c := cs[|steps|];
    RunInv(cs, steps, electorate, |steps|);
    var ackId := FreshId(c.net);
    var m := Msg(id, r, AuthRequest(hdr, forceAck));
    VoterVotes(c, n, hdr, forceAck, id, left, count, r, ackId, electorate);
    PendingKnows(c, n, hdr, forceAck, id, left, count, r);
    var s1, ack := ReceiveRequest(m, true, false, ackId), AckMsg(c, m, ackId);
    var c1 := Apply(c, s1, electorate);
    AckSays(c, m, ackId);
    Extend(cs, steps, s1, c1, electorate);
    RunInv(cs + [c1], steps + [s1], electorate, |steps| + 1);
    VoteArrives(c1, n, hdr, forceAck, id, left - {r}, count, ack, electorate);
    var c2 := Apply(c1, ReceiveAck(ack), electorate);
    Extend(cs + [c1], steps + [s1], ReceiveAck(ack), c2, electorate);
    ds, ts := cs + [c1] + [c2], steps + [s1] + [ReceiveAck(ack)];
  }

  /** The answers of the voters that are left come in one after the other. */
  lemma {:induction false} VotesComeIn(cs: seq<Cluster>, steps: seq<Step>, electorate: nat -> set<Id>, n: Id, hdr: Header,
                                       forceAck: bool, id: nat, left: set<Id>, count: nat)
    returns (ds: seq<Cluster>, ts: seq<Step>)
    requires Run(cs, steps, electorate) && |cs| == |steps| + 1 && Pending(cs[|steps|], n, hdr, forceAck, id, left, count)
    requires left <= electorate(hdr.currentEpoch)
    ensures Run(ds, ts, electorate) && |ds| == |ts| + 1 && cs <= ds && steps <= ts
    ensures Pending(ds[|ts|], n, hdr, forceAck, id, {}, count + |left|)
    decreases |left|
  {
    hide Run, Pending;
    if left == {} {
      ds, ts := cs, steps;
    } else {
      var r :| r in left;
      ds, ts := OneVote(cs, steps, electorate, n, hdr, forceAck, id, left, count, r);
      ds, ts := VotesComeIn(ds, ts, electorate, n, hdr, forceAck, id, left - {r}, count + 1);
    }
  }

  lemma PendingKnows(c: Cluster, n: Id, hdr: Header, forceAck: bool, id: nat, left: set<Id>, count: nat, r: Id)
    requires Pending(c, n, hdr, forceAck, id, left, count) && r in left
    ensures n in c.servers && r in c.servers && hdr.sender == n && Counted(c.servers[n], r)
    ensures c.servers[r].view.currentEpoch <= hdr.currentEpoch && n in c.servers[r].view.nodes
  {
    hide Counted;
  }

  /** A vote carries the voter's name and the epoch of the request. */
  lemma AckSays(c: Cluster, m: Msg, id: nat)
    requires Typed(c) && m.to in c.servers && m.body.AuthRequest? && m.body.hdr.sender in c.servers[m.to].view.nodes
    requires c.servers[m.to].view.currentEpoch <= m.body.hdr.currentEpoch
    ensures var ack := AckMsg(c, m, id);
            ack.to == m.body.hdr.sender && ack.body.AuthAck?
            && ack.body.hdr.sender == m.to && ack.body.hdr.currentEpoch == m.body.hdr.currentEpoch
  {
    hide Typed;
    TypedSound(c, m.to);
    SeeEpochsExact(c.servers[m.to].view, m.body.hdr);
  }

  /** The candidate begins: its count is reset, its epoch goes up, and the voters are asked. */
  lemma ElectionBegins(c: Cluster, n: Id, voters: set<Id>, forceAck: bool, id: nat, electorate: nat -> set<Id>)
    requires Typed(c) && n in c.servers && n !in voters && n in c.servers[n].view.nodes && c.servers[n].view.me == n
    requires forall r | r in voters ::
               r in c.servers && Willing(c.servers[r], Request(c.servers[n]), forceAck, true, false) && Counted(c.servers[n], r)
    ensures Enabled(c, Schedule(n), electorate)
    ensures var d := Apply(c, Schedule(n), electorate);
            && Typed(d) && Enabled(d, StartElection(n, voters, forceAck, id), electorate)
            && var e := Apply(d, StartElection(n, voters, forceAck, id), electorate);
               Pending(e, n, Request(c.servers[n]), forceAck, id, voters, 0)
  {
    hide Sound, Sized, Willing;
    var d := Apply(c, Schedule(n), electorate);
    var hdr := Request(c.servers[n]);
    var e := Apply(d, StartElection(n, voters, forceAck, id), electorate);
    forall r | r in voters ensures Msg(id, r, AuthRequest(hdr, forceAck)) in e.net { }
  }

  /**
   Every run in which enough masters are willing to vote for a slave, and are masters with slots to it, can go on so that the
   slave wins the election of its next epoch.
   */
  lemma ElectionCanSucceed(cs: seq<Cluster>, steps: seq<Step>, electorate: nat -> set<Id>, n: Id, voters: set<Id>,
                           forceAck: bool, size: nat)
    returns (ds: seq<Cluster>, ts: seq<Step>)
    requires Run(cs, steps, electorate) && |cs| == |steps| + 1 && n in cs[|steps|].servers && n !in voters
    requires var c := cs[|steps|];
             && n in c.servers[n].view.nodes && c.servers[n].view.me == n
             && (forall r | r in voters ::
                   r in c.servers && Willing(c.servers[r], Request(c.servers[n]), forceAck, true, false) && Counted(c.servers[n], r))
             && voters <= electorate(c.servers[n].view.currentEpoch + 1)
             && size >= |electorate(c.servers[n].view.currentEpoch + 1)|
    requires |voters| >= size / 2 + 1
    ensures Run(ds, ts + [Win(n, size)], electorate) && cs <= ds && steps <= ts && |ds| == |ts| + 2
    ensures (n, cs[|steps|].servers[n].view.currentEpoch + 1) in ds[|ts| + 1].won
  {
    hide Run, Typed, Apply, Enabled, Willing, Counted, Pending;
    var c := cs[|steps|];
    var hdr := Request(c.servers[n]);
    RunInv(cs, steps, electorate, |steps|);
    ElectionBegins(c, n, voters, forceAck, 0, electorate);
    var d := Apply(c, Schedule(n), electorate);
    Extend(cs, steps, Schedule(n), d, electorate);
    var start := StartElection(n, voters, forceAck, 0);
    var e := Apply(d, start, electorate);
    Extend(cs + [d], steps + [Schedule(n)], start, e, electorate);
    ds, ts := VotesComeIn(cs + [d] + [e], steps + [Schedule(n)] + [start], electorate, n, hdr, forceAck, 0, voters, 0);
    RunInv(ds, ts, electorate, |ts|);
    QuorumReached(ds[|ts|], n, hdr, forceAck, size, |voters|, electorate);
    WinRecords(ds[|ts|], n, size, electorate);
    Extend(ds, ts, Win(n, size), Apply(ds[|ts|], Win(n, size), electorate), electorate);
    ds := ds + [Apply(ds[|ts|], Win(n, size), electorate)];
  }

  lemma QuorumReached(c: Cluster, n: Id, hdr: Header, forceAck: bool, size: nat, count: nat, electorate: nat -> set<Id>)
    requires Pending(c, n, hdr, forceAck, 0, {}, count) && count >= size / 2 + 1 && size >= |electorate(hdr.currentEpoch)|
    ensures Enabled(c, Win(n, size), electorate) && c.servers[n].authEpoch == hdr.currentEpoch
  {
  }
}
