/**
 A whole cluster: the nodes with their views and election fields, the messages in flight, and the
 history of votes.  Every handler of cluster.c that touches epochs or votes is a step; time, failure
 flags, message loss and the choice of the next step are free.
 */
module ClusterNet {
  import opened ClusterModel
  import opened ClusterPackets
  import opened ClusterOps

  datatype Server = Server(view: View, lastVoteEpoch: nat, authEpoch: nat, authCount: nat, authSent: bool)

  datatype Body =
    | Config(packet: Packet)
    | AuthRequest(hdr: Header, forceAck: bool)
    | AuthAck(hdr: Header)

  /** A message; `id` tells apart messages with the same content. */
  datatype Msg = Msg(id: nat, to: Id, body: Body)

  /** The vote of a master for a slave in an epoch. */
  datatype Grant = Grant(voter: Id, epoch: nat, candidate: Id)

  /**
   `granted` and `counted` record votes sent and votes added to a counter, `stale` the additions made
   since the last reset while no request was out, and `won` the elections that reached a quorum.
   */
  datatype Cluster = Cluster(servers: map<Id, Server>, net: set<Msg>, granted: set<Grant>, counted: set<Grant>,
                             stale: map<Id, nat>, won: set<(Id, nat)>)

  datatype Step =
    | SendPing(from: Id, to: Id, id: nat)
    | SendUpdate(from: Id, to: Id, about: Id, id: nat)
    | Receive(m: Msg)
    | ReceiveRequest(m: Msg, masterDown: bool, votedLately: bool, id: nat)
    | ReceiveAck(m: Msg)
    | Lose(m: Msg)
    | Schedule(node: Id)
    | StartElection(node: Id, voters: set<Id>, forceAck: bool, id: nat)
    | Win(node: Id, size: nat)
    | Local(node: Id, op: LocalOp)

  // ---------- handlers ----------

  /** `clusterBuildMessageHdr`: a slave sends its master's slots and epoch. */
  function BuildHdr(v: View): Header
    requires v.me in v.nodes
  {
    var x := v.nodes[v.me];
    var m := if !x.master && x.slaveof.Some? && x.slaveof.value in v.nodes then v.nodes[x.slaveof.value] else x;
    Header(v.me, v.currentEpoch, m.configEpoch, m.slots, x.slaveof)
  }

  /** The conditions of `clusterSendFailoverAuthIfNeeded`, once the request's epoch has been seen. */
  ghost predicate Votes(s: Server, hdr: Header, forceAck: bool, masterDown: bool, votedLately: bool) {
    var v := s.view;
    && Sized(v) && hdr.sender in v.nodes
    && v.nodes[v.me].master && v.nodes[v.me].numslots > 0
    && hdr.currentEpoch >= v.currentEpoch
    && s.lastVoteEpoch != v.currentEpoch
    && !v.nodes[hdr.sender].master && v.nodes[hdr.sender].slaveof.Some?
    && (masterDown || forceAck)
    && !votedLately
    && forall j | 0 <= j < SLOTS && TestBit(hdr.slots, j) && v.slots[j].Some? ::
         v.nodes[v.slots[j].value].configEpoch <= hdr.configEpoch
  }

  /** An ACK counts if its sender is a master with slots whose epoch is not older than the election. */
  predicate Counts(s: Server, hdr: Header)
    requires hdr.sender in s.view.nodes
  {
    var x := s.view.nodes[hdr.sender];
    x.master && x.numslots > 0 && hdr.currentEpoch >= s.authEpoch
  }

  function HdrOf(b: Body): Header {
    match b
    case Config(p) => p.hdr
    case AuthRequest(h, _) => h
    case AuthAck(h) => h
  }

  /** Epochs are taken from every message of a known sender. */
  function See(s: Server, hdr: Header): Server {
    if hdr.sender in s.view.nodes then s.(view := SeeEpochs(s.view, hdr)) else s
  }

  function WithServer(c: Cluster, n: Id, s: Server): Cluster {
    c.(servers := c.servers[n := s])
  }

  ghost function Send(c: Cluster, ms: set<Msg>): Cluster {
    c.(net := c.net + ms)
  }

  ghost function Consume(c: Cluster, m: Msg): Cluster {
    c.(net := c.net - {m})
  }

  /** The master side of an election. */
  ghost function OnRequest(c: Cluster, m: Msg, masterDown: bool, votedLately: bool, id: nat): Cluster
    requires m.to in c.servers && m.body.AuthRequest?
  {
    var hdr := m.body.hdr;
    var s := See(c.servers[m.to], hdr);
    var d := Consume(c, m);
    if !Votes(s, hdr, m.body.forceAck, masterDown, votedLately) then WithServer(d, m.to, s)
    else
      var g := Grant(m.to, s.view.currentEpoch, hdr.sender);
      var ack := Msg(id, hdr.sender, AuthAck(BuildHdr(s.view)));
      Cluster(d.servers[m.to := s.(lastVoteEpoch := s.view.currentEpoch)], d.net + {ack},
              d.granted + {g}, d.counted, d.stale, d.won)
  }

  /** The slave side: the counter goes up. */
  ghost function OnAck(c: Cluster, m: Msg): Cluster
    requires m.to in c.servers && m.body.AuthAck? && m.to in c.stale
  {
    var hdr := m.body.hdr;
    var s := See(c.servers[m.to], hdr);
    var d := Consume(c, m);
    if hdr.sender !in s.view.nodes || !Counts(s, hdr) then WithServer(d, m.to, s)
    else
      Cluster(d.servers[m.to := s.(authCount := s.authCount + 1)], d.net, d.granted,
              d.counted + {Grant(hdr.sender, hdr.currentEpoch, m.to)},
              if s.authSent then d.stale else d.stale[m.to := d.stale[m.to] + 1], d.won)
  }

  /** "Ask for votes if needed": a new epoch, and the counter as it is. */
  ghost function OnStart(c: Cluster, n: Id, to: set<Id>, forceAck: bool, id: nat): Cluster
    requires n in c.servers && c.servers[n].view.me in c.servers[n].view.nodes
  {
    var s := c.servers[n];
    var v := AtEpoch(s.view, s.view.currentEpoch + 1);
    var ms := set r | r in to :: Msg(id, r, AuthRequest(BuildHdr(v), forceAck));
    Send(WithServer(c, n, s.(view := v, authEpoch := v.currentEpoch, authSent := true)), ms)
  }

  /** The quorum is reached: take the election's epoch, then the master's slots. */
  ghost function OnWin(c: Cluster, n: Id): Cluster
    requires n in c.servers && Sized(c.servers[n].view)
  {
    var s := c.servers[n];
    var v := s.view;
    var x := v.nodes[v.me];
    var w := if x.configEpoch < s.authEpoch then WithNode(v, v.me, x.(configEpoch := s.authEpoch)) else v;
    WithServer(c, n, s.(view := ReplaceMaster(w))).(won := c.won + {(n, s.authEpoch)})
  }

  /** When a step can be taken; a node has no link to itself.  `electorate` is the set of masters that can vote in each epoch. */
  ghost predicate Enabled(c: Cluster, step: Step, electorate: nat -> set<Id>) {
    match step
    case SendPing(from, to, id) => from in c.servers && to in c.servers && from != to
    case SendUpdate(from, to, about, id) =>
      from in c.servers && to in c.servers && from != to && about in c.servers[from].view.nodes
    case Receive(m) => m in c.net && m.to in c.servers && m.body.Config?
    case ReceiveRequest(m, down, lately, id) =>
      && m in c.net && m.to in c.servers && m.body.AuthRequest?
      && (forall x | x in c.net :: x.id != id)
      && (Votes(See(c.servers[m.to], m.body.hdr), m.body.hdr, m.body.forceAck, down, lately) ==>
            m.to in electorate(See(c.servers[m.to], m.body.hdr).view.currentEpoch))
    case ReceiveAck(m) => m in c.net && m.to in c.servers && m.body.AuthAck?
    case Lose(m) => m in c.net
    case Schedule(n) => n in c.servers
    case StartElection(n, to, forceAck, id) => n in c.servers && !c.servers[n].authSent
    case Win(n, size) =>
      && n in c.servers && c.servers[n].authSent
      && c.servers[n].authCount >= size / 2 + 1
      && size >= |electorate(c.servers[n].authEpoch)|
    case Local(n, op) => n in c.servers
  }

  ghost predicate Typed(c: Cluster) {
    && c.stale.Keys == c.servers.Keys
    && forall n | n in c.servers :: c.servers[n].view.me == n && Sound(c.servers[n].view) && Sized(c.servers[n].view)
  }

  ghost function Apply(c: Cluster, step: Step, electorate: nat -> set<Id>): Cluster
    requires Typed(c) && Enabled(c, step, electorate)
  {
    match step
    case SendPing(from, to, id) => Send(c, {Msg(id, to, Config(Ping(BuildHdr(c.servers[from].view))))})
    case SendUpdate(from, to, about, id) =>
      var v := c.servers[from].view;
      var x := v.nodes[about];
      Send(c, {Msg(id, to, Config(Update(BuildHdr(v), about, x.configEpoch, x.slots)))})
    case Receive(m) =>
      var s := c.servers[m.to];
      WithServer(Consume(c, m), m.to, s.(view := Process(s.view, m.body.packet)))
    case ReceiveRequest(m, down, lately, id) => OnRequest(c, m, down, lately, id)
    case ReceiveAck(m) => OnAck(c, m)
    case Lose(m) => Consume(c, m)
    case Schedule(n) =>
      WithServer(c, n, c.servers[n].(authCount := 0, authSent := false)).(stale := c.stale[n := 0])
    case StartElection(n, to, forceAck, id) => OnStart(c, n, to, forceAck, id)
    case Win(n, size) => OnWin(c, n)
    case Local(n, op) => WithServer(c, n, c.servers[n].(view := ApplyLocal(c.servers[n].view, op)))
  }

  // ---------- the invariant ----------

  ghost predicate HdrDominated(h: Header) {
    h.configEpoch <= h.currentEpoch
  }

  ghost predicate BodyDominated(b: Body) {
    HdrDominated(HdrOf(b)) && (b.Config? ==> PacketDominated(b.packet))
  }

  /** Every configuration epoch, at a node or in flight, is at most the current epoch beside it. */
  ghost predicate EpochsDominated(c: Cluster) {
    Typed(c) && forall m | m in c.net :: BodyDominated(m.body)
  }

  /** A node's election and vote epochs are not ahead of its current epoch. */
  ghost predicate Paced(s: Server) {
    s.lastVoteEpoch <= s.view.currentEpoch && s.authEpoch <= s.view.currentEpoch
  }

  ghost predicate AllPaced(c: Cluster) {
    forall n | n in c.servers :: Paced(c.servers[n])
  }

  /** One vote for each master and epoch, none newer than the last vote recorded. */
  ghost predicate VotesUnique(c: Cluster, electorate: nat -> set<Id>) {
    && (forall g | g in c.granted :: g.voter in electorate(g.epoch))
    && (forall g | g in c.granted && g.voter in c.servers :: g.epoch <= c.servers[g.voter].lastVoteEpoch)
    && (forall g | g in c.granted :: g.voter in c.servers)
    && (forall g, h | g in c.granted && h in c.granted && g.voter == h.voter && g.epoch == h.epoch :: g == h)
  }

  /** Requests and votes for a slave are not newer than its latest election. */
  ghost predicate RequestsOld(c: Cluster) {
    && (forall g | g in c.granted && g.candidate in c.servers :: g.epoch <= c.servers[g.candidate].authEpoch)
    && (forall m | m in c.net && m.body.AuthRequest? && m.body.hdr.sender in c.servers ::
          m.body.hdr.currentEpoch <= c.servers[m.body.hdr.sender].authEpoch)
  }

  ghost function AckGrant(m: Msg): Grant
    requires m.body.AuthAck?
  {
    Grant(m.body.hdr.sender, m.body.hdr.currentEpoch, m.to)
  }

  /** Each vote is in flight at most once, and not after it has been counted. */
  ghost predicate AcksOnce(c: Cluster) {
    && c.counted <= c.granted
    && (forall m | m in c.net && m.body.AuthAck? :: AckGrant(m) in c.granted && AckGrant(m) !in c.counted)
    && (forall m, k | m in c.net && k in c.net && m.body.AuthAck? && k.body.AuthAck? && AckGrant(m) == AckGrant(k) :: m == k)
  }

  ghost function VotesFor(gs: set<Grant>, n: Id, e: nat): set<Grant> {
    set g | g in gs && g.candidate == n && g.epoch == e
  }

  /** The counter holds the votes of this election, and whatever came in before the request went out. */
  ghost predicate CountExact(c: Cluster, n: Id)
    requires n in c.servers && n in c.stale
  {
    var s := c.servers[n];
    s.authCount == c.stale[n] + if s.authSent then |VotesFor(c.counted, n, s.authEpoch)| else 0
  }

  ghost predicate CountsExact(c: Cluster) {
    c.stale.Keys == c.servers.Keys && forall n | n in c.servers :: CountExact(c, n)
  }

  ghost predicate Inv(c: Cluster, electorate: nat -> set<Id>) {
    && EpochsDominated(c) && AllPaced(c)
    && VotesUnique(c, electorate) && RequestsOld(c) && AcksOnce(c) && CountsExact(c)
  }

  ghost predicate Init(c: Cluster) {
    && Typed(c) && c.net == {} && c.granted == {} && c.counted == {} && c.won == {}
    && forall n | n in c.servers ::
         && c.stale[n] == 0
         && c.servers[n] == Server(c.servers[n].view, 0, 0, 0, false)
  }

  // ---------- every step keeps the invariant ----------

  lemma ViewChange(c: Cluster, n: Id, v: View, electorate: nat -> set<Id>)
    requires Inv(c, electorate) && n in c.servers && KeepsSound(c.servers[n].view, v)
    ensures Inv(WithServer(c, n, c.servers[n].(view := v)), electorate)
  {
    hide Sound, Sized, BodyDominated, VotesUnique, RequestsOld, AcksOnce, CountsExact;
    SoundSized(v);
    ViewChangeVotes(c, n, v, electorate);
  }

  /** The election part of the invariant does not look at views. */
  lemma ViewChangeVotes(c: Cluster, n: Id, v: View, electorate: nat -> set<Id>)
    requires n in c.servers
    requires VotesUnique(c, electorate) && RequestsOld(c) && AcksOnce(c) && CountsExact(c)
    ensures var d := WithServer(c, n, c.servers[n].(view := v));
            VotesUnique(d, electorate) && RequestsOld(d) && AcksOnce(d) && CountsExact(d)
  {
    var d := WithServer(c, n, c.servers[n].(view := v));
    forall k | k in d.servers ensures CountExact(d, k) { assert CountExact(c, k); }
  }

  lemma SoundSized(v: View)
    requires Sound(v)
    ensures Sized(v)
  {
    SoundAgrees(v);
    AgreeSized(v);
  }

  lemma SoundAgrees(v: View)
    requires Sound(v)
    ensures Agree(v)
  {
  }

  lemma ConsumeKeeps(c: Cluster, m: Msg, electorate: nat -> set<Id>)
    requires Inv(c, electorate)
    ensures Inv(Consume(c, m), electorate)
  {
    hide Sound, Sized, BodyDominated;
    assert forall k | k in c.servers :: CountExact(c, k);
    assert CountsExact(Consume(c, m));
  }

  lemma SendConfigKeeps(c: Cluster, m: Msg, electorate: nat -> set<Id>)
    requires Inv(c, electorate) && m.body.Config? && BodyDominated(m.body)
    ensures Inv(Send(c, {m}), electorate)
  {
    hide Sound, Sized, BodyDominated;
    assert forall k | k in c.servers :: CountExact(c, k);
    assert CountsExact(Send(c, {m}));
  }

  lemma BuildHdrDominated(v: View)
    requires Sound(v) && Sized(v)
    ensures HdrDominated(BuildHdr(v)) && BuildHdr(v).sender == v.me && BuildHdr(v).currentEpoch == v.currentEpoch
  {
    hide Agree, Sized;
    assert v.me in v.nodes by { AgreeSized(v); MeKnown(v); }
  }

  lemma MeKnown(v: View)
    requires Sized(v)
    ensures v.me in v.nodes
  {
  }

  lemma SeeKeepsSound(v: View, hdr: Header)
    requires Sound(v) && HdrDominated(hdr) && hdr.sender in v.nodes
    ensures KeepsSound(v, SeeEpochs(v, hdr)) && SeeEpochs(v, hdr).currentEpoch >= hdr.currentEpoch
  {
    hide Agree;
    SeeEpochsAgrees(v, hdr);
  }

  lemma SeeKeeps(c: Cluster, n: Id, hdr: Header, electorate: nat -> set<Id>)
    requires Inv(c, electorate) && n in c.servers && HdrDominated(hdr)
    ensures Inv(WithServer(c, n, See(c.servers[n], hdr)), electorate)
  {
    hide Inv, Sound, Sized, SeeEpochs;
    if hdr.sender in c.servers[n].view.nodes {
      assert Sound(c.servers[n].view) by { InvServer(c, n, electorate); }
      SeeKeepsSound(c.servers[n].view, hdr);
      ViewChange(c, n, SeeEpochs(c.servers[n].view, hdr), electorate);
    } else {
      assert WithServer(c, n, c.servers[n]) == c;
    }
  }

  lemma InvServer(c: Cluster, n: Id, electorate: nat -> set<Id>)
    requires Inv(c, electorate) && n in c.servers
    ensures Sound(c.servers[n].view) && Sized(c.servers[n].view) && c.servers[n].view.me == n && n in c.stale
    ensures n in c.servers[n].view.nodes
  {
    hide Sound;
  }

  /** The state after a master has recorded a vote and sent it. */
  ghost function RecordVote(c: Cluster, n: Id, hdr: Header, id: nat): Cluster
    requires n in c.servers && c.servers[n].view.me in c.servers[n].view.nodes
  {
    var s := c.servers[n];
    Cluster(c.servers[n := s.(lastVoteEpoch := s.view.currentEpoch)],
            c.net + {Msg(id, hdr.sender, AuthAck(BuildHdr(s.view)))},
            c.granted + {Grant(n, s.view.currentEpoch, hdr.sender)}, c.counted, c.stale, c.won)
  }

  lemma RecordVoteKeeps(c: Cluster, n: Id, hdr: Header, id: nat, electorate: nat -> set<Id>)
    requires Inv(c, electorate) && n in c.servers && n in c.servers[n].view.nodes
    requires n in electorate(c.servers[n].view.currentEpoch)
    requires c.servers[n].lastVoteEpoch != c.servers[n].view.currentEpoch
    requires hdr.sender in c.servers ==> c.servers[n].view.currentEpoch <= c.servers[hdr.sender].authEpoch
    requires c.servers[n].view.me == n && forall x | x in c.net :: x.id != id
    ensures Inv(RecordVote(c, n, hdr, id), electorate)
  {
    hide Sound, Sized, BuildHdr, CountsExact, VotesUnique, AcksOnce;
    BuildHdrDominated(c.servers[n].view);
    RecordVoteCounts(c, n, hdr, id);
    RecordVoteUnique(c, n, hdr, id, electorate);
  }

  lemma RecordVoteCounts(c: Cluster, n: Id, hdr: Header, id: nat)
    requires CountsExact(c) && n in c.servers && c.servers[n].view.me in c.servers[n].view.nodes
    ensures CountsExact(RecordVote(c, n, hdr, id))
  {
    var d := RecordVote(c, n, hdr, id);
    forall k | k in d.servers ensures CountExact(d, k) { assert CountExact(c, k); }
  }

  lemma RecordVoteUnique(c: Cluster, n: Id, hdr: Header, id: nat, electorate: nat -> set<Id>)
    requires VotesUnique(c, electorate) && AcksOnce(c) && n in c.servers && Paced(c.servers[n])
    requires c.servers[n].view.me == n && n in c.servers[n].view.nodes
    requires n in electorate(c.servers[n].view.currentEpoch)
    requires c.servers[n].lastVoteEpoch != c.servers[n].view.currentEpoch
    ensures VotesUnique(RecordVote(c, n, hdr, id), electorate) && AcksOnce(RecordVote(c, n, hdr, id))
  {
    var e := c.servers[n].view.currentEpoch;
    assert forall h | h in c.granted && h.voter == n :: h.epoch < e;
    assert BuildHdr(c.servers[n].view).sender == n && BuildHdr(c.servers[n].view).currentEpoch == e;
  }

  lemma OnRequestKeeps(c: Cluster, m: Msg, down: bool, lately: bool, id: nat, electorate: nat -> set<Id>)
    requires Inv(c, electorate) && Enabled(c, ReceiveRequest(m, down, lately, id), electorate)
    ensures Inv(OnRequest(c, m, down, lately, id), electorate)
  {
    hide Inv, SeeEpochs, BuildHdr, TestBit, Sized;
    var hdr := m.body.hdr;
    assert HdrDominated(hdr) by { InvBody(c, m, electorate); }
    var s := See(c.servers[m.to], hdr);
    ConsumeKeeps(c, m, electorate);
    SeeKeeps(Consume(c, m), m.to, hdr, electorate);
    var d := WithServer(Consume(c, m), m.to, s);
    if Votes(s, hdr, m.body.forceAck, down, lately) {
      InvServer(d, m.to, electorate);
      RequestEpoch(c, m, electorate);
      RecordVoteKeeps(d, m.to, hdr, id, electorate);
      assert OnRequest(c, m, down, lately, id) == RecordVote(d, m.to, hdr, id);
    }
  }

  lemma InvBody(c: Cluster, m: Msg, electorate: nat -> set<Id>)
    requires Inv(c, electorate) && m in c.net
    ensures BodyDominated(m.body) && HdrDominated(HdrOf(m.body))
  {
  }

  lemma RequestEpoch(c: Cluster, m: Msg, electorate: nat -> set<Id>)
    requires Inv(c, electorate) && m in c.net && m.body.AuthRequest?
    ensures m.body.hdr.sender in c.servers ==> m.body.hdr.currentEpoch <= c.servers[m.body.hdr.sender].authEpoch
  {
  }

  lemma ScheduleKeeps(c: Cluster, n: Id, electorate: nat -> set<Id>)
    requires Inv(c, electorate) && n in c.servers
    ensures Inv(WithServer(c, n, c.servers[n].(authCount := 0, authSent := false)).(stale := c.stale[n := 0]), electorate)
  {
    hide Sound, Sized, BodyDominated;
    var d := WithServer(c, n, c.servers[n].(authCount := 0, authSent := false)).(stale := c.stale[n := 0]);
    forall k | k in d.servers ensures CountExact(d, k) { assert CountExact(c, k); }
  }

  /** A counted ACK carries exactly the epoch of the election it is counted in. */
  lemma CountedEpoch(c: Cluster, m: Msg, electorate: nat -> set<Id>)
    requires Inv(c, electorate) && m in c.net && m.to in c.servers && m.body.AuthAck?
    requires m.body.hdr.currentEpoch >= c.servers[m.to].authEpoch
    ensures m.body.hdr.currentEpoch == c.servers[m.to].authEpoch
    ensures AckGrant(m) in c.granted && AckGrant(m) !in c.counted
  {
  }

  ghost function AddVote(c: Cluster, n: Id, g: Grant): Cluster
    requires n in c.servers && n in c.stale
  {
    var s := c.servers[n];
    Cluster(c.servers[n := s.(authCount := s.authCount + 1)], c.net, c.granted, c.counted + {g},
            if s.authSent then c.stale else c.stale[n := c.stale[n] + 1], c.won)
  }

  lemma AddVoteCounts(c: Cluster, n: Id, g: Grant)
    requires CountsExact(c) && n in c.servers && n in c.stale
    requires g !in c.counted && g.candidate == n && g.epoch == c.servers[n].authEpoch
    ensures CountsExact(AddVote(c, n, g))
  {
    var d := AddVote(c, n, g);
    forall k | k in d.servers ensures CountExact(d, k) {
      assert CountExact(c, k);
      var e := c.servers[k].authEpoch;
      if k == n {
        assert VotesFor(d.counted, k, e) == VotesFor(c.counted, k, e) + {g};
      } else {
        assert VotesFor(d.counted, k, e) == VotesFor(c.counted, k, e);
      }
    }
  }

  lemma AddVoteKeeps(c: Cluster, n: Id, g: Grant, electorate: nat -> set<Id>)
    requires Inv(c, electorate) && n in c.servers && n in c.stale
    requires g in c.granted && g !in c.counted && g.candidate == n && g.epoch == c.servers[n].authEpoch
    requires forall m | m in c.net && m.body.AuthAck? :: AckGrant(m) != g
    ensures Inv(AddVote(c, n, g), electorate)
  {
    hide Sound, Sized, BodyDominated, CountsExact;
    AddVoteCounts(c, n, g);
  }

  lemma OnAckKeeps(c: Cluster, m: Msg, electorate: nat -> set<Id>)
    requires Inv(c, electorate) && Enabled(c, ReceiveAck(m), electorate) && m.to in c.stale
    ensures Inv(OnAck(c, m), electorate)
  {
    hide Inv, SeeEpochs, Sized;
    var hdr := m.body.hdr;
    assert HdrDominated(hdr) by { InvBody(c, m, electorate); }
    var s := See(c.servers[m.to], hdr);
    ConsumeKeeps(c, m, electorate);
    SeeKeeps(Consume(c, m), m.to, hdr, electorate);
    var d := WithServer(Consume(c, m), m.to, s);
    if hdr.sender in s.view.nodes && Counts(s, hdr) {
      CountedEpoch(c, m, electorate);
      assert forall k | k in d.net && k.body.AuthAck? :: AckGrant(k) != AckGrant(m) by { AckUnique(c, m, electorate); }
      AddVoteKeeps(d, m.to, AckGrant(m), electorate);
      assert OnAck(c, m) == AddVote(d, m.to, AckGrant(m));
    }
  }

  lemma AckUnique(c: Cluster, m: Msg, electorate: nat -> set<Id>)
    requires Inv(c, electorate) && m in c.net && m.body.AuthAck?
    ensures forall k | k in c.net - {m} && k.body.AuthAck? :: AckGrant(k) != AckGrant(m)
  {
  }

  lemma EpochSound(v: View, e: nat)
    requires Sound(v) && e >= v.currentEpoch
    ensures KeepsSound(v, AtEpoch(v, e))
  {
    EpochOnlyAgrees(v, e);
  }

  lemma OnStartKeeps(c: Cluster, n: Id, to: set<Id>, forceAck: bool, id: nat, electorate: nat -> set<Id>)
    requires Inv(c, electorate) && n in c.servers && !c.servers[n].authSent && n in c.servers[n].view.nodes
    requires c.servers[n].view.me == n
    ensures Inv(OnStart(c, n, to, forceAck, id), electorate)
  {
    hide Sound, Sized, BuildHdr;
    var s := c.servers[n];
    var v := AtEpoch(s.view, s.view.currentEpoch + 1);
    EpochSound(s.view, s.view.currentEpoch + 1);
    SoundSized(v);
    BuildHdrDominated(v);
    var d := OnStart(c, n, to, forceAck, id);
    forall k | k in d.servers ensures CountExact(d, k) {
      assert CountExact(c, k);
      if k == n { assert VotesFor(d.counted, n, v.currentEpoch) == {}; }
    }
    assert RequestsOld(d) && AcksOnce(d);
  }

  lemma WinSound(v: View, e: nat)
    requires Sound(v) && Sized(v) && e <= v.currentEpoch
    ensures var x := v.nodes[v.me];
            var w := if x.configEpoch < e then WithNode(v, v.me, x.(configEpoch := e)) else v;
            Sized(w) && KeepsSound(v, ReplaceMaster(w)) && ReplaceMaster(w).nodes[v.me].configEpoch >= e
  {
    hide Agree, ReplaceMaster;
    var x := v.nodes[v.me];
    var w := if x.configEpoch < e then WithNode(v, v.me, x.(configEpoch := e)) else v;
    WithNodeAgrees(v, v.me, x.(configEpoch := e));
    AgreeSized(w);
    ReplaceMasterEffect(w);
  }

  lemma OnWinKeeps(c: Cluster, n: Id, electorate: nat -> set<Id>)
    requires Inv(c, electorate) && n in c.servers && Sized(c.servers[n].view)
    ensures Inv(OnWin(c, n), electorate)
  {
    hide Inv, Sound, Sized, ReplaceMaster;
    InvServer(c, n, electorate);
    assert Paced(c.servers[n]) by { InvPaced(c, n, electorate); }
    WinSound(c.servers[n].view, c.servers[n].authEpoch);
    var d := OnWin(c, n);
    ViewChange(c, n, d.servers[n].view, electorate);
    InvIgnoresWon(d, c.won, electorate);
  }

  lemma InvPaced(c: Cluster, n: Id, electorate: nat -> set<Id>)
    requires Inv(c, electorate) && n in c.servers
    ensures Paced(c.servers[n])
  {
  }

  lemma InvIgnoresWon(c: Cluster, won: set<(Id, nat)>, electorate: nat -> set<Id>)
    requires Inv(c.(won := won), electorate)
    ensures Inv(c, electorate)
  {
    hide Sound, Sized, BodyDominated;
    var d := c.(won := won);
    forall k | k in c.servers ensures CountExact(c, k) { assert CountExact(d, k); }
  }

  lemma ReceiveKeeps(c: Cluster, m: Msg, electorate: nat -> set<Id>)
    requires Inv(c, electorate) && m in c.net && m.to in c.servers && m.body.Config? && Agree(c.servers[m.to].view)
    ensures Inv(WithServer(Consume(c, m), m.to, c.servers[m.to].(view := Process(c.servers[m.to].view, m.body.packet))), electorate)
  {
    hide Inv, Agree, Process, Sized;
    InvServer(c, m.to, electorate);
    InvBody(c, m, electorate);
    ProcessProgress(c.servers[m.to].view, m.body.packet);
    ConsumeKeeps(c, m, electorate);
    ViewChange(Consume(c, m), m.to, Process(c.servers[m.to].view, m.body.packet), electorate);
  }

  lemma SendUpdateKeeps(c: Cluster, from: Id, to: Id, about: Id, id: nat, electorate: nat -> set<Id>)
    requires Inv(c, electorate) && from in c.servers && about in c.servers[from].view.nodes
    requires from in c.servers[from].view.nodes && c.servers[from].view.me == from
    ensures var v := c.servers[from].view;
            var x := v.nodes[about];
            Inv(Send(c, {Msg(id, to, Config(Update(BuildHdr(v), about, x.configEpoch, x.slots)))}), electorate)
    ensures Inv(Send(c, {Msg(id, to, Config(Ping(BuildHdr(c.servers[from].view))))}), electorate)
  {
    hide Inv, Agree, Sized, BuildHdr;
    InvServer(c, from, electorate);
    var v := c.servers[from].view;
    var x := v.nodes[about];
    BuildHdrDominated(v);
    SendConfigKeeps(c, Msg(id, to, Config(Update(BuildHdr(v), about, x.configEpoch, x.slots))), electorate);
    SendConfigKeeps(c, Msg(id, to, Config(Ping(BuildHdr(v)))), electorate);
  }

  lemma InvTyped(c: Cluster, electorate: nat -> set<Id>)
    requires Inv(c, electorate)
    ensures Typed(c)
  {
  }

  lemma StepKeepsInv(c: Cluster, step: Step, electorate: nat -> set<Id>)
    requires Inv(c, electorate) && Typed(c) && Enabled(c, step, electorate)
    ensures Inv(Apply(c, step, electorate), electorate)
  {
    hide Inv, Agree, Sized, Process, ApplyLocal, OnRequest, OnAck, OnStart, OnWin, BuildHdr, Votes, Dominated;
    match step
    case SendPing(from, to, id) => InvServer(c, from, electorate); SendUpdateKeeps(c, from, to, from, id, electorate);
    case SendUpdate(from, to, about, id) => InvServer(c, from, electorate); SendUpdateKeeps(c, from, to, about, id, electorate);
    case Receive(m) => ReceiveKeeps(c, m, electorate);
    case ReceiveRequest(m, down, lately, id) => OnRequestKeeps(c, m, down, lately, id, electorate);
    case ReceiveAck(m) => OnAckKeeps(c, m, electorate);
    case Lose(m) => ConsumeKeeps(c, m, electorate);
    case Schedule(n) => ScheduleKeeps(c, n, electorate);
    case StartElection(n, to, forceAck, id) => InvServer(c, n, electorate); OnStartKeeps(c, n, to, forceAck, id, electorate);
    case Win(n, size) => OnWinKeeps(c, n, electorate);
    case Local(n, op) =>
      InvServer(c, n, electorate);
      LocalSound(c.servers[n].view, op);
      ViewChange(c, n, ApplyLocal(c.servers[n].view, op), electorate);
  }
}
