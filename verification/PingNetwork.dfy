/**
  Many nodes pinging each other: over every run, what has been recorded, acknowledged and replied to.
 */
module PingNetwork {
  import opened Messages
  import opened ControlProtocol

  type Address = (string, nat)

  function AddressOf(n: NodeRecord): Address { (n.ip, n.port) }

  /** One node: its message id counter, and its pings by what became of them. */
  datatype Peer = Peer(self: NodeRecord, nextId: nat, recorded: set<PingMessage>, outstanding: set<PingMessage>,
                       acknowledged: set<PingMessage>)

  /** `wire` holds every message ever sent: it may be delivered at any time, any number of times, or
      never. */
  datatype Network = Network(peers: map<Address, Peer>, wire: set<PingMessage>)

  datatype Event =
    | Ping(at: Address, target: NodeRecord)
    /** A message arrives; `first` is the matching ping that the iteration over the set meets first. */
    | Receive(at: Address, message: PingMessage, first: PingMessage)

  function Next(n: Network, e: Event): Network {
    if e.at !in n.peers then n else
      var p := n.peers[e.at];
      match e
      case Ping(at, target) =>
        var m := PingMessage(p.self, target, 0, p.nextId);
        if SameNode(target, p.self) then
          n.(peers := n.peers[at := p.(nextId := p.nextId + 1)])
        else
          Network(n.peers[at := p.(nextId := p.nextId + 1, recorded := p.recorded + {m},
                                   outstanding := p.outstanding + {m})],
                  n.wire + {m})
      case Receive(at, m, first) =>
        if m !in n.wire || AddressOf(m.receiver) != at then n
        else if m.isReply != 0 then
          if first in p.outstanding && SamePing(first, m) then
            n.(peers := n.peers[at := p.(outstanding := p.outstanding - {first},
                                         acknowledged := p.acknowledged + {first})])
          else n
        else if SameNode(m.sender, p.self) then n
        else n.(wire := n.wire + {Reply(m, p.self)})
  }

  function Run(n: Network, events: seq<Event>): Network
    decreases |events|
  {
    if events == [] then n else Run(Next(n, events[0]), events[1..])
  }

  /** Nobody has pinged anybody. */
  ghost predicate Initial(n: Network) {
    && n.wire == {}
    && forall a :: a in n.peers ==> n.peers[a] == Peer(n.peers[a].self, 0, {}, {}, {}) && AddressOf(n.peers[a].self) == a
  }

  ghost predicate Arrives(r: Network, at: Address, m: PingMessage) {
    at in r.peers && m in r.wire && AddressOf(m.receiver) == at
  }

  // ----- the invariant

  ghost predicate PeerValid(a: Address, p: Peer) {
    && AddressOf(p.self) == a
    && p.recorded == p.outstanding + p.acknowledged
    && p.outstanding !! p.acknowledged
    && (forall m :: m in p.recorded ==> m.sender == p.self && m.isReply == 0 && m.messageId < p.nextId)
    && (forall m, k :: m in p.recorded && k in p.recorded && m.messageId == k.messageId ==> m == k)
  }

  /** q is a recorded ping of the node that the reply m is addressed to, answered by the node pinged. */
  predicate Answers(n: Network, m: PingMessage, q: PingMessage) {
    var a := AddressOf(m.receiver);
    && a in n.peers && q in n.peers[a].recorded
    && m == Reply(q, m.sender) && SameNode(m.sender, q.receiver)
  }

  /** A request was recorded by its sender; a reply answers a request. */
  ghost predicate Justified(n: Network, m: PingMessage) {
    if m.isReply == 0 then AddressOf(m.sender) in n.peers && m in n.peers[AddressOf(m.sender)].recorded
    else exists q :: q in n.wire && Answers(n, m, q)
  }

  ghost predicate WireValid(n: Network) {
    forall m :: m in n.wire ==> Justified(n, m)
  }

  ghost predicate Answered(n: Network, q: PingMessage) {
    exists m :: m in n.wire && m.isReply == 1 && Answers(n, m, q)
  }

  ghost predicate AcksAnswered(n: Network) {
    forall a, q :: a in n.peers && q in n.peers[a].acknowledged ==> Answered(n, q)
  }

  ghost predicate Valid(n: Network) {
    (forall a :: a in n.peers ==> PeerValid(a, n.peers[a])) && WireValid(n) && AcksAnswered(n)
  }

  /** A reply compares equal to exactly one recorded ping of its addressee, the one it answers. */
  lemma ReplyMatchesOne(n: Network, m: PingMessage, q: PingMessage)
    requires Valid(n) && m in n.wire && m.isReply != 0
    requires AddressOf(m.receiver) in n.peers && q in n.peers[AddressOf(m.receiver)].recorded
    ensures SamePing(q, m) <==> Answers(n, m, q)
    ensures SamePing(q, m) <==> q.messageId == m.messageId
  {
  }

  /** A ping with the next id equals none that is recorded, so the set always takes it in. */
  lemma NextPingIsNew(n: Network, at: Address, target: NodeRecord)
    requires Valid(n) && at in n.peers
    ensures var p := n.peers[at];
      forall q :: q in p.recorded ==>
        !SamePing(q, PingMessage(p.self, target, 0, p.nextId)) && !SamePing(PingMessage(p.self, target, 0, p.nextId), q)
  {
    assert PeerValid(at, n.peers[at]);
  }

  /** Nothing recorded or sent is ever forgotten. */
  ghost predicate Grows(n: Network, t: Network) {
    && t.peers.Keys == n.peers.Keys
    && n.wire <= t.wire
    && forall a :: a in n.peers ==> n.peers[a].self == t.peers[a].self && n.peers[a].recorded <= t.peers[a].recorded
  }

  lemma JustifiedStays(n: Network, t: Network, m: PingMessage)
    requires Grows(n, t) && Justified(n, m)
    ensures Justified(t, m)
  {
    if m.isReply != 0 {
      var q :| q in n.wire && Answers(n, m, q);
      assert Answers(t, m, q);
    }
  }

  lemma AnsweredStays(n: Network, t: Network, q: PingMessage)
    requires Grows(n, t) && Answered(n, q)
    ensures Answered(t, q)
  {
    var m :| m in n.wire && m.isReply == 1 && Answers(n, m, q);
    assert Answers(t, m, q);
  }

  /** A step that changes one peer, adds at most one justified message, and acknowledges only answered
      pings keeps the invariant. */
  lemma StepKeeps(n: Network, t: Network, at: Address, m: PingMessage)
    requires Valid(n) && Grows(n, t) && at in n.peers
    requires forall a :: a in n.peers && a != at ==> t.peers[a] == n.peers[a]
    requires PeerValid(at, t.peers[at])
    requires t.wire <= n.wire + {m} && (m in t.wire ==> Justified(t, m))
    requires forall q :: q in t.peers[at].acknowledged - n.peers[at].acknowledged ==> Answered(n, q)
    ensures Valid(t)
  {
    WireKeeps(n, t, m);
    AcksKeep(n, t, at);
    hide WireValid, AcksAnswered, Justified, Answered;
    forall a | a in t.peers
      ensures PeerValid(a, t.peers[a])
    {
      assert a != at ==> PeerValid(a, n.peers[a]);
    }
    hide PeerValid;
  }

  lemma WireKeeps(n: Network, t: Network, m: PingMessage)
    requires WireValid(n) && Grows(n, t)
    requires t.wire <= n.wire + {m} && (m in t.wire ==> Justified(t, m))
    ensures WireValid(t)
  {
    forall k | k in t.wire
      ensures Justified(t, k)
    {
      if k != m {
        JustifiedStays(n, t, k);
      }
    }
    hide Justified;
  }

  lemma AcksKeep(n: Network, t: Network, at: Address)
    requires AcksAnswered(n) && Grows(n, t) && at in n.peers
    requires forall a :: a in n.peers && a != at ==> t.peers[a] == n.peers[a]
    requires forall q :: q in t.peers[at].acknowledged - n.peers[at].acknowledged ==> Answered(n, q)
    ensures AcksAnswered(t)
  {
    forall a, q | a in t.peers && q in t.peers[a].acknowledged
      ensures Answered(t, q)
    {
      assert q in n.peers[a].acknowledged || q in t.peers[at].acknowledged - n.peers[at].acknowledged;
      AnsweredStays(n, t, q);
    }
    hide Answered;
  }

  lemma NextKeeps(n: Network, e: Event)
    requires Valid(n)
    ensures Valid(Next(n, e)) && Grows(n, Next(n, e))
  {
    if e.at in n.peers {
      match e
      case Ping(at, target) =>
        PingKeeps(n, at, target);
      case Receive(at, m, first) =>
        ReceiveKeeps(n, at, m, first);
    }
  }

  lemma PingKeeps(n: Network, at: Address, target: NodeRecord)
    requires Valid(n) && at in n.peers
    ensures Valid(Next(n, Ping(at, target))) && Grows(n, Next(n, Ping(at, target)))
  {
    var p := n.peers[at];
    var m := PingMessage(p.self, target, 0, p.nextId);
    var t := Next(n, Ping(at, target));
    assert PeerValid(at, p);
    assert Grows(n, t);
    assert PeerValid(at, t.peers[at]);
    StepKeeps(n, t, at, m);
  }

  lemma ReceiveKeeps(n: Network, at: Address, m: PingMessage, first: PingMessage)
    requires Valid(n) && at in n.peers
    ensures Valid(Next(n, Receive(at, m, first))) && Grows(n, Next(n, Receive(at, m, first)))
  {
    if m in n.wire && AddressOf(m.receiver) == at {
      if m.isReply == 0 {
        ReceiveRequestKeeps(n, at, m, first);
      } else if first in n.peers[at].outstanding && SamePing(first, m) {
        ReceiveReplyKeeps(n, at, m, first);
      }
    }
    hide Valid, SamePing;
  }

  lemma ReceiveReplyKeeps(n: Network, at: Address, m: PingMessage, first: PingMessage)
    requires Valid(n) && Arrives(n, at, m) && m.isReply != 0
    requires first in n.peers[at].outstanding && SamePing(first, m)
    ensures Valid(Next(n, Receive(at, m, first))) && Grows(n, Next(n, Receive(at, m, first)))
  {
    var t := Next(n, Receive(at, m, first));
    assert PeerValid(at, n.peers[at]);
    ReplyMatchesOne(n, m, first);
    assert Justified(n, m);
    hide SamePing;
    assert PeerValid(at, t.peers[at]);
    assert Answered(n, first);
    assert Grows(n, t);
    hide PeerValid;
    JustifiedStays(n, t, m);
    StepKeeps(n, t, at, m);
  }

  lemma ReceiveRequestKeeps(n: Network, at: Address, m: PingMessage, first: PingMessage)
    requires Valid(n) && Arrives(n, at, m) && m.isReply == 0
    ensures Valid(Next(n, Receive(at, m, first))) && Grows(n, Next(n, Receive(at, m, first)))
  {
    var p := n.peers[at];
    var t := Next(n, Receive(at, m, first));
    var r := Reply(m, p.self);
    assert PeerValid(at, p);
    assert Justified(n, m);
    if !SameNode(m.sender, p.self) {
      assert Answers(t, r, m);
      assert Justified(t, r);
      StepKeeps(n, t, at, r);
    }
  }

  // ----- what every run keeps

  lemma {:induction false} RunKeeps(n: Network, events: seq<Event>)
    requires Valid(n)
    ensures Valid(Run(n, events)) && Grows(n, Run(n, events))
    decreases |events|
  {
    if events != [] {
      NextKeeps(n, events[0]);
      RunKeeps(Next(n, events[0]), events[1..]);
      hide Valid, Next;
    }
  }

  /** In every run, at every node: what was recorded is either outstanding or acknowledged, never both;
      and an acknowledged ping was answered by the node it was sent to. */
  lemma PingTheorem(n: Network, events: seq<Event>)
    requires Initial(n)
    ensures var r := Run(n, events);
      forall a :: a in r.peers ==>
        && |r.peers[a].recorded| == |r.peers[a].outstanding| + |r.peers[a].acknowledged|
        && r.peers[a].recorded == r.peers[a].outstanding + r.peers[a].acknowledged
        && r.peers[a].outstanding !! r.peers[a].acknowledged
        && (forall q :: q in r.peers[a].acknowledged ==> Answered(r, q))
  {
    assert Valid(n);
    RunKeeps(n, events);
    var r := Run(n, events);
    hide Run, Answered, WireValid;
    forall a | a in r.peers
      ensures |r.peers[a].recorded| == |r.peers[a].outstanding| + |r.peers[a].acknowledged|
    {
      assert PeerValid(a, r.peers[a]);
    }
  }

  /** first is what a search of the set for a match finds, if there is one. */
  ghost predicate FirstMatch(s: set<PingMessage>, m: PingMessage, first: PingMessage) {
    (first in s && SamePing(first, m)) || forall o :: o in s ==> !SamePing(o, m)
  }

  /** Delivering a reply in any state that a run can reach removes the one ping it answers if that is
      still outstanding, and nothing else: no other ping matches, and a duplicate removes nothing. */
  lemma ReplyRemovesOne(n: Network, events: seq<Event>, at: Address, m: PingMessage, first: PingMessage)
    requires Initial(n)
    requires var r := Run(n, events); Arrives(r, at, m) && m.isReply != 0 && FirstMatch(r.peers[at].outstanding, m, first)
    ensures var r := Run(n, events);
      var t := Next(r, Receive(at, m, first));
      && t.peers[at].outstanding == (set o | o in r.peers[at].outstanding && o.messageId != m.messageId)
      && (forall o :: o in r.peers[at].outstanding && SamePing(o, m) ==> Answers(r, m, o))
      && (forall again :: Next(t, Receive(at, m, again)) == t)
  {
    assert Valid(n);
    RunKeeps(n, events);
    var r := Run(n, events);
    hide Run;
    assert PeerValid(at, r.peers[at]);
    forall o | o in r.peers[at].recorded
      ensures SamePing(o, m) <==> Answers(r, m, o)
      ensures SamePing(o, m) <==> o.messageId == m.messageId
    {
      ReplyMatchesOne(r, m, o);
    }
    hide WireValid, AcksAnswered, SamePing, Answers;
  }

  // ----- pings are answered

  /** A request that arrives at another node is answered. */
  lemma RequestIsAnswered(n: Network, at: Address, m: PingMessage, first: PingMessage)
    requires Arrives(n, at, m) && m.isReply == 0 && !SameNode(m.sender, n.peers[at].self)
    ensures Reply(m, n.peers[at].self) in Next(n, Receive(at, m, first)).wire
  {
  }

  /** The answer acknowledges the ping, unless an earlier copy of it did. */
  lemma AnswerAcknowledges(n: Network, at: Address, m: PingMessage, replier: NodeRecord)
    requires Valid(n) && at in n.peers && m in n.peers[at].recorded
    requires Reply(m, replier) in n.wire && SameNode(replier, m.receiver)
    ensures var t := Next(n, Receive(at, Reply(m, replier), m)).peers[at]; m in t.acknowledged && m !in t.outstanding
  {
    assert PeerValid(at, n.peers[at]);
  }

  /** The whole exchange, with anything in between: a ping to a node that is up, if neither it nor its
      answer is lost, is acknowledged. */
  lemma PingRoundTrip(n: Network, at: Address, target: NodeRecord, between: seq<Event>, after: seq<Event>,
                      first: PingMessage)
    requires Valid(n) && at in n.peers && AddressOf(target) in n.peers && AddressOf(target) != at
    ensures var m := PingMessage(n.peers[at].self, target, 0, n.peers[at].nextId);
      var asked := Run(Next(n, Ping(at, target)), between);
      var to := AddressOf(target);
      to in asked.peers && var answer := Reply(m, asked.peers[to].self);
      var answered := Run(Next(asked, Receive(to, m, first)), after);
      at in answered.peers
      && var t := Next(answered, Receive(at, answer, m)).peers[at];
         m in t.acknowledged && m !in t.outstanding
  {
    var p, to := n.peers[at], AddressOf(target);
    var m := PingMessage(p.self, target, 0, p.nextId);
    var sent := Next(n, Ping(at, target));
    assert PeerValid(at, p);
    assert m in sent.wire && m in sent.peers[at].recorded;
    NextKeeps(n, Ping(at, target));
    RunKeeps(sent, between);
    var asked := Run(sent, between);
    assert PeerValid(to, asked.peers[to]);
    assert Arrives(asked, to, m);
    var me := asked.peers[to].self;
    RequestIsAnswered(asked, to, m, first);
    NextKeeps(asked, Receive(to, m, first));
    var replied := Next(asked, Receive(to, m, first));
    hide Run, Next, WireValid, AcksAnswered;
    RunKeeps(replied, after);
    AnswerAcknowledges(Run(replied, after), at, m, me);
  }

  // ----- the endpoint's set of (deadline, ping) pairs, seen from the network

  function Pings(s: set<Outstanding>): set<PingMessage> {
    set o | o in s :: o.ping
  }

  /** The set of an endpoint stands for the outstanding pings of a peer, each with one deadline. */
  ghost predicate StandsFor(s: set<Outstanding>, p: Peer) {
    Pings(s) == p.outstanding && forall o, q :: o in s && q in s && o.ping == q.ping ==> o == q
  }

  /** Pinging: the endpoint's set holds no equal pair, takes the ping in, and then stands for the peer
      after the network's step. */
  lemma PingRefines(n: Network, at: Address, target: NodeRecord, s: set<Outstanding>, deadline: nat)
    requires Valid(n) && at in n.peers && StandsFor(s, n.peers[at]) && !SameNode(target, n.peers[at].self)
    ensures var m := PingMessage(n.peers[at].self, target, 0, n.peers[at].nextId);
      && !(exists o :: o in s && o.deadline == deadline && SamePing(o.ping, m))
      && StandsFor(s + {Outstanding(deadline, m)}, Next(n, Ping(at, target)).peers[at])
  {
    var p := n.peers[at];
    var m := PingMessage(p.self, target, 0, p.nextId);
    NextPingIsNew(n, at, target);
    assert PeerValid(at, p);
    assert forall o :: o in s ==> o.ping in Pings(s);
    var t := s + {Outstanding(deadline, m)};
    hide SamePing, Valid;
    assert Outstanding(deadline, m) in t;
    assert Pings(t) == p.outstanding + {m};
  }

  /** A reply: whichever matching pair the endpoint erases, its set stands for the peer after the
      network's step. */
  lemma ReplyRefines(n: Network, at: Address, m: PingMessage, s: set<Outstanding>, o: Outstanding)
    requires Valid(n) && Arrives(n, at, m) && m.isReply != 0
    requires StandsFor(s, n.peers[at]) && o in s && SamePing(o.ping, m)
    ensures StandsFor(s - {o}, Next(n, Receive(at, m, o.ping)).peers[at])
  {
    assert o.ping in Pings(s);
    hide SamePing, Valid;
    assert Pings(s - {o}) == Pings(s) - {o.ping};
  }
}
