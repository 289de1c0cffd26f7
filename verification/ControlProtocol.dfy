/**
  Pings and their acknowledgements: one node's set of outstanding pings, and the protocol between
  nodes over a network that may drop, delay, reorder and duplicate messages.
 */
module ControlProtocol {
  import opened Messages

  // ----- when two ping messages are the same

  /** `!b` on a uint8_t. */
  function Negate(b: nat): nat { if b == 0 then 1 else 0 }

  predicate SameDirection(p: PingMessage, q: PingMessage) {
    SameNode(p.sender, q.sender) && SameNode(p.receiver, q.receiver)
  }

  predicate Reversed(p: PingMessage, q: PingMessage) {
    SameNode(p.sender, q.receiver) && SameNode(p.receiver, q.sender)
  }

  /** `ping_message::operator==`: a request and its reply compare equal. */
  predicate SamePing(p: PingMessage, q: PingMessage) {
    && p.messageId == q.messageId
    && ((Reversed(p, q) && p.isReply == Negate(q.isReply)) || (SameDirection(p, q) && p.isReply == q.isReply))
  }

  /** With flags that are 0 or 1, as the source sets them, == is an equivalence. */
  lemma SamePingEquivalence(p: PingMessage, q: PingMessage, r: PingMessage)
    requires p.isReply < 2 && q.isReply < 2 && r.isReply < 2
    ensures SamePing(p, p)
    ensures SamePing(p, q) ==> SamePing(q, p)
    ensures SamePing(p, q) && SamePing(q, r) ==> SamePing(p, r)
  {
  }

  /** The only way == is not symmetric: one flag is 0 and the other neither 0 nor 1. */
  lemma SamePingAsymmetry(p: PingMessage, q: PingMessage)
    ensures SamePing(p, q) != SamePing(q, p) <==>
      && p.messageId == q.messageId && Reversed(p, q)
      && ((p.isReply == 0 && q.isReply >= 2) || (p.isReply >= 2 && q.isReply == 0))
  {
  }

  /** The answer of node `me` to a request. */
  function Reply(request: PingMessage, me: NodeRecord): PingMessage {
    PingMessage(me, request.sender, 1, request.messageId)
  }

  /** The answer compares equal to the request exactly if the node asked is the one that answers. */
  lemma ReplyMatches(request: PingMessage, me: NodeRecord)
    requires request.isReply == 0
    ensures SamePing(request, Reply(request, me)) <==> SameNode(me, request.receiver)
  {
  }

  // ----- one node

  /** A ping that waits for its acknowledgement, and when it expires. */
  datatype Outstanding = Outstanding(deadline: nat, ping: PingMessage)

  const PING_TIMEOUT := 60

  class Endpoint {
    const self: NodeRecord
    /** `unacknowledged_pings` */
    var unacknowledged: set<Outstanding>

    constructor (self: NodeRecord)
      ensures this.self == self && unacknowledged == {} && Valid()
    {
      this.self, unacknowledged := self, {};
    }

    /** The unordered_set holds no two equal (deadline, ping) pairs: so it is, and so it stays as long as
        flags are 0 or 1. */
    ghost predicate Valid()
      reads this
    {
      forall o, p :: o in unacknowledged && p in unacknowledged && o != p ==>
        !(o.deadline == p.deadline && SamePing(o.ping, p.ping))
    }

    /** `ping`: records the ping and sends it, unless it is addressed to this node. */
    method Ping(m: PingMessage, now: nat) returns (sent: Option<PingMessage>)
      modifies this
      ensures old(Valid()) && m.isReply < 2 && (forall o :: o in old(unacknowledged) ==> o.ping.isReply < 2) ==> Valid()
      ensures if SameNode(m.receiver, self) then
          sent == None && unacknowledged == old(unacknowledged)
        else
          && sent == Some(m)
          && (if exists o :: o in old(unacknowledged) && o.deadline == now + PING_TIMEOUT && SamePing(o.ping, m)
              then unacknowledged == old(unacknowledged)
              else unacknowledged == old(unacknowledged) + {Outstanding(now + PING_TIMEOUT, m)})
    {
      sent := None;
      if !SameNode(m.receiver, self) {
        var deadline := now + PING_TIMEOUT;
        if forall o :: o in unacknowledged ==> !(o.deadline == deadline && SamePing(o.ping, m)) {
          unacknowledged := unacknowledged + {Outstanding(deadline, m)};
        }
        sent := Some(m);
      }
    }

    /** The PING branch of `handle_message`. Erases the first match that the iteration meets, in
        whatever order the set is kept; `seen` is the record handed to mark_seen, which for a request
        is this node itself. */
    method HandlePing(m: PingMessage) returns (sent: Option<PingMessage>, seen: NodeRecord)
      modifies this
      ensures old(Valid()) ==> Valid()
      ensures m.isReply != 0 ==>
        && sent == None && seen == m.sender
        && (if exists o :: o in old(unacknowledged) && SamePing(o.ping, m)
            then exists o :: o in old(unacknowledged) && SamePing(o.ping, m) && unacknowledged == old(unacknowledged) - {o}
            else unacknowledged == old(unacknowledged))
      ensures m.isReply == 0 ==>
        && unacknowledged == old(unacknowledged) && seen == self
        && sent == if SameNode(m.sender, self) then None else Some(Reply(m, self))
    {
      sent := None;
      if m.isReply != 0 {
        seen := m.sender;
        var rest := unacknowledged;
        while rest != {}
          invariant rest <= unacknowledged == old(unacknowledged)
          invariant forall o :: o in unacknowledged - rest ==> !SamePing(o.ping, m)
          decreases rest
        {
          var o :| o in rest;
          if SamePing(o.ping, m) {
            unacknowledged := unacknowledged - {o};
            return;
          }
          rest := rest - {o};
        }
      } else {
        var reply := m.(receiver := m.sender);
        reply := reply.(isReply := 1);
        reply := reply.(sender := self);
        if !SameNode(reply.receiver, self) {
          sent := Some(reply);
        }
        seen := reply.sender;
      }
    }
  }
}
