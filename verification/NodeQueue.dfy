/**
  The routing table: 192 buckets of known nodes, one per distance from this node, each kept in order
  of last contact, and the closest-known-nodes query over all of them.
 */
module NodeQueue {
  import opened Hamming
  import opened Lists
  import opened Messages
  import opened Ranking

  const BUCKETS := 192

  // ----- what a bucket should hold

  /** The nodes of a history that belong in bucket d of the node with id self. */
  function SeenAt(self: Hash, history: seq<NodeRecord>, d: nat): seq<NodeRecord> {
    if history == [] then []
    else
      var rest := SeenAt(self, history[..|history| - 1], d);
      var last := history[|history| - 1];
      if Distance(self, last.nodeId) == d then rest + [last] else rest
  }

  /** Keeps only the first record of each address. */
  function FirstOfEach(s: seq<NodeRecord>): seq<NodeRecord> {
    if s == [] then [] else [s[0]] + WithoutNode(FirstOfEach(s[1..]), s[0])
  }

  /** Every node ever put in bucket d, by its latest record, most recent first. */
  function Recent(self: Hash, history: seq<NodeRecord>, d: nat): seq<NodeRecord> {
    FirstOfEach(Reverse(SeenAt(self, history, d)))
  }

  /** A bucket holds fewer than bucketSize nodes: it is cut when it reaches that size. */
  function BucketCapacity(bucketSize: nat): nat {
    if bucketSize == 0 then 0 else bucketSize - 1
  }

  lemma {:induction false} FirstOfEachDistinct(s: seq<NodeRecord>)
    ensures DistinctNodes(FirstOfEach(s))
  {
    if s != [] {
      FirstOfEachDistinct(s[1..]);
      WithoutNodeDistinct(FirstOfEach(s[1..]), s[0]);
    }
  }

  lemma RecentStep(self: Hash, history: seq<NodeRecord>, n: NodeRecord, d: nat)
    ensures Recent(self, history + [n], d)
      == if Distance(self, n.nodeId) == d
         then [n] + WithoutNode(Recent(self, history, d), n)
         else Recent(self, history, d)
  {
    var s := SeenAt(self, history, d);
    assert (history + [n])[..|history|] == history;
    assert (s + [n])[..|s|] == s;
    hide Distance;
    if Distance(self, n.nodeId) == d {
      ReverseSnoc(s, n);
    }
  }

  /** Touching a node in a bucket that was cut gives the cut of touching it in the whole list. */
  lemma {:induction false} CutAfterTouch(r: seq<NodeRecord>, n: NodeRecord, cap: nat)
    requires DistinctNodes(r)
    ensures Take([n] + WithoutNode(Take(r, cap), n), cap) == Take([n] + WithoutNode(r, n), cap)
  {
    hide WithoutNode, SameNode;
    if cap < |r| {
      if i: nat :| i < cap && SameNode(r[i], n) {
        WithoutWithin(r, n, cap, i);
      } else {
        WithoutBeyond(r, n, cap);
        assert cap > 0 ==> WithoutNode(r, n)[..cap - 1] == WithoutNode(r, n)[..cap][..cap - 1];
      }
      CutCons(n, WithoutNode(r[..cap], n), cap);
      CutCons(n, WithoutNode(r, n), cap);
    } else {
      assert Take(r, cap) == r;
    }
  }

  lemma CutCons(n: NodeRecord, s: seq<NodeRecord>, cap: nat)
    requires cap <= |s| + 1
    ensures Take([n] + s, cap) == if cap == 0 then [] else [n] + s[..cap - 1]
  {
  }

  lemma WithoutWithin(r: seq<NodeRecord>, n: NodeRecord, cap: nat, i: nat)
    requires DistinctNodes(r) && i < cap < |r| && SameNode(r[i], n)
    ensures |WithoutNode(r, n)| == |r| - 1 && WithoutNode(r[..cap], n) == WithoutNode(r, n)[..cap - 1]
  {
    var t := r[..cap];
    assert t[i] == r[i];
    WithoutNodeAt(t, n, i);
    WithoutNodeAt(r, n, i);
    hide WithoutNode;
    assert (r[..i] + r[i + 1..])[..cap - 1] == t[..i] + t[i + 1..];
  }

  lemma WithoutBeyond(r: seq<NodeRecord>, n: NodeRecord, cap: nat)
    requires DistinctNodes(r) && cap < |r|
    requires forall i :: 0 <= i < cap ==> !SameNode(r[i], n)
    ensures WithoutNode(r[..cap], n) == r[..cap]
    ensures |WithoutNode(r, n)| >= |r| - 1 && WithoutNode(r, n)[..cap] == r[..cap]
  {
    WithoutAbsentNode(r[..cap], n);
    if HasNode(r, n) {
      var i: nat :| i < |r| && SameNode(r[i], n);
      WithoutNodeAt(r, n, i);
    } else {
      WithoutAbsentNode(r, n);
    }
  }

  /** What one call does to the bucket it concerns: to the front, cut when it reaches bucketSize. */
  function Touched(b: seq<NodeRecord>, node: NodeRecord, bucketSize: nat): seq<NodeRecord> {
    var m := [node] + WithoutNode(b, node);
    if |m| >= bucketSize then m[..|m| - 1] else m
  }

  /** Bucket d after a run of calls, one call at a time. */
  function AfterRun(self: Hash, history: seq<NodeRecord>, d: nat, bucketSize: nat): seq<NodeRecord> {
    if history == [] then []
    else
      var b := AfterRun(self, history[..|history| - 1], d, bucketSize);
      var node := history[|history| - 1];
      if Distance(self, node.nodeId) == d then Touched(b, node, bucketSize) else b
  }

  /** The bucket is a pure function of the history: the most recent records, one per address. */
  lemma {:induction false} BucketIsRecent(self: Hash, history: seq<NodeRecord>, d: nat, bucketSize: nat)
    ensures AfterRun(self, history, d, bucketSize)
      == Take(Recent(self, history, d), BucketCapacity(bucketSize))
  {
    hide Distance, Touched, Recent;
    if history == [] {
      RecentOfNone(self, d);
    } else {
      var before, node := history[..|history| - 1], history[|history| - 1];
      assert history == before + [node];
      BucketIsRecent(self, before, d, bucketSize);
      RecentStep(self, before, node, d);
      BucketTouched(self, before, node, bucketSize);
    }
  }

  lemma RecentOfNone(self: Hash, d: nat)
    ensures Recent(self, [], d) == []
  {
  }

  lemma RecentDistinct(self: Hash, history: seq<NodeRecord>, d: nat)
    ensures DistinctNodes(Recent(self, history, d))
  {
    FirstOfEachDistinct(Reverse(SeenAt(self, history, d)));
  }

  /** One call on the bucket it concerns, in terms of the histories before and after it. */
  lemma BucketTouched(self: Hash, history: seq<NodeRecord>, node: NodeRecord, bucketSize: nat)
    ensures var d, cap := Distance(self, node.nodeId), BucketCapacity(bucketSize);
      var b := Take(Recent(self, history, d), cap);
      && DistinctNodes(b)
      && Take(Recent(self, history + [node], d), cap) == Touched(b, node, bucketSize)
  {
    hide Distance, Recent, WithoutNode;
    var d, cap := Distance(self, node.nodeId), BucketCapacity(bucketSize);
    var r := Recent(self, history, d);
    RecentStep(self, history, node, d);
    RecentDistinct(self, history, d);
    CutAfterTouch(r, node, cap);
    var b := Take(r, cap);
    WithoutNodeMembers(b, node);
    var m := [node] + WithoutNode(b, node);
    assert |m| <= cap + 1;
    assert |m| == cap ==> m[..cap] == m;
  }

  /** Every id but the complement of our own has a bucket: distances go up to 192, slots to 191. */
  lemma SlotExists(self: Hash, id: Hash)
    ensures Distance(self, id) < BUCKETS <==> !Complements(self, id)
  {
    DistanceBounded(self, id);
    hide Distance, Complements;
  }

  // ----- get_better_nodes

  function Flatten(buckets: seq<seq<NodeRecord>>): seq<NodeRecord> {
    if buckets == [] then [] else Flatten(buckets[..|buckets| - 1]) + buckets[|buckets| - 1]
  }

  /** The pairs that the scan offers to the queue: the nodes nearer to h than this one is, or all. */
  function Eligible(nodes: seq<NodeRecord>, h: Hash, limit: nat, all: bool): seq<Entry> {
    if nodes == [] then []
    else
      var rest := Eligible(nodes[..|nodes| - 1], h, limit, all);
      var last := nodes[|nodes| - 1];
      var d := Distance(last.nodeId, h);
      if d < limit || all then rest + [Entry(d, last)] else rest
  }

  /** The queue is cut when an insertion makes it reach alpha entries. */
  function QueueCapacity(alpha: nat): (cap: nat)
    ensures cap >= 1
  {
    if alpha <= 2 then 1 else alpha - 1
  }

  function Nodes(q: seq<Entry>): (s: seq<NodeRecord>)
    ensures |s| == |q|
    ensures forall i :: 0 <= i < |q| ==> s[i] == q[i].node
  {
    seq(|q|, i requires 0 <= i < |q| => q[i].node)
  }

  /** What the scan offers for key h, given all buckets. */
  function Offers(self: Hash, buckets: seq<seq<NodeRecord>>, h: Hash, all: bool): seq<Entry> {
    Eligible(Flatten(buckets), h, Distance(self, h), all)
  }

  function BetterNodes(self: Hash, buckets: seq<seq<NodeRecord>>, alpha: nat, h: Hash, all: bool): seq<NodeRecord> {
    Nodes(Offered(false, Offers(self, buckets, h, all), QueueCapacity(alpha)))
  }

  lemma {:induction false} EligibleMembers(nodes: seq<NodeRecord>, h: Hash, limit: nat, all: bool)
    ensures forall e :: e in Eligible(nodes, h, limit, all) <==>
      e.node in nodes && e.dist == Distance(e.node.nodeId, h) && (e.dist < limit || all)
  {
    hide Distance;
    if nodes != [] {
      var n := |nodes| - 1;
      EligibleMembers(nodes[..n], h, limit, all);
      assert nodes == nodes[..n] + [nodes[n]];
    }
  }

  lemma {:induction false} FlattenMembers(buckets: seq<seq<NodeRecord>>)
    ensures forall n :: n in Flatten(buckets) <==> exists d :: 0 <= d < |buckets| && n in buckets[d]
  {
    if buckets != [] {
      var t, last := buckets[..|buckets| - 1], buckets[|buckets| - 1];
      FlattenMembers(t);
      forall n
        ensures n in Flatten(buckets) <==> exists d :: 0 <= d < |buckets| && n in buckets[d]
      {
        if n in Flatten(t) {
          var d :| 0 <= d < |t| && n in t[d];
          assert n in buckets[d];
        }
        if d :| 0 <= d < |buckets| && n in buckets[d] {
          assert d < |t| ==> n in t[d];
        }
      }
    }
  }

  /** Exactly the nodes of the buckets that are nearer to h than we are, or all nodes, are offered. */
  lemma OffersExactly(self: Hash, buckets: seq<seq<NodeRecord>>, h: Hash, all: bool)
    ensures forall e :: e in Offers(self, buckets, h, all) <==>
      && (exists d :: 0 <= d < |buckets| && e.node in buckets[d])
      && e.dist == Distance(e.node.nodeId, h)
      && (Distance(e.node.nodeId, h) < Distance(self, h) || all)
  {
    FlattenMembers(buckets);
    EligibleMembers(Flatten(buckets), h, Distance(self, h), all);
    hide Distance, Flatten, Eligible;
  }

  /** A node behind all others is offered last. */
  lemma OffersInOrder(self: Hash, buckets: seq<seq<NodeRecord>>, n: NodeRecord, h: Hash, all: bool)
    ensures Offers(self, [], h, all) == [] && Offers(self, buckets + [[]], h, all) == Offers(self, buckets, h, all)
    ensures forall b: seq<NodeRecord> :: (Offers(self, buckets + [b + [n]], h, all)
      == Offers(self, buckets + [b], h, all)
         + if Distance(n.nodeId, h) < Distance(self, h) || all then [Entry(Distance(n.nodeId, h), n)] else [])
  {
    Beginnings(h, Distance(self, h), all, 1);
    FlattenOne(buckets, []);
    assert Flatten(buckets) + [] == Flatten(buckets);
    hide Distance, Flatten, Eligible;
    forall b: seq<NodeRecord>
      ensures (Offers(self, buckets + [b + [n]], h, all)
        == Offers(self, buckets + [b], h, all)
           + if Distance(n.nodeId, h) < Distance(self, h) || all then [Entry(Distance(n.nodeId, h), n)] else [])
    {
      FlattenOne(buckets, b);
      FlattenOne(buckets, b + [n]);
      assert Flatten(buckets) + (b + [n]) == Flatten(buckets) + b + [n];
      EligibleSnoc(Flatten(buckets) + b, n, h, Distance(self, h), all);
    }
  }

  lemma FlattenOne(buckets: seq<seq<NodeRecord>>, b: seq<NodeRecord>)
    ensures Flatten(buckets + [b]) == Flatten(buckets) + b
  {
    assert (buckets + [b])[..|buckets|] == buckets;
  }

  /** What a list must be to answer the query: nodes of the buckets, all of them nearer or all allowed,
      nearest first, at most max(1, alpha - 1), and with none that is nearer than its first. */
  ghost predicate Answers(self: Hash, buckets: seq<seq<NodeRecord>>, alpha: nat, h: Hash, all: bool, l: seq<NodeRecord>) {
    && |l| <= (if alpha <= 2 then 1 else alpha - 1)
    && (forall i, j :: 0 <= i < j < |l| ==> Distance(l[i].nodeId, h) <= Distance(l[j].nodeId, h))
    && (forall n :: n in l ==>
          && (exists d :: 0 <= d < |buckets| && n in buckets[d])
          && (Distance(n.nodeId, h) < Distance(self, h) || all))
    && (forall d, n :: 0 <= d < |buckets| && n in buckets[d] && (Distance(n.nodeId, h) < Distance(self, h) || all) ==>
          l != [] && Distance(l[0].nodeId, h) <= Distance(n.nodeId, h))
  }

  lemma BetterNodesAnswer(self: Hash, buckets: seq<seq<NodeRecord>>, alpha: nat, h: Hash, all: bool)
    ensures Answers(self, buckets, alpha, h, all, BetterNodes(self, buckets, alpha, h, all))
  {
    BetterNodesMembers(self, buckets, alpha, h, all);
    BetterNodesSorted(self, buckets, alpha, h, all);
    hide Distance, BetterNodes;
  }

  lemma BetterNodesMembers(self: Hash, buckets: seq<seq<NodeRecord>>, alpha: nat, h: Hash, all: bool)
    ensures forall n :: n in BetterNodes(self, buckets, alpha, h, all) ==>
      && (exists d :: 0 <= d < |buckets| && n in buckets[d])
      && (Distance(n.nodeId, h) < Distance(self, h) || all)
    ensures var l := BetterNodes(self, buckets, alpha, h, all);
      forall d, n :: 0 <= d < |buckets| && n in buckets[d] && (Distance(n.nodeId, h) < Distance(self, h) || all) ==>
        l != [] && Distance(l[0].nodeId, h) <= Distance(n.nodeId, h)
  {
    var o, l := Offers(self, buckets, h, all), BetterNodes(self, buckets, alpha, h, all);
    OffersExactly(self, buckets, h, all);
    BetterNodesHead(self, buckets, alpha, h, all);
    hide Offers, Distance, BetterNodes;
    forall n | n in l
      ensures exists d :: 0 <= d < |buckets| && n in buckets[d]
      ensures Distance(n.nodeId, h) < Distance(self, h) || all
    {
      var e := Entry(Distance(n.nodeId, h), n);
      assert e in o;
    }
    forall d, n | 0 <= d < |buckets| && n in buckets[d] && (Distance(n.nodeId, h) < Distance(self, h) || all)
      ensures l != [] && Distance(l[0].nodeId, h) <= Distance(n.nodeId, h)
    {
      var e := Entry(Distance(n.nodeId, h), n);
      assert e in o;
    }
  }

  lemma BetterNodesSorted(self: Hash, buckets: seq<seq<NodeRecord>>, alpha: nat, h: Hash, all: bool)
    ensures var l := BetterNodes(self, buckets, alpha, h, all);
      && |l| <= (if alpha <= 2 then 1 else alpha - 1)
      && forall i, j :: 0 <= i < j < |l| ==> Distance(l[i].nodeId, h) <= Distance(l[j].nodeId, h)
  {
    var o, cap := Offers(self, buckets, h, all), QueueCapacity(alpha);
    var q := Offered(false, o, cap);
    OffersExactly(self, buckets, h, all);
    OfferedFacts(false, o, cap);
    BetterNodesAre(self, buckets, alpha, h, all);
    hide Offers, Offered, Distance, BetterNodes;
    forall i | 0 <= i < |q|
      ensures q[i].dist == Distance(q[i].node.nodeId, h)
    {
      assert q[i] in q;
      assert q[i] in o;
    }
  }

  lemma BetterNodesAre(self: Hash, buckets: seq<seq<NodeRecord>>, alpha: nat, h: Hash, all: bool)
    ensures BetterNodes(self, buckets, alpha, h, all)
      == Nodes(Offered(false, Offers(self, buckets, h, all), QueueCapacity(alpha)))
  {
    hide Offers, Offered;
  }

  /** The exact result: the first QueueCapacity(alpha) of the eligible nodes that are no farther than
      the first one scanned, by distance, and the later scanned first at equal distance. */
  lemma BetterNodesExact(self: Hash, buckets: seq<seq<NodeRecord>>, alpha: nat, h: Hash, all: bool)
    ensures var o := Offers(self, buckets, h, all);
      BetterNodes(self, buckets, alpha, h, all) == Nodes(Take(Ideal(false, o), QueueCapacity(alpha)))
      && (o != [] ==> IsRanking(Ideal(false, o), Within(o, o[0].dist)))
  {
    var o := Offers(self, buckets, h, all);
    OfferedIsIdeal(false, o, QueueCapacity(alpha));
    if o != [] {
      var w := Within(o, o[0].dist);
      LatestIsAll(w);
      RankIsRanking(w);
    }
  }

  lemma {:induction false} LatestIsAll(s: seq<Entry>)
    ensures Latest(false, s) == s
  {
    if s != [] {
      LatestIsAll(s[1..]);
    }
  }

  /** The result is the QueueCapacity(alpha) nearest of all eligible nodes exactly if the first one scanned
      is far enough: as near nodes fill the queue, or no eligible node is farther. Otherwise it is
      shorter. */
  lemma BetterNodesNearestExactly(self: Hash, buckets: seq<seq<NodeRecord>>, alpha: nat, h: Hash, all: bool)
    ensures var o, r := Offers(self, buckets, h, all), BetterNodes(self, buckets, alpha, h, all);
      var best := Nodes(Nearest(false, o, QueueCapacity(alpha)));
      && (r == best <==> FirstIsFarEnough(false, o, QueueCapacity(alpha)))
      && (r != best ==> |r| < |best|)
  {
    NearestExactly(false, Offers(self, buckets, h, all), QueueCapacity(alpha));
    hide Offers, Offered, Nearest, FirstIsFarEnough;
  }

  /** When a table holds two eligible nodes, in whatever buckets, the farther one is not reported if it is
      scanned second, whatever alpha leaves room for. */
  lemma BetterNodesMisses(self: Hash, buckets: seq<seq<NodeRecord>>, a: NodeRecord, b: NodeRecord, alpha: nat,
                          h: Hash, all: bool)
    requires Flatten(buckets) == [a, b]
    requires Distance(a.nodeId, h) < Distance(b.nodeId, h) && alpha >= 3
    requires Distance(b.nodeId, h) < Distance(self, h) || all
    ensures BetterNodes(self, buckets, alpha, h, all) == [a]
  {
    var x, y := Entry(Distance(a.nodeId, h), a), Entry(Distance(b.nodeId, h), b);
    var limit := Distance(self, h);
    assert [] + [a] + [b] == [a, b];
    EligibleSnoc([], a, h, limit, all);
    EligibleSnoc([] + [a], b, h, limit, all);
    DropWithRoom(false, x, y, QueueCapacity(alpha));
    hide Offered, Distance, Flatten;
    assert Offers(self, buckets, h, all) == [] + [x] + [y] == [x, y];
    assert Nodes([x]) == [a];
  }

  /** There is a result when any node is eligible, its head is a closest eligible node, and every
      result is eligible. */
  lemma BetterNodesHead(self: Hash, buckets: seq<seq<NodeRecord>>, alpha: nat, h: Hash, all: bool)
    ensures var o, r := Offers(self, buckets, h, all), BetterNodes(self, buckets, alpha, h, all);
      && (o != [] ==> r != [] && forall e :: e in o ==> Distance(r[0].nodeId, h) <= e.dist)
      && (forall n :: n in r ==> Entry(Distance(n.nodeId, h), n) in o)
  {
    var o := Offers(self, buckets, h, all);
    EligibleMembers(Flatten(buckets), h, Distance(self, h), all);
    OfferedHead(o, QueueCapacity(alpha));
    hide Offered, Eligible, Distance, Flatten;
    assert forall e :: e in o ==> e.dist == Distance(e.node.nodeId, h);
  }

  lemma OfferedHead(o: seq<Entry>, cap: nat)
    requires cap >= 1
    ensures var q := Offered(false, o, cap);
      && (o != [] ==> q != [] && forall e :: e in o ==> q[0].dist <= e.dist)
      && (forall e :: e in q ==> e in o)
  {
    OfferedFacts(false, o, cap);
    OfferedIsIdeal(false, o, cap);
    var r := Ideal(false, o);
    IdealFacts(false, o);
    hide Offered;
    if o != [] {
      var w := Within(o, o[0].dist);
      WithinMembers(o, o[0].dist);
      LatestIsAll(w);
      RankIsRanking(w);
      forall e | e in w
        ensures r[0].dist <= e.dist
      {
        assert e in multiset(r);
      }
    }
  }

  // ----- the insertion loop of get_better_nodes

  lemma FlattenSnoc(buckets: seq<seq<NodeRecord>>, i: nat)
    requires i < |buckets|
    ensures Flatten(buckets[..i + 1]) == Flatten(buckets[..i]) + buckets[i]
  {
    assert buckets[..i + 1][..i] == buckets[..i];
  }

  lemma EligibleSnoc(nodes: seq<NodeRecord>, n: NodeRecord, h: Hash, limit: nat, all: bool)
    ensures Eligible(nodes + [n], h, limit, all) == Eligible(nodes, h, limit, all)
      + if Distance(n.nodeId, h) < limit || all then [Entry(Distance(n.nodeId, h), n)] else []
  {
    assert (nodes + [n])[..|nodes|] == nodes;
    hide Distance;
  }

  // ----- the table itself

  class RoutingTable {
    const self: NodeRecord
    const bucketSize: nat
    const alpha: nat
    const buckets: array<seq<NodeRecord>>
    var nextMessageId: nat
    /** Every node passed to MarkSeen so far. */
    ghost var history: seq<NodeRecord>

    /** Each bucket is a pure function of the history. */
    ghost predicate Valid()
      reads this, buckets
    {
      && buckets.Length == BUCKETS
      && forall d :: 0 <= d < BUCKETS ==>
        buckets[d] == Take(Recent(self.nodeId, history, d), BucketCapacity(bucketSize))
    }

    constructor (self: NodeRecord, bucketSize: nat, alpha: nat)
      ensures Valid() && history == [] && fresh(buckets) && nextMessageId == 0
      ensures this.self == self && this.bucketSize == bucketSize && this.alpha == alpha
    {
      this.self, this.bucketSize, this.alpha := self, bucketSize, alpha;
      buckets := new seq<NodeRecord>[BUCKETS](_ => []);
      nextMessageId := 0;
      history := [];
    }

    /** `mark_seen`. Slot 192 does not exist, so the complement of our own id must not be seen.
        At most one record leaves its bucket, the least recently seen, and it is pinged. */
    method MarkSeen(node: NodeRecord) returns (ping: Option<PingMessage>)
      requires Valid() && node.port != 0 && Distance(self.nodeId, node.nodeId) < BUCKETS
      modifies this, buckets
      ensures Valid() && history == old(history) + [node]
      ensures var d := Distance(self.nodeId, node.nodeId);
        && buckets[d] + (if ping.Some? then [ping.value.receiver] else []) == [node] + WithoutNode(old(buckets[d]), node)
        && (ping.Some? <==> |WithoutNode(old(buckets[d]), node)| + 1 >= bucketSize)
        && (forall k :: 0 <= k < BUCKETS && k != d ==> buckets[k] == old(buckets[k]))
      ensures ping.Some? ==>
        ping.value.sender == self && ping.value.isReply == 0 && ping.value.messageId == old(nextMessageId)
      ensures nextMessageId == old(nextMessageId) + if ping.Some? then 1 else 0
    {
      hide Distance, Recent, Take, WithoutNode, BucketCapacity;
      var d := Distance(self.nodeId, node.nodeId);
      BucketTouched(self.nodeId, history, node, bucketSize);
      forall k | 0 <= k < BUCKETS && k != d
        ensures Recent(self.nodeId, history + [node], k) == Recent(self.nodeId, history, k)
      {
        RecentStep(self.nodeId, history, node, k);
      }
      ping := None;
      var evicted := Touch(d, node);
      if evicted.Some? {
        ping := Some(PingMessage(self, evicted.value, 0, nextMessageId));
        nextMessageId := nextMessageId + 1;
      }
      history := history + [node];
    }

    /** What MarkSeen does to bucket d: find and erase, push to the front, cut. */
    method Touch(d: nat, node: NodeRecord) returns (evicted: Option<NodeRecord>)
      requires buckets.Length == BUCKETS && d < BUCKETS && DistinctNodes(buckets[d])
      modifies buckets
      ensures buckets[d] == Touched(old(buckets[d]), node, bucketSize)
      ensures var m := [node] + WithoutNode(old(buckets[d]), node);
        evicted == if |m| >= bucketSize then Some(m[|m| - 1]) else None
      ensures forall k :: 0 <= k < BUCKETS && k != d ==> buckets[k] == old(buckets[k])
    {
      hide WithoutNode, SameNode, DistinctNodes;
      ghost var before := buckets[d];
      var i := 0;
      while i < |buckets[d]| && !SameNode(buckets[d][i], node)
        invariant i <= |buckets[d]|
        invariant forall k :: 0 <= k < i ==> !SameNode(buckets[d][k], node)
      {
        i := i + 1;
      }
      RemovedFirst(before, node, i);
      if i != |buckets[d]| {
        buckets[d] := buckets[d][..i] + buckets[d][i + 1..];
      }
      buckets[d] := [node] + buckets[d];
      evicted := None;
      if |buckets[d]| >= bucketSize {
        evicted := Some(buckets[d][|buckets[d]| - 1]);
        buckets[d] := buckets[d][..|buckets[d]| - 1];
      }
    }

    /** `get_better_nodes`: only reads the buckets. */
    method GetBetterNodes(h: Hash, allowNonEuclidian: bool) returns (l: seq<NodeRecord>)
      requires buckets.Length == BUCKETS
      ensures l == BetterNodes(self.nodeId, buckets[..], alpha, h, allowNonEuclidian)
      ensures Answers(self.nodeId, buckets[..], alpha, h, allowNonEuclidian, l)
    {
      hide Distance, Eligible, Flatten, Offer, Offered, Answers;
      BetterNodesAnswer(self.nodeId, buckets[..], alpha, h, allowNonEuclidian);
      var limit := Distance(self.nodeId, h);
      var pq: seq<Entry> := [];
      ghost var cap := QueueCapacity(alpha);
      ghost var offers: seq<Entry> := [];
      Beginnings(h, limit, allowNonEuclidian, cap);
      for i := 0 to BUCKETS
        invariant offers == Eligible(Flatten(buckets[..][..i]), h, limit, allowNonEuclidian)
        invariant pq == Offered(false, offers, cap)
      {
        ghost var scanned := Flatten(buckets[..][..i]);
        FlattenSnoc(buckets[..], i);
        assert scanned + buckets[i][..0] == scanned;
        var j := 0;
        while j < |buckets[i]|
          invariant 0 <= j <= |buckets[i]|
          invariant offers == Eligible(scanned + buckets[i][..j], h, limit, allowNonEuclidian)
          invariant pq == Offered(false, offers, cap)
        {
          var node := buckets[i][j];
          var d := Distance(node.nodeId, h);
          EligibleSnoc(scanned + buckets[i][..j], node, h, limit, allowNonEuclidian);
          assert scanned + buckets[i][..j] + [node] == scanned + buckets[i][..j + 1];
          if d < limit || allowNonEuclidian {
            OfferedSnoc(false, offers, Entry(d, node), cap);
            OfferedFacts(false, offers, cap);
            pq := Consider(pq, Entry(d, node));
            offers := offers + [Entry(d, node)];
          }
          j := j + 1;
        }
        assert scanned + buckets[i][..j] == scanned + buckets[i];
      }
      assert buckets[..][..BUCKETS] == buckets[..];
      l := [];
      for i := 0 to |pq|
        invariant l == Nodes(pq[..i])
      {
        l := l + [pq[i].node];
      }
      assert pq[..|pq|] == pq;
    }

    /** The body of the scan for one eligible node. */
    method Consider(queue: seq<Entry>, entry: Entry) returns (pq: seq<Entry>)
      requires |queue| <= QueueCapacity(alpha)
      ensures pq == Offer(false, queue, entry, QueueCapacity(alpha))
    {
      hide Insert;
      pq := queue;
      if |pq| == 0 {
        pq := [entry] + pq;
      } else {
        var i := 0;
        while i < |pq|
          invariant 0 <= i <= |pq| && pq == queue
          invariant forall k :: 0 <= k < i ==> pq[k].dist < entry.dist
        {
          if entry.dist <= pq[i].dist {
            InsertAt(false, queue, entry, i);
            WithoutNone(false, queue[i..], entry);
            pq := pq[..i] + [entry] + pq[i..];
            if |pq| >= alpha {
              pq := pq[..|pq| - 1];
            }
            return;
          }
          i := i + 1;
        }
      }
    }
  }

  lemma Beginnings(h: Hash, limit: nat, all: bool, cap: nat)
    ensures Eligible(Flatten([]), h, limit, all) == [] && Offered(false, [], cap) == []
  {
  }

  lemma RemovedFirst(s: seq<NodeRecord>, n: NodeRecord, i: nat)
    requires DistinctNodes(s) && i <= |s|
    requires forall k :: 0 <= k < i ==> !SameNode(s[k], n)
    requires i < |s| ==> SameNode(s[i], n)
    ensures WithoutNode(s, n) == if i < |s| then s[..i] + s[i + 1..] else s
  {
    if i < |s| {
      WithoutNodeAt(s, n, i);
    } else {
      WithoutAbsentNode(s, n);
    }
  }
}
