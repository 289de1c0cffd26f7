/**
  Answering a search, and the chains of referrals that searches follow from node to node.
 */
module Referrals {
  import FileTable
  import opened Hamming
  import opened Messages
  import opened NodeQueue

  /** The nodes that a node suggests for a key: the better ones, without itself and the asker. */
  function Suggestions(self: NodeRecord, buckets: seq<seq<NodeRecord>>, alpha: nat, key: Hash, asker: NodeRecord)
    : seq<NodeRecord>
  {
    WithoutNode(WithoutNode(BetterNodes(self.nodeId, buckets, alpha, key, false), self), asker)
  }

  /** `handle_search`; `sent` says whether the answer goes out, since nothing is sent to the own
      address. */
  method HandleSearch(table: RoutingTable, store: FileTable.Store, sm: SearchMessage)
    returns (srm: SearchResult, sent: bool)
    requires table.buckets.Length == BUCKETS && store.Valid()
    ensures srm.nodes == Suggestions(table.self, table.buckets[..], table.alpha, sm.key, sm.sender)
    ensures srm.files == if sm.searchType == KeySearch then FileTable.FirstArrivals(store.history, sm.key) else []
    ensures sent <==> !SameNode(sm.sender, table.self)
    ensures srm.sender == table.self && srm.searchId == sm.searchId && srm.subSearchId == sm.subSearchId
  {
    var files: seq<FileRecord> := [];
    if sm.searchType == KeySearch {
      files := store.QueryKey(sm.key);
    }
    var nodes := table.GetBetterNodes(sm.key, false);
    nodes := WithoutNode(nodes, table.self);
    nodes := WithoutNode(nodes, sm.sender);
    srm := SearchResult(table.self, files, nodes, sm.searchId, sm.subSearchId);
    sent := !SameNode(sm.sender, table.self);
  }

  /** Every suggestion is strictly nearer to the key than the node that makes it. */
  lemma SuggestionsAreNearer(self: NodeRecord, buckets: seq<seq<NodeRecord>>, alpha: nat, key: Hash, asker: NodeRecord)
    ensures forall n :: n in Suggestions(self, buckets, alpha, key, asker) ==>
      && Distance(n.nodeId, key) < Distance(self.nodeId, key)
      && n.nodeId != self.nodeId
      && n in Flatten(buckets)
      && !SameNode(n, self) && !SameNode(n, asker)
  {
    var better := BetterNodes(self.nodeId, buckets, alpha, key, false);
    BetterNodesHead(self.nodeId, buckets, alpha, key, false);
    EligibleMembers(Flatten(buckets), key, Distance(self.nodeId, key), false);
    WithoutNodeMembers(better, self);
    WithoutNodeMembers(WithoutNode(better, self), asker);
    hide BetterNodes, Distance, WithoutNode, Eligible, Flatten, SameNode;
  }

  /** Everyone but these two, in order. */
  function Others(nodes: seq<NodeRecord>, self: NodeRecord, asker: NodeRecord): seq<NodeRecord> {
    if nodes == [] then []
    else
      var last := nodes[|nodes| - 1];
      Others(nodes[..|nodes| - 1], self, asker) + if SameNode(last, self) || SameNode(last, asker) then [] else [last]
  }

  lemma {:induction false} OthersAreKept(nodes: seq<NodeRecord>, self: NodeRecord, asker: NodeRecord)
    ensures WithoutNode(WithoutNode(nodes, self), asker) == Others(nodes, self, asker)
  {
    if nodes != [] {
      var t, last := nodes[..|nodes| - 1], nodes[|nodes| - 1];
      OthersAreKept(t, self, asker);
      assert nodes == t + [last];
      WithoutNodeConcat(t, [last], self);
      var kept := if SameNode(last, self) then [] else [last];
      WithoutNodeOne(last, self);
      WithoutNodeOne(last, asker);
      WithoutNodeConcat(WithoutNode(t, self), kept, asker);
      hide WithoutNode, SameNode;
    }
  }

  lemma WithoutNodeOne(m: NodeRecord, n: NodeRecord)
    ensures WithoutNode([m], n) == if SameNode(m, n) then [] else [m]
    ensures WithoutNode([], n) == []
  {
    assert [m][1..] == [];
  }

  /** Nobody else is left out: the suggestions are all the better nodes but these two, in order. */
  lemma SuggestionsExactly(self: NodeRecord, buckets: seq<seq<NodeRecord>>, alpha: nat, key: Hash, asker: NodeRecord)
    ensures var better, s := BetterNodes(self.nodeId, buckets, alpha, key, false), Suggestions(self, buckets, alpha, key, asker);
      && s == Others(better, self, asker)
      && (forall n :: n in s <==> n in better && !SameNode(n, self) && !SameNode(n, asker))
  {
    var better := BetterNodes(self.nodeId, buckets, alpha, key, false);
    OthersAreKept(better, self, asker);
    WithoutNodeMembers(better, self);
    WithoutNodeMembers(WithoutNode(better, self), asker);
    hide BetterNodes, WithoutNode, Others, SameNode;
  }

  /** A node that knows one with the key as its id suggests it, unless that one shares the address of the
      asker or its own. */
  lemma KnownTargetIsSuggested(self: NodeRecord, buckets: seq<seq<NodeRecord>>, alpha: nat, key: Hash, asker: NodeRecord,
                               target: NodeRecord)
    requires target in Flatten(buckets) && target.nodeId == key != self.nodeId
    ensures exists n: NodeRecord :: (n in Flatten(buckets) && n.nodeId == key
      && (n in Suggestions(self, buckets, alpha, key, asker) || SameNode(n, self) || SameNode(n, asker)))
  {
    var better := BetterNodes(self.nodeId, buckets, alpha, key, false);
    BetterNodesAnswer(self.nodeId, buckets, alpha, key, false);
    FlattenMembers(buckets);
    SuggestionsExactly(self, buckets, alpha, key, asker);
    DistanceZero(target.nodeId, key);
    DistanceZero(self.nodeId, key);
    hide BetterNodes, Suggestions, Flatten, SameNode, Distance;
    assert better != [] && better[0] in better && Distance(better[0].nodeId, key) == 0;
    DistanceZero(better[0].nodeId, key);
  }

  // ----- chains of referrals

  /** A node at the moment it answers a search for some key: any routing table, any asker. */
  datatype Stop = Stop(node: NodeRecord, buckets: seq<seq<NodeRecord>>, alpha: nat, asker: NodeRecord)

  /** The answer at p contains a record that carries the id of the next node asked. */
  ghost predicate Refers(p: Stop, next: Stop, key: Hash) {
    exists r :: r in Suggestions(p.node, p.buckets, p.alpha, key, p.asker) && r.nodeId == next.node.nodeId
  }

  ghost predicate IsChain(stops: seq<Stop>, key: Hash) {
    forall i :: 0 <= i < |stops| - 1 ==> Refers(stops[i], stops[i + 1], key)
  }

  function StopDistance(p: Stop, key: Hash): nat { Distance(p.node.nodeId, key) }

  lemma HopDescends(p: Stop, next: Stop, key: Hash)
    requires Refers(p, next, key)
    ensures StopDistance(next, key) < StopDistance(p, key)
  {
    SuggestionsAreNearer(p.node, p.buckets, p.alpha, key, p.asker);
    hide Suggestions, Distance, Flatten, SameNode;
  }

  lemma {:induction false} ChainDescends(stops: seq<Stop>, key: Hash, i: nat, j: nat)
    requires IsChain(stops, key) && i < j < |stops|
    ensures StopDistance(stops[j], key) + (j - i) <= StopDistance(stops[i], key)
    decreases j
  {
    hide Refers, StopDistance;
    assert Refers(stops[j - 1], stops[j - 1 + 1], key);
    HopDescends(stops[j - 1], stops[j], key);
    if i < j - 1 {
      ChainDescends(stops, key, i, j - 1);
    }
  }

  /** A chain never comes back to an id, makes at most 192 hops, and ends when it reaches the key. */
  lemma ChainTerminates(stops: seq<Stop>, key: Hash)
    requires IsChain(stops, key)
    ensures forall i, j :: 0 <= i < j < |stops| ==> stops[i].node.nodeId != stops[j].node.nodeId
    ensures stops != [] ==> |stops| - 1 <= StopDistance(stops[0], key) <= HASH_BITS
    ensures forall i :: 0 <= i < |stops| && stops[i].node.nodeId == key ==> i == |stops| - 1
  {
    hide Suggestions, Distance, IsChain;
    forall i, j | 0 <= i < j < |stops|
      ensures stops[i].node.nodeId != stops[j].node.nodeId
      ensures stops[i].node.nodeId != key
    {
      ChainDescends(stops, key, i, j);
      DistanceZero(stops[i].node.nodeId, key);
    }
    if stops != [] {
      DistanceBounded(stops[0].node.nodeId, key);
      if |stops| > 1 {
        ChainDescends(stops, key, 0, |stops| - 1);
      }
    }
  }

  /** A node whose id is the key refers nobody. */
  lemma TargetRefersNobody(self: NodeRecord, buckets: seq<seq<NodeRecord>>, alpha: nat, asker: NodeRecord)
    ensures Suggestions(self, buckets, alpha, self.nodeId, asker) == []
  {
    hide Suggestions, Distance;
    var s := Suggestions(self, buckets, alpha, self.nodeId, asker);
    assert s == [] || s[0] in s;
    SuggestionsAreNearer(self, buckets, alpha, self.nodeId, asker);
    DistanceZero(self.nodeId, self.nodeId);
  }
}
