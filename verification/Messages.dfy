/**
  The records that nodes exchange, and when the source considers two of them the same.
 */
module Messages {
  import opened Hamming

  /** `node_record`; port 0 marks a record that was never filled in. */
  datatype NodeRecord = NodeRecord(nodeId: Hash, ip: string, port: nat)

  /** `node_record::operator==`: the id is not compared. */
  predicate SameNode(m: NodeRecord, n: NodeRecord) {
    m.ip == n.ip && m.port == n.port
  }

  /** Records are the same exactly if they are equal once their ids are. */
  lemma SameNodeExactly(m: NodeRecord, n: NodeRecord)
    ensures SameNode(m, n) <==> m.(nodeId := n.nodeId) == n
  {
  }

  datatype FileType = File | Dir

  /** `file_info_record` */
  datatype FileRecord = FileRecord(key: Hash, node: NodeRecord, path: string, size: nat, fileType: FileType,
                                   modTS: nat, ownerPublishTS: nat, validTill: nat)

  /** `file_info_record::operator==`: valid_till is not compared, and the owner only by address. */
  predicate SameFile(f: FileRecord, g: FileRecord) {
    && f.key == g.key
    && SameNode(f.node, g.node)
    && f.path == g.path
    && f.size == g.size
    && f.fileType == g.fileType
    && f.modTS == g.modTS
    && f.ownerPublishTS == g.ownerPublishTS
  }

  /** Records are the same exactly if they are equal once their expiry and the id of the owner are. */
  lemma SameFileExactly(f: FileRecord, g: FileRecord)
    ensures SameFile(f, g) <==> f.(validTill := g.validTill, node := f.node.(nodeId := g.node.nodeId)) == g
  {
  }

  /** Lists of file records by key: the record store, and the results of a search. */
  type FileLists = map<Hash, seq<FileRecord>>

  /** The list of a key; a missing key stands for the empty list. */
  function ListOf(lists: FileLists, key: Hash): seq<FileRecord> {
    if key in lists then lists[key] else []
  }

  /** `ping_message`; the source keeps isReply in a uint8_t. */
  datatype PingMessage = PingMessage(sender: NodeRecord, receiver: NodeRecord, isReply: nat, messageId: nat)

  datatype SearchType = NodeSearch | KeySearch

  /** `search_message` */
  datatype SearchMessage = SearchMessage(key: Hash, sender: NodeRecord, searchId: nat, subSearchId: nat,
                                         searchType: SearchType)

  /** `search_result_message` */
  datatype SearchResult = SearchResult(sender: NodeRecord, files: seq<FileRecord>, nodes: seq<NodeRecord>,
                                       searchId: nat, subSearchId: nat)

  datatype Option<T> = None | Some(value: T)

  // ----- lists of nodes

  /** `list::remove(n)`: drops every record with the address of n. */
  function WithoutNode(s: seq<NodeRecord>, n: NodeRecord): seq<NodeRecord> {
    if s == [] then []
    else if SameNode(s[0], n) then WithoutNode(s[1..], n)
    else [s[0]] + WithoutNode(s[1..], n)
  }

  predicate HasNode(s: seq<NodeRecord>, n: NodeRecord) {
    exists i :: 0 <= i < |s| && SameNode(s[i], n)
  }

  /** No two records have the same address. */
  predicate DistinctNodes(s: seq<NodeRecord>) {
    forall i, j :: 0 <= i < j < |s| ==> !SameNode(s[i], s[j])
  }

  lemma {:induction false} WithoutNodeMembers(s: seq<NodeRecord>, n: NodeRecord)
    ensures forall e :: e in WithoutNode(s, n) <==> e in s && !SameNode(e, n)
    ensures |WithoutNode(s, n)| <= |s|
  {
    if s != [] {
      WithoutNodeMembers(s[1..], n);
      assert s == [s[0]] + s[1..];
    }
  }

  /** Nothing is reordered. */
  lemma {:induction false} WithoutNodeConcat(s: seq<NodeRecord>, t: seq<NodeRecord>, n: NodeRecord)
    ensures WithoutNode(s + t, n) == WithoutNode(s, n) + WithoutNode(t, n)
  {
    if s == [] {
      assert s + t == t;
    } else {
      assert (s + t)[1..] == s[1..] + t;
      WithoutNodeConcat(s[1..], t, n);
    }
  }

  lemma {:induction false} WithoutAbsentNode(s: seq<NodeRecord>, n: NodeRecord)
    requires !HasNode(s, n)
    ensures WithoutNode(s, n) == s
  {
    if s != [] {
      assert !SameNode(s[0], n);
      assert forall i :: 0 <= i < |s[1..]| ==> s[1..][i] == s[i + 1];
      WithoutAbsentNode(s[1..], n);
    }
  }

  /** Among distinct records, removing all those with an address is removing the first one. */
  lemma {:induction false} WithoutNodeAt(s: seq<NodeRecord>, n: NodeRecord, i: nat)
    requires DistinctNodes(s) && i < |s| && SameNode(s[i], n)
    ensures WithoutNode(s, n) == s[..i] + s[i + 1..]
  {
    var t := s[1..];
    assert forall k :: 0 <= k < |t| ==> t[k] == s[k + 1];
    if i == 0 {
      WithoutAbsentNode(t, n);
    } else {
      assert !SameNode(s[0], s[i]);
      WithoutNodeAt(t, n, i - 1);
      assert s[..i] == [s[0]] + t[..i - 1] && s[i + 1..] == t[i..];
    }
  }

  lemma {:induction false} WithoutNodeDistinct(s: seq<NodeRecord>, n: NodeRecord)
    requires DistinctNodes(s)
    ensures DistinctNodes(WithoutNode(s, n))
    ensures !HasNode(WithoutNode(s, n), n)
  {
    if HasNode(s, n) {
      var i :| 0 <= i < |s| && SameNode(s[i], n);
      WithoutNodeAt(s, n, i);
    } else {
      WithoutAbsentNode(s, n);
    }
  }
}
