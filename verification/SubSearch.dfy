/**
  What one sub-search does with the answers it takes from its mailbox: the queue of the nodes to ask
  in the next round, and the file records found.
 */
module SubSearch {
  import opened Hamming
  import opened Lists
  import opened Messages
  import opened Ranking

  // ----- the specification

  /** The pairs that an answer offers for key, in order. */
  function Entries(key: Hash, nodes: seq<NodeRecord>): (es: seq<Entry>)
    ensures |es| == |nodes|
  {
    if nodes == [] then []
    else
      var last := nodes[|nodes| - 1];
      Entries(key, nodes[..|nodes| - 1]) + [Entry(Distance(key, last.nodeId), last)]
  }

  function AllEntries(key: Hash, batch: seq<SearchResult>): seq<Entry> {
    if batch == [] then []
    else AllEntries(key, batch[..|batch| - 1]) + Entries(key, batch[|batch| - 1].nodes)
  }

  /** The pair for a node: its distance to the key, and the node. */
  lemma {:induction false} EntriesExactly(key: Hash, nodes: seq<NodeRecord>, i: nat)
    requires i < |nodes|
    ensures Entries(key, nodes)[i] == Entry(Distance(key, nodes[i].nodeId), nodes[i])
  {
    hide Distance;
    if i < |nodes| - 1 {
      EntriesExactly(key, nodes[..|nodes| - 1], i);
    }
  }

  lemma {:induction false} AllEntriesExactly(key: Hash, batch: seq<SearchResult>)
    ensures forall e :: e in AllEntries(key, batch) <==>
      e.dist == Distance(key, e.node.nodeId) && exists r :: 0 <= r < |batch| && e.node in batch[r].nodes
  {
    hide Distance, Entries;
    if batch != [] {
      var t, nodes := batch[..|batch| - 1], batch[|batch| - 1].nodes;
      AllEntriesExactly(key, t);
      forall i | 0 <= i < |nodes|
        ensures Entries(key, nodes)[i] == Entry(Distance(key, nodes[i].nodeId), nodes[i])
      {
        EntriesExactly(key, nodes, i);
      }
      forall e
        ensures e in AllEntries(key, batch) <==>
          e.dist == Distance(key, e.node.nodeId) && exists r :: 0 <= r < |batch| && e.node in batch[r].nodes
      {
        AllEntriesStep(key, batch, e);
      }
    }
  }

  lemma AllEntriesStep(key: Hash, batch: seq<SearchResult>, e: Entry)
    requires batch != []
    requires var t := batch[..|batch| - 1];
      e in AllEntries(key, t) <==>
        e.dist == Distance(key, e.node.nodeId) && exists r :: 0 <= r < |t| && e.node in t[r].nodes
    requires var nodes := batch[|batch| - 1].nodes;
      forall i :: 0 <= i < |nodes| ==> Entries(key, nodes)[i] == Entry(Distance(key, nodes[i].nodeId), nodes[i])
    ensures e in AllEntries(key, batch) <==>
      e.dist == Distance(key, e.node.nodeId) && exists r :: 0 <= r < |batch| && e.node in batch[r].nodes
  {
    hide Distance, Entries;
    var t, nodes := batch[..|batch| - 1], batch[|batch| - 1].nodes;
    var es := Entries(key, nodes);
    if e.dist == Distance(key, e.node.nodeId) {
      if r :| 0 <= r < |batch| && e.node in batch[r].nodes {
        if r < |t| {
          assert e.node in t[r].nodes;
        } else {
          var i :| 0 <= i < |nodes| && nodes[i] == e.node;
          assert es[i] == e;
        }
      }
    }
    if r :| 0 <= r < |t| && e.node in t[r].nodes {
      assert e.node in batch[r].nodes;
    }
    if i :| 0 <= i < |es| && es[i] == e {
      assert nodes[i] == e.node;
    }
  }

  function OfferAll(q: seq<Entry>, es: seq<Entry>, cap: nat): seq<Entry> {
    if es == [] then q else Offer(true, OfferAll(q, es[..|es| - 1], cap), es[|es| - 1], cap)
  }

  lemma OfferAllNone(q: seq<Entry>, cap: nat)
    ensures OfferAll(q, [], cap) == q
  {
  }

  lemma OfferAllSnoc(q: seq<Entry>, es: seq<Entry>, x: Entry, cap: nat)
    ensures OfferAll(q, es + [x], cap) == Offer(true, OfferAll(q, es, cap), x, cap)
  {
    assert (es + [x])[..|es|] == es;
  }

  /** Continuing a run of offers. */
  lemma {:induction false} OfferAllAfter(s: seq<Entry>, es: seq<Entry>, cap: nat)
    ensures OfferAll(Offered(true, s, cap), es, cap) == Offered(true, s + es, cap)
  {
    hide OfferAll, Offered, Offer;
    if es == [] {
      OfferAllNone(Offered(true, s, cap), cap);
      assert s + es == s;
    } else {
      var t, x := es[..|es| - 1], es[|es| - 1];
      assert es == t + [x] && s + es == s + t + [x];
      OfferAllAfter(s, t, cap);
      OfferAllSnoc(Offered(true, s, cap), t, x, cap);
      OfferedSnoc(true, s + t, x, cap);
    }
  }

  lemma {:induction false} OfferAllConcat(q: seq<Entry>, es: seq<Entry>, fs: seq<Entry>, cap: nat)
    ensures OfferAll(q, es + fs, cap) == OfferAll(OfferAll(q, es, cap), fs, cap)
  {
    hide OfferAll, Offer;
    if fs == [] {
      OfferAllNone(OfferAll(q, es, cap), cap);
      assert es + fs == es;
    } else {
      var t, x := fs[..|fs| - 1], fs[|fs| - 1];
      assert fs == t + [x] && es + fs == es + t + [x];
      OfferAllConcat(q, es, t, cap);
      OfferAllSnoc(q, es + t, x, cap);
      OfferAllSnoc(OfferAll(q, es, cap), t, x, cap);
    }
  }

  lemma AllEntriesSnoc(key: Hash, batch: seq<SearchResult>, x: SearchResult)
    ensures AllEntries(key, batch + [x]) == AllEntries(key, batch) + Entries(key, x.nodes)
  {
    assert (batch + [x])[..|batch|] == batch;
  }

  lemma NoEntries(key: Hash)
    ensures AllEntries(key, []) == []
  {
  }

  lemma {:induction false} AllEntriesConcat(key: Hash, a: seq<SearchResult>, b: seq<SearchResult>)
    ensures AllEntries(key, a + b) == AllEntries(key, a) + AllEntries(key, b)
  {
    NoEntries(key);
    hide AllEntries, Entries;
    if b == [] {
      assert a + b == a;
    } else {
      var t, x := b[..|b| - 1], b[|b| - 1];
      assert b == t + [x] && a + b == a + t + [x];
      AllEntriesConcat(key, a, t);
      AllEntriesSnoc(key, t, x);
      AllEntriesSnoc(key, a + t, x);
    }
  }

  /** The records with a given key in a batch of answers, in order of arrival. */
  function FilesFor(batch: seq<SearchResult>, key: Hash): seq<FileRecord> {
    if batch == [] then []
    else FilesFor(batch[..|batch| - 1], key) + WithKey(batch[|batch| - 1].files, key)
  }

  function WithKey(files: seq<FileRecord>, key: Hash): seq<FileRecord> {
    if files == [] then []
    else
      var rest := WithKey(files[..|files| - 1], key);
      var last := files[|files| - 1];
      if last.key == key then rest + [last] else rest
  }

  /** What a batch adds to the results: files are only collected by key searches. */
  function Found(batch: seq<SearchResult>, searchType: SearchType, key: Hash): seq<FileRecord> {
    if searchType == KeySearch then FilesFor(batch, key) else []
  }

  /** The files found for a key: those of key searches with that key, in order of arrival, answer by answer
      and file by file. */
  lemma FoundExactly(batch: seq<SearchResult>, x: SearchResult, files: seq<FileRecord>, f: FileRecord, key: Hash)
    ensures Found([], KeySearch, key) == [] && Found(batch, NodeSearch, key) == []
    ensures Found(batch + [x], KeySearch, key) == Found(batch, KeySearch, key) + WithKey(x.files, key)
    ensures WithKey([], key) == []
    ensures WithKey(files + [f], key) == WithKey(files, key) + if f.key == key then [f] else []
  {
    assert (batch + [x])[..|batch|] == batch;
    assert (files + [f])[..|files|] == files;
  }

  /** `results` with one more file record at the end of the list of its key. */
  function AddFile(results: FileLists, file: FileRecord): FileLists {
    results[file.key := ListOf(results, file.key) + [file]]
  }

  function AddFiles(results: FileLists, files: seq<FileRecord>): FileLists {
    if files == [] then results else AddFile(AddFiles(results, files[..|files| - 1]), files[|files| - 1])
  }

  function AddBatch(results: FileLists, batch: seq<SearchResult>, searchType: SearchType): FileLists {
    if batch == [] then results
    else
      var rest := AddBatch(results, batch[..|batch| - 1], searchType);
      if searchType == KeySearch then AddFiles(rest, batch[|batch| - 1].files) else rest
  }

  lemma NoAnswers(key: Hash, searchType: SearchType, q: seq<Entry>, results: FileLists, cap: nat)
    ensures OfferAll(q, AllEntries(key, []), cap) == q
    ensures AddBatch(results, [], searchType) == results
  {
  }

  lemma OneMoreAnswer(key: Hash, searchType: SearchType, batch: seq<SearchResult>, r: nat, results: FileLists)
    requires r < |batch|
    ensures AllEntries(key, batch[..r + 1]) == AllEntries(key, batch[..r]) + Entries(key, batch[r].nodes)
    ensures AddBatch(results, batch[..r + 1], searchType)
      == var rest := AddBatch(results, batch[..r], searchType);
         if searchType == KeySearch then AddFiles(rest, batch[r].files) else rest
  {
    assert batch[..r + 1][..r] == batch[..r];
    hide Entries, AddFiles;
  }

  lemma {:induction false} FilesAdded(results: FileLists, files: seq<FileRecord>, k: Hash)
    ensures ListOf(AddFiles(results, files), k) == ListOf(results, k) + WithKey(files, k)
  {
    if files != [] {
      var t := files[..|files| - 1];
      FilesAdded(results, t, k);
      Reassociate(ListOf(results, k), WithKey(t, k), [files[|files| - 1]]);
    }
  }

  /** The list of a key after a batch: what it was, followed by what the batch holds for it. */
  lemma {:induction false} BatchAdded(results: FileLists, batch: seq<SearchResult>, searchType: SearchType, k: Hash)
    ensures ListOf(AddBatch(results, batch, searchType), k) == ListOf(results, k) + Found(batch, searchType, k)
  {
    hide AddFiles, WithKey, ListOf;
    if batch != [] {
      var t, files := batch[..|batch| - 1], batch[|batch| - 1].files;
      BatchAdded(results, t, searchType, k);
      FilesAdded(AddBatch(results, t, searchType), files, k);
      Reassociate(ListOf(results, k), Found(t, searchType, k), WithKey(files, k));
    }
  }

  lemma {:induction false} AddBatchConcat(results: FileLists, a: seq<SearchResult>, b: seq<SearchResult>, searchType: SearchType)
    ensures AddBatch(results, a + b, searchType) == AddBatch(AddBatch(results, a, searchType), b, searchType)
  {
    hide AddFiles;
    if b == [] {
      assert a + b == a;
    } else {
      var t, x := b[..|b| - 1], b[|b| - 1];
      assert (a + b)[..|a + b| - 1] == a + t;
      AddBatchConcat(results, a, t, searchType);
    }
  }

  // ----- the loops

  class Collector {
    const key: Hash
    const maxSize: nat
    var nextNodes: seq<Entry>
    var results: FileLists

    constructor (key: Hash, maxSize: nat, local: seq<FileRecord>)
      ensures this.key == key && this.maxSize == maxSize && nextNodes == [] && results == map[key := local]
    {
      this.key, this.maxSize := key, maxSize;
      nextNodes, results := [], map[key := local];
    }

    /** One suggestion: insert before the first pair that is not nearer, erase the copies behind it,
        spill the last pair. */
    method Suggest(entry: Entry)
      requires 1 <= maxSize && |nextNodes| <= maxSize
      modifies this`nextNodes
      ensures nextNodes == Offer(true, old(nextNodes), entry, maxSize)
    {
      hide Insert, Without;
      ghost var q := nextNodes;
      if |nextNodes| == 0 {
        nextNodes := nextNodes + [entry];
      } else {
        var i := 0;
        while i < |nextNodes| && entry.dist > nextNodes[i].dist
          invariant 0 <= i <= |nextNodes| && nextNodes == q
          invariant forall k :: 0 <= k < i ==> q[k].dist < entry.dist
        {
          i := i + 1;
        }
        if i < |nextNodes| {
          InsertAt(true, q, entry, i);
          nextNodes := nextNodes[..i] + [entry] + nextNodes[i..];
          i := i + 1;
          EraseCopies(entry, i);
          assert nextNodes == q[..i - 1] + [entry] + Without(true, q[i - 1..], entry);
          WithoutNotLonger(q[i - 1..], entry);
        }
        if |nextNodes| > maxSize {
          nextNodes := nextNodes[..|nextNodes| - 1];
        }
      }
    }

    /** Erases the copies of entry from a position on; after an erased pair the walk continues at its
        successor. */
    method EraseCopies(entry: Entry, start: nat)
      requires start <= |nextNodes|
      modifies this`nextNodes
      ensures nextNodes == old(nextNodes[..start]) + Without(true, old(nextNodes[start..]), entry)
    {
      hide Without, SameEntry;
      ghost var q, done, kept := nextNodes, start, nextNodes[..start];
      WithoutNone(true, [], entry);
      var i := start;
      assert q[start..start] == [] && q[..start] + [] == q[..start] && q == q[..start] + q[start..];
      while i < |nextNodes|
        invariant start <= done <= |q| && i == |kept|
        invariant nextNodes == kept + q[done..]
        invariant kept == q[..start] + Without(true, q[start..done], entry)
        decreases |q| - done
      {
        EraseStep(q, start, done, entry);
        SplitAt(kept, q, done);
        Reassociate(q[..start], Without(true, q[start..done], entry), [q[done]]);
        if SameEntry(nextNodes[i], entry) {
          nextNodes := nextNodes[..i] + nextNodes[i + 1..];
        } else {
          kept := kept + [q[done]];
          i := i + 1;
        }
        done := done + 1;
      }
      assert q[start..done] == q[start..];
    }

    /** The loop over a batch of answers. */
    method Absorb(batch: seq<SearchResult>, searchType: SearchType)
      requires 1 <= maxSize && |nextNodes| <= maxSize
      modifies this
      ensures nextNodes == OfferAll(old(nextNodes), AllEntries(key, batch), maxSize)
      ensures results == AddBatch(old(results), batch, searchType)
      ensures forall k :: ListOf(results, k) == old(ListOf(results, k)) + Found(batch, searchType, k)
    {
      hide Distance, Entries, AllEntries, OfferAll, AddFiles, AddBatch, Found, ListOf;
      NoAnswers(key, searchType, nextNodes, results, maxSize);
      for r := 0 to |batch|
        invariant |nextNodes| <= maxSize
        invariant nextNodes == OfferAll(old(nextNodes), AllEntries(key, batch[..r]), maxSize)
        invariant results == AddBatch(old(results), batch[..r], searchType)
      {
        OneMoreAnswer(key, searchType, batch, r, old(results));
        OfferAllConcat(old(nextNodes), AllEntries(key, batch[..r]), Entries(key, batch[r].nodes), maxSize);
        AbsorbNodes(batch[r].nodes);
        if searchType == KeySearch {
          AbsorbFiles(batch[r].files);
        }
      }
      assert batch[..|batch|] == batch;
      forall k: Hash
        ensures ListOf(results, k) == old(ListOf(results, k)) + Found(batch, searchType, k)
      {
        BatchAdded(old(results), batch, searchType, k);
      }
    }

    method AbsorbNodes(nodes: seq<NodeRecord>)
      requires 1 <= maxSize && |nextNodes| <= maxSize
      modifies this`nextNodes
      ensures |nextNodes| <= maxSize
      ensures nextNodes == OfferAll(old(nextNodes), Entries(key, nodes), maxSize)
    {
      hide Offer, Distance;
      for i := 0 to |nodes|
        invariant |nextNodes| <= maxSize
        invariant nextNodes == OfferAll(old(nextNodes), Entries(key, nodes[..i]), maxSize)
      {
        assert nodes[..i + 1][..i] == nodes[..i];
        var entry := Entry(Distance(key, nodes[i].nodeId), nodes[i]);
        OfferAllSnoc(old(nextNodes), Entries(key, nodes[..i]), entry, maxSize);
        OfferFits(nextNodes, entry, maxSize);
        Suggest(entry);
      }
      assert nodes[..|nodes|] == nodes;
    }

    method AbsorbFiles(files: seq<FileRecord>)
      modifies this`results
      ensures results == AddFiles(old(results), files)
    {
      hide AddFile;
      for i := 0 to |files|
        invariant results == AddFiles(old(results), files[..i])
      {
        assert files[..i + 1][..i] == files[..i];
        AbsorbFile(files[i]);
      }
      assert files[..|files|] == files;
    }

    method AbsorbFile(file: FileRecord)
      modifies this`results
      ensures results == AddFile(old(results), file)
    {
      if file.key !in results {
        var list := [];
        list := list + [file];
        results := results[file.key := list];
      } else {
        results := results[file.key := results[file.key] + [file]];
      }
    }
  }

  lemma SplitAt(kept: seq<Entry>, q: seq<Entry>, done: nat)
    requires done < |q|
    ensures var s := kept + q[done..];
      && s[|kept|] == q[done] && s[..|kept|] == kept && s[|kept| + 1..] == q[done + 1..]
      && s == kept + [q[done]] + q[done + 1..]
  {
  }

  lemma EraseStep(q: seq<Entry>, start: nat, done: nat, x: Entry)
    requires start <= done < |q|
    ensures Without(true, q[start..done + 1], x)
      == Without(true, q[start..done], x) + if SameEntry(q[done], x) then [] else [q[done]]
    ensures Without(true, q[start..done], x) + [] == Without(true, q[start..done], x)
  {
    hide Without;
    WithoutSnoc(true, q[start..done], q[done], x);
    assert q[start..done] + [q[done]] == q[start..done + 1];
  }

  lemma OfferFits(q: seq<Entry>, x: Entry, cap: nat)
    requires 1 <= cap && |q| <= cap
    ensures |Offer(true, q, x, cap)| <= cap
  {
  }

  lemma {:induction false} OfferAllFits(q: seq<Entry>, es: seq<Entry>, cap: nat)
    requires 1 <= cap && |q| <= cap
    ensures |OfferAll(q, es, cap)| <= cap
  {
    hide Offer;
    if es != [] {
      OfferAllFits(q, es[..|es| - 1], cap);
      OfferFits(OfferAll(q, es[..|es| - 1], cap), es[|es| - 1], cap);
    }
  }

  lemma {:induction false} WithoutNotLonger(s: seq<Entry>, x: Entry)
    ensures |Without(true, s, x)| <= |s|
  {
    if s != [] {
      WithoutNotLonger(s[1..], x);
    }
  }
}
