/**
  The local record store: lists of file records by key. Inserting looks the key up under a shared lock
  and updates under an exclusive one, so that other inserts can come in between.
 */
module FileTable {
  import opened Hamming
  import opened Messages

  predicate HasFile(l: seq<FileRecord>, r: FileRecord) {
    exists i :: 0 <= i < |l| && SameFile(l[i], r)
  }

  /** The update phase, given whether the find phase saw the key. Entries are never erased, so an
      iterator that was found stays valid; `unordered_map::insert` leaves an existing entry alone. */
  function Update(t: FileLists, r: FileRecord, found: bool): FileLists {
    if !found then (if r.key in t then t else t[r.key := [r]])
    else if r.key in t && !HasFile(t[r.key], r) then t[r.key := t[r.key] + [r]]
    else t
  }

  // ----- inserts that overlap

  /** An insert between its two phases. */
  datatype Insert = Insert(record: FileRecord, found: bool)

  datatype State = State(table: FileLists, pending: seq<Insert>, inserted: seq<FileRecord>)

  /** A thread runs its find phase, or the pending insert at an index runs its update phase. */
  datatype Event = Find(record: FileRecord) | Finish(i: nat)

  function Next(s: State, e: Event): State {
    match e
    case Find(r) => s.(pending := s.pending + [Insert(r, r.key in s.table)])
    case Finish(i) =>
      if i < |s.pending| then
        var p := s.pending[i];
        State(Update(s.table, p.record, p.found), s.pending[..i] + s.pending[i + 1..], s.inserted + [p.record])
      else s
  }

  function Run(s: State, events: seq<Event>): State
    decreases |events|
  {
    if events == [] then s else Run(Next(s, events[0]), events[1..])
  }

  function Empty(): State { State(map[], [], []) }

  predicate NoDuplicates(l: seq<FileRecord>) {
    forall i, j :: 0 <= i < j < |l| ==> !SameFile(l[i], l[j])
  }

  /** Each list holds inserted records under their own key, without duplicates, and is not empty. */
  predicate Clean(t: FileLists, inserted: seq<FileRecord>) {
    forall k :: k in t ==> CleanList(t[k], k, inserted)
  }

  predicate CleanList(l: seq<FileRecord>, key: Hash, inserted: seq<FileRecord>) {
    && l != []
    && NoDuplicates(l)
    && forall i :: 0 <= i < |l| ==> l[i].key == key && l[i] in inserted
  }

  /** An insert that found its key still finds it. */
  predicate FoundStays(s: State) {
    forall p :: p in s.pending && p.found ==> p.record.key in s.table
  }

  /** No list shrinks or is reordered. */
  predicate Grows(t: FileLists, u: FileLists) {
    forall k :: k in t ==> k in u && t[k] <= u[k]
  }

  lemma UpdateKeeps(t: FileLists, r: FileRecord, found: bool, inserted: seq<FileRecord>)
    requires Clean(t, inserted)
    ensures Clean(Update(t, r, found), inserted + [r])
    ensures Grows(t, Update(t, r, found))
  {
    var u := Update(t, r, found);
    forall k | k in u
      ensures CleanList(u[k], k, inserted + [r])
    {
      if k in t {
        assert CleanList(t[k], k, inserted);
      }
    }
  }

  lemma FoundStaysNext(s: State, e: Event)
    requires FoundStays(s)
    ensures FoundStays(Next(s, e))
  {
    var t := Next(s, e);
    forall p | p in t.pending && p.found
      ensures p.record.key in t.table
    {
      assert p in s.pending || (e.Find? && p == Insert(e.record, e.record.key in s.table));
    }
  }

  lemma NextKeeps(s: State, e: Event)
    requires Clean(s.table, s.inserted) && FoundStays(s)
    ensures var t := Next(s, e); Clean(t.table, t.inserted) && FoundStays(t) && Grows(s.table, t.table)
  {
    if e.Finish? && e.i < |s.pending| {
      var p := s.pending[e.i];
      UpdateKeeps(s.table, p.record, p.found, s.inserted);
    }
    FoundStaysNext(s, e);
    hide Update, Clean, FoundStays;
  }

  lemma {:induction false} RunKeeps(s: State, events: seq<Event>)
    requires Clean(s.table, s.inserted) && FoundStays(s)
    ensures var t := Run(s, events); Clean(t.table, t.inserted) && FoundStays(t) && Grows(s.table, t.table)
    decreases |events|
  {
    if events != [] {
      NextKeeps(s, events[0]);
      hide Next, Clean, FoundStays;
      RunKeeps(Next(s, events[0]), events[1..]);
    }
  }

  /** Every interleaving: own keys, inserted records only, no two == records, and from any point of the
      run on no list shrinks. */
  lemma StoreInvariant(events: seq<Event>, later: seq<Event>)
    ensures var s := Run(Empty(), events);
      && Clean(s.table, s.inserted)
      && Grows(s.table, Run(s, later).table)
  {
    RunKeeps(Empty(), events);
    RunKeeps(Run(Empty(), events), later);
  }

  // ----- what an update achieves

  /** A finished insert is in the table afterwards exactly if its key was not missed by the find phase
      and entered by another insert since, or the same record was there already. */
  lemma UpdateExact(s: State, i: nat)
    requires i < |s.pending| && FoundStays(s)
    ensures var p := s.pending[i];
      HasFile(ListOf(Next(s, Finish(i)).table, p.record.key), p.record)
      <==> p.found || p.record.key !in s.table || HasFile(ListOf(s.table, p.record.key), p.record)
  {
    var p := s.pending[i];
    var u := Update(s.table, p.record, p.found);
    assert p in s.pending;
    if p.found && !HasFile(s.table[p.record.key], p.record) {
      var l := u[p.record.key];
      assert SameFile(l[|l| - 1], p.record);
    } else if p.record.key !in s.table {
      assert SameFile(u[p.record.key][0], p.record);
    }
  }

  /** Finishing the insert at index i drops its record. */
  predicate Drops(s: State, i: nat) {
    i < |s.pending|
    && var p := s.pending[i];
       !p.found && p.record.key in s.table && !HasFile(s.table[p.record.key], p.record)
  }

  /** The records dropped in the course of a run. */
  function Dropped(s: State, events: seq<Event>): seq<FileRecord>
    decreases |events|
  {
    if events == [] then []
    else
      (if events[0].Finish? && Drops(s, events[0].i) then [s.pending[events[0].i].record] else [])
      + Dropped(Next(s, events[0]), events[1..])
  }

  predicate Stored(t: FileLists, r: FileRecord) {
    HasFile(ListOf(t, r.key), r)
  }

  /** Two first inserts for a key that look it up before either updates: the second record is lost. */
  lemma LostInsert(a: FileRecord, b: FileRecord)
    requires a.key == b.key
    ensures ListOf(Run(Empty(), [Find(a), Find(b), Finish(0), Finish(0)]).table, b.key) == [a]
  {
    var events := [Find(a), Find(b), Finish(0), Finish(0)];
    var s2 := State(map[], [Insert(a, false), Insert(b, false)], []);
    var s3 := State(map[a.key := [a]], [Insert(b, false)], [a]);
    var s4 := State(map[a.key := [a]], [], [a, b]);
    assert Next(Next(Empty(), Find(a)), Find(b)) == s2;
    assert Next(s2, Finish(0)) == s3;
    assert Next(s3, Finish(0)) == s4;
    assert events[1..] == [Find(b), Finish(0), Finish(0)];
    assert events[1..][1..] == [Finish(0), Finish(0)];
    assert events[1..][1..][1..] == [Finish(0)];
    assert Run(s2, [Finish(0), Finish(0)]) == Run(s3, [Finish(0)]) == Run(s4, []) == s4;
  }

  // ----- inserts that do not overlap

  function InsertAll(records: seq<FileRecord>): FileLists {
    if records == [] then map[]
    else
      var t := InsertAll(records[..|records| - 1]);
      var r := records[|records| - 1];
      Update(t, r, r.key in t)
  }

  /** The records of a history with a given key that no earlier one of it is == to. */
  function FirstArrivals(records: seq<FileRecord>, key: Hash): seq<FileRecord> {
    if records == [] then []
    else
      var before, r := records[..|records| - 1], records[|records| - 1];
      FirstArrivals(before, key) + if r.key == key && !HasFile(before, r) then [r] else []
  }

  lemma HasFileConcat(a: seq<FileRecord>, b: seq<FileRecord>, r: FileRecord)
    ensures HasFile(a + b, r) <==> HasFile(a, r) || HasFile(b, r)
  {
    var c := a + b;
    assert forall i :: 0 <= i < |a| ==> c[i] == a[i];
    assert forall i :: 0 <= i < |b| ==> c[|a| + i] == b[i];
    if HasFile(c, r) {
      var i :| 0 <= i < |c| && SameFile(c[i], r);
      assert i < |a| || b[i - |a|] == c[i];
    }
  }

  lemma {:induction false} FirstArrivalsComplete(records: seq<FileRecord>, r: FileRecord)
    ensures HasFile(FirstArrivals(records, r.key), r) <==> HasFile(records, r)
  {
    if records != [] {
      var before, x := records[..|records| - 1], records[|records| - 1];
      FirstArrivalsComplete(before, r);
      assert records == before + [x];
      HasFileConcat(before, [x], r);
      var kept := if x.key == r.key && !HasFile(before, x) then [x] else [];
      HasFileConcat(FirstArrivals(before, r.key), kept, r);
      assert SameFile(x, r) ==> (HasFile(before, x) <==> HasFile(before, r));
      assert [x][0] == x;
      assert kept != [] ==> kept[0] == x;
      hide SameFile;
      assert HasFile([x], r) <==> SameFile(x, r);
      assert HasFile(kept, r) <==> kept != [] && SameFile(x, r);
    }
  }

  /** Then a query returns the first arrivals of the history for its key, in order of arrival. */
  lemma {:induction false} SequentialStore(records: seq<FileRecord>, key: Hash)
    ensures ListOf(InsertAll(records), key) == FirstArrivals(records, key)
    ensures key in InsertAll(records) <==> FirstArrivals(records, key) != []
  {
    if records != [] {
      var before, r := records[..|records| - 1], records[|records| - 1];
      SequentialStore(before, key);
      FirstArrivalsComplete(before, r);
      hide SameFile;
    }
  }

  // ----- the history that a table shows

  /** Every query gives the first arrivals of a history, in order. */
  ghost predicate Shows(t: FileLists, records: seq<FileRecord>) {
    forall k :: ListOf(t, k) == FirstArrivals(records, k)
  }

  /** ... of the inserts that have finished, in the order in which they finished. */
  ghost predicate Faithful(s: State) {
    Shows(s.table, s.inserted)
  }

  lemma FirstArrivalsSnoc(records: seq<FileRecord>, r: FileRecord, key: Hash)
    ensures FirstArrivals(records + [r], key)
      == FirstArrivals(records, key) + if r.key == key && !HasFile(records, r) then [r] else []
  {
    assert (records + [r])[..|records|] == records;
  }

  /** One finished insert extends the history that the table shows, unless it drops its record. */
  lemma ShowsStep(s: State, i: nat, records: seq<FileRecord>)
    requires i < |s.pending| && FoundStays(s) && Shows(s.table, records)
    requires forall k :: k in s.table ==> s.table[k] != []
    ensures var t, r := Next(s, Finish(i)).table, s.pending[i].record;
      if Drops(s, i) then Shows(t, records) && !Shows(t, records + [r]) else Shows(t, records + [r])
  {
    var t, p := Next(s, Finish(i)).table, s.pending[i];
    var r := p.record;
    assert p in s.pending;
    FirstArrivalsComplete(records, r);
    hide HasFile;
    forall k: Hash
      ensures FirstArrivals(records + [r], k)
        == FirstArrivals(records, k) + if r.key == k && !HasFile(records, r) then [r] else []
    {
      FirstArrivalsSnoc(records, r, k);
    }
    assert ListOf(s.table, r.key) == FirstArrivals(records, r.key);
    hide FirstArrivals;
    assert Drops(s, i) ==> ListOf(t, r.key) != FirstArrivals(records + [r], r.key);
  }

  lemma FaithfulStep(s: State, e: Event)
    requires Clean(s.table, s.inserted) && FoundStays(s) && Faithful(s)
    ensures Faithful(Next(s, e)) <==> !(e.Finish? && Drops(s, e.i))
  {
    if e.Finish? && e.i < |s.pending| {
      ShowsStep(s, e.i, s.inserted);
    }
    hide Shows;
  }

  // ----- what the store holds in the end

  /** The record whose insert an event finishes, unless it is dropped. */
  function KeptNow(s: State, e: Event): seq<FileRecord> {
    if e.Finish? && e.i < |s.pending| && !Drops(s, e.i) then [s.pending[e.i].record] else []
  }

  /** The records of a run whose inserts finished and did not drop them. */
  function Kept(s: State, events: seq<Event>): seq<FileRecord>
    decreases |events|
  {
    if events == [] then [] else KeptNow(s, events[0]) + Kept(Next(s, events[0]), events[1..])
  }

  lemma ShowsNext(s: State, e: Event, records: seq<FileRecord>)
    requires Clean(s.table, s.inserted) && FoundStays(s) && Shows(s.table, records)
    ensures Shows(Next(s, e).table, records + KeptNow(s, e))
  {
    assert records + [] == records;
    if e.Finish? && e.i < |s.pending| {
      assert forall k :: k in s.table ==> CleanList(s.table[k], k, s.inserted);
      ShowsStep(s, e.i, records);
    }
    hide Shows, Clean, FoundStays, Drops, Update;
  }

  lemma {:induction false} ShowsKept(s: State, events: seq<Event>, records: seq<FileRecord>)
    requires Clean(s.table, s.inserted) && FoundStays(s) && Shows(s.table, records)
    ensures Shows(Run(s, events).table, records + Kept(s, events))
    decreases |events|
  {
    hide Next, Clean, FoundStays, Shows, KeptNow;
    if events == [] {
      assert records + [] == records;
    } else {
      var t, kept := Next(s, events[0]), KeptNow(s, events[0]);
      NextKeeps(s, events[0]);
      ShowsNext(s, events[0], records);
      ShowsKept(t, events[1..], records + kept);
      assert records + kept + Kept(t, events[1..]) == records + (kept + Kept(t, events[1..]));
    }
  }

  /** In every interleaving, overlapping inserts included, a query gives the first arrivals of the kept
      records; so a record is stored in the end, up to ==, exactly if it, or one == to it, was kept; and
      the table is the one that inserting the kept records one after another gives. */
  lemma StoreExactly(events: seq<Event>)
    ensures Run(Empty(), events).table == InsertAll(Kept(Empty(), events))
    ensures forall k :: ListOf(Run(Empty(), events).table, k) == FirstArrivals(Kept(Empty(), events), k)
    ensures forall r :: Stored(Run(Empty(), events).table, r) <==> HasFile(Kept(Empty(), events), r)
  {
    ShowsKept(Empty(), events, []);
    RunKeeps(Empty(), events);
    var t, kept := Run(Empty(), events).table, Kept(Empty(), events);
    hide Run, Kept;
    assert [] + kept == kept;
    forall r: FileRecord
      ensures Stored(t, r) <==> HasFile(kept, r)
    {
      FirstArrivalsComplete(kept, r);
    }
    ShownTable(t, kept);
  }

  /** What a table shows determines it. */
  lemma ShownTable(t: FileLists, records: seq<FileRecord>)
    requires Shows(t, records) && forall k :: k in t ==> t[k] != []
    ensures t == InsertAll(records)
  {
    var u := InsertAll(records);
    forall k: Hash
      ensures ListOf(u, k) == ListOf(t, k) && (k in u <==> k in t)
    {
      SequentialStore(records, k);
    }
    hide InsertAll, FirstArrivals;
    assert forall k :: k in t ==> u[k] == ListOf(u, k);
  }

  // ----- when the store answers every query with the first arrivals

  /** After every prefix of the events. */
  ghost predicate AlwaysFaithful(s: State, events: seq<Event>) {
    forall n :: 0 <= n <= |events| ==> Faithful(Run(s, events[..n]))
  }

  lemma AlwaysFaithfulStep(s: State, events: seq<Event>)
    requires events != []
    ensures AlwaysFaithful(s, events) <==> Faithful(s) && AlwaysFaithful(Next(s, events[0]), events[1..])
  {
    var t, rest := Next(s, events[0]), events[1..];
    hide Next, Faithful;
    assert Run(s, events[..0]) == s;
    forall n | 0 <= n <= |rest|
      ensures Run(s, events[..n + 1]) == Run(t, rest[..n])
    {
      assert events[..n + 1][1..] == rest[..n];
    }
    if AlwaysFaithful(s, events) {
      forall n | 0 <= n <= |rest|
        ensures Faithful(Run(t, rest[..n]))
      {
        assert Faithful(Run(s, events[..n + 1]));
      }
    }
    if Faithful(s) && AlwaysFaithful(t, rest) {
      forall n | 0 <= n <= |events|
        ensures Faithful(Run(s, events[..n]))
      {
        assert n > 0 ==> Run(s, events[..n]) == Run(t, rest[..n - 1]);
      }
    }
  }

  lemma {:induction false} FaithfulFrom(s: State, events: seq<Event>)
    requires Clean(s.table, s.inserted) && FoundStays(s) && Faithful(s)
    ensures AlwaysFaithful(s, events) <==> Dropped(s, events) == []
    decreases |events|
  {
    if events == [] {
      assert forall n :: 0 <= n <= |events| ==> events[..n] == [];
    } else {
      var t := Next(s, events[0]);
      FaithfulStep(s, events[0]);
      NextKeeps(s, events[0]);
      AlwaysFaithfulStep(s, events);
      if Faithful(t) {
        FaithfulFrom(t, events[1..]);
      } else {
        NotFaithfulNow(t, events[1..]);
      }
      hide Next, Clean, FoundStays, Faithful, Drops, AlwaysFaithful;
    }
  }

  lemma NotFaithfulNow(s: State, events: seq<Event>)
    requires !Faithful(s)
    ensures !AlwaysFaithful(s, events)
  {
    hide Faithful;
    assert Run(s, events[..0]) == s;
  }

  /** In every interleaving: a query gives the first arrivals of its key at every moment exactly if no
      insert drops its record; then in particular in the end. */
  lemma StoreFaithfulExactly(events: seq<Event>)
    ensures AlwaysFaithful(Empty(), events) <==> Dropped(Empty(), events) == []
    ensures Dropped(Empty(), events) == [] ==> Faithful(Run(Empty(), events))
  {
    FaithfulFrom(Empty(), events);
    hide Dropped, Faithful, Run;
    assert events[..|events|] == events;
  }

  // ----- inserts one after another

  /** Each insert finds and updates before the next one begins. */
  function OneByOne(records: seq<FileRecord>): seq<Event> {
    if records == [] then [] else OneByOne(records[..|records| - 1]) + [Find(records[|records| - 1]), Finish(0)]
  }

  lemma {:induction false} RunConcat(s: State, a: seq<Event>, b: seq<Event>)
    ensures Run(s, a + b) == Run(Run(s, a), b)
    decreases |a|
  {
    hide Next;
    if a == [] {
      assert a + b == b;
    } else {
      RunConcat(Next(s, a[0]), a[1..], b);
      assert (a + b)[1..] == a[1..] + b;
    }
  }

  /** Such a run leaves the table that inserting the records one after another gives. */
  lemma {:induction false} OneByOneRun(records: seq<FileRecord>)
    ensures Run(Empty(), OneByOne(records)) == State(InsertAll(records), [], records)
  {
    if records != [] {
      var before, r := records[..|records| - 1], records[|records| - 1];
      OneByOneRun(before);
      RunConcat(Empty(), OneByOne(before), [Find(r), Finish(0)]);
      var s := State(InsertAll(before), [], before);
      var found := r.key in s.table;
      var t := State(s.table, [Insert(r, found)], before);
      assert Next(s, Find(r)) == t;
      assert Next(t, Finish(0)) == State(Update(s.table, r, found), [], before + [r]);
      assert [Find(r), Finish(0)][1..] == [Finish(0)] && [Finish(0)][1..] == [];
      assert before + [r] == records;
      hide Next, Update;
      assert Run(s, [Find(r), Finish(0)]) == Run(t, [Finish(0)]) == Run(Next(t, Finish(0)), []);
    }
  }

  // ----- the source's operations

  class Store {
    var hashTable: FileLists
    /** Every record inserted so far, in order, without those that were dropped; by StoreExactly any
        interleaving of inserts leaves such a table. */
    ghost var history: seq<FileRecord>

    ghost predicate Valid()
      reads this
    {
      hashTable == InsertAll(history)
    }

    constructor ()
      ensures Valid() && history == []
    {
      hashTable, history := map[], [];
    }

    /** `insertFileInfoRecord` when no other insert comes between its two phases. */
    method InsertFileInfoRecord(record: FileRecord)
      requires Valid()
      modifies this
      ensures Valid() && history == old(history) + [record]
      ensures ListOf(hashTable, record.key)
        == old(ListOf(hashTable, record.key))
           + if HasFile(old(ListOf(hashTable, record.key)), record) then [] else [record]
      ensures forall k :: k != record.key ==> ListOf(hashTable, k) == old(ListOf(hashTable, k))
    {
      assert (history + [record])[..|history|] == history;
      history := history + [record];
      var found := record.key in hashTable;
      if !found {
        var l := [record];
        if record.key !in hashTable {
          hashTable := hashTable[record.key := l];
        }
      } else {
        var l := hashTable[record.key];
        var i := 0;
        while i < |l| && !SameFile(l[i], record)
          invariant 0 <= i <= |l|
          invariant forall k :: 0 <= k < i ==> !SameFile(l[k], record)
        {
          i := i + 1;
        }
        if i == |l| {
          hashTable := hashTable[record.key := l + [record]];
        }
      }
    }

    /** `query`: copies out the list of a key, which holds the first arrivals of the history. */
    method QueryKey(key: Hash) returns (l: seq<FileRecord>)
      requires Valid()
      ensures l == FirstArrivals(history, key)
    {
      l := [];
      if key in hashTable {
        l := hashTable[key];
      }
      SequentialStore(history, key);
    }
  }
}
