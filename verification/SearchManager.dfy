/**
  The registry of searches: which sub-search an incoming answer belongs to. Every round of a
  sub-search has its own id, so that answers to an earlier round are dropped.
 */
module SearchManager {
  import opened Messages

  /** A sub-search object, named by a handle: the search that owns it, its id for the current round,
      and the rounds it has begun. */
  datatype Sub = Sub(master: nat, id: nat, hops: nat)

  /** A round of a sub-search. */
  datatype Round = Round(handle: nat, hops: nat)

  datatype Registry = Registry(
    nextMaster: nat,                       // next_master_search_id
    nextSub: nat,                          // next_sub_search_id
    subs: map<nat, Sub>,                   // all sub-search objects
    tables: map<nat, map<nat, nat>>,       // search::sub_searches: id to handle, of every search object
    registered: set<nat>,                  // the keys of `searches`
    issued: map<nat, Round>                // what each id was issued for
  )

  datatype Event =
    | NewSearch                            // start_search creates a search object
    | AddSub(master: nat)                  // creates a sub-search and enters it in the table
    | Register(master: nat)                // searches[masterSearchId] = s
    | Advance(handle: nat)                 // a sub-search begins a round
    | Remove(master: nat)                  // remove_search

  function Empty(): Registry {
    Registry(0, 0, map[], map[], {}, map[])
  }

  function Next(r: Registry, e: Event): Registry {
    match e
    case NewSearch => r.(nextMaster := r.nextMaster + 1, tables := r.tables[r.nextMaster := map[]])
    case AddSub(m) =>
      if m in r.tables then
        var handle := |r.subs|;
        var table: map<nat, nat> := r.tables[m][r.nextSub := handle];
        r.(nextSub := r.nextSub + 1,
           subs := r.subs[handle := Sub(m, r.nextSub, 0)],
           tables := r.tables[m := table],
           issued := r.issued[r.nextSub := Round(handle, 0)])
      else r
    case Register(m) => if m in r.tables then r.(registered := r.registered + {m}) else r
    case Advance(handle) => AdvanceStep(r, handle)
    case Remove(m) => r.(registered := r.registered - {m})
  }

  /** `search::advance`: the entry under the old id is replaced by one under a fresh id. */
  function AdvanceStep(r: Registry, handle: nat): Registry {
    if handle in r.subs && r.subs[handle].master in r.tables then
      var sub := r.subs[handle];
      var table: map<nat, nat> := (r.tables[sub.master] - {sub.id})[r.nextSub := handle];
      r.(nextSub := r.nextSub + 1,
         subs := r.subs[handle := Sub(sub.master, r.nextSub, sub.hops + 1)],
         tables := r.tables[sub.master := table],
         issued := r.issued[r.nextSub := Round(handle, sub.hops + 1)])
    else r
  }

  function Run(r: Registry, events: seq<Event>): Registry
    decreases |events|
  {
    if events == [] then r else Run(Next(r, events[0]), events[1..])
  }

  /** `handle_search_result`: the sub-search whose mailbox an answer goes to. */
  function Deliver(r: Registry, answer: SearchResult): Option<nat> {
    if answer.searchId in r.registered && answer.searchId in r.tables
       && answer.subSearchId in r.tables[answer.searchId]
    then Some(r.tables[answer.searchId][answer.subSearchId])
    else None
  }

  // ----- what every interleaving keeps

  /** Every table entry names a sub-search of that search, by its current id ... */
  ghost predicate EntriesCurrent(r: Registry) {
    forall m, id :: m in r.tables && id in r.tables[m] ==>
      var h := r.tables[m][id];
      h in r.subs && r.subs[h].master == m && r.subs[h].id == id
  }

  predicate Listed(r: Registry, h: nat)
    requires h in r.subs
  {
    var sub := r.subs[h];
    sub.master in r.tables && sub.id in r.tables[sub.master] && r.tables[sub.master][sub.id] == h
  }

  /** ... and every sub-search has an entry: the tables are bijections. */
  ghost predicate AllListed(r: Registry) {
    forall h :: h in r.subs ==> Listed(r, h)
  }

  /** Ids are issued once, and each sub-search holds the id of its current round. */
  ghost predicate Issued(r: Registry) {
    && (forall id :: id in r.issued <==> 0 <= id < r.nextSub)
    && (forall h :: h in r.subs ==> r.subs[h].id in r.issued && r.issued[r.subs[h].id] == Round(h, r.subs[h].hops))
    && (forall id :: id in r.issued ==> r.issued[id].handle in r.subs && r.issued[id].hops <= r.subs[r.issued[id].handle].hops)
  }

  /** Handles and search ids are given out in order. */
  ghost predicate Numbered(r: Registry) {
    && (forall h :: h in r.subs <==> 0 <= h < |r.subs|)
    && (forall m :: m in r.tables <==> 0 <= m < r.nextMaster)
    && r.registered <= r.tables.Keys
  }

  ghost predicate Valid(r: Registry) {
    EntriesCurrent(r) && AllListed(r) && Issued(r) && Numbered(r)
  }

  lemma FreshNumbers(r: Registry)
    requires Valid(r)
    ensures |r.subs| !in r.subs && r.nextSub !in r.issued
    ensures forall m :: m in r.tables ==> r.nextSub !in r.tables[m]
    ensures forall h :: h in r.subs ==> r.subs[h].id != r.nextSub
  {
    assert r.nextSub !in r.issued;
    hide AllListed;
  }

  lemma AddSubKeeps(r: Registry, m: nat)
    requires Valid(r) && m in r.tables
    ensures Valid(Next(r, AddSub(m)))
  {
    FreshNumbers(r);
    AddSubListed(r, m);
    AddSubCurrent(r, m);
    IssueNext(r, Next(r, AddSub(m)), |r.subs|, Sub(m, r.nextSub, 0));
    AddSubNumbered(r, m);
    hide Next, EntriesCurrent, AllListed, Issued, Numbered;
  }

  lemma AddSubListed(r: Registry, m: nat)
    requires AllListed(r) && m in r.tables && |r.subs| !in r.subs && r.nextSub !in r.tables[m]
    ensures AllListed(Next(r, AddSub(m)))
  {
    var t := Next(r, AddSub(m));
    forall h | h in t.subs
      ensures Listed(t, h)
    {
      assert h == |r.subs| || Listed(r, h);
    }
  }

  lemma AddSubCurrent(r: Registry, m: nat)
    requires EntriesCurrent(r) && m in r.tables && |r.subs| !in r.subs
    ensures EntriesCurrent(Next(r, AddSub(m)))
  {
  }

  /** Issuing the next id to a new sub-search, or to one that begins a round. */
  lemma IssueNext(r: Registry, t: Registry, h: nat, sub: Sub)
    requires Issued(r) && r.nextSub !in r.issued
    requires t.nextSub == r.nextSub + 1 && sub.id == r.nextSub
    requires t.subs == r.subs[h := sub] && t.issued == r.issued[r.nextSub := Round(h, sub.hops)]
    requires h in r.subs ==> r.subs[h].hops <= sub.hops
    ensures Issued(t)
  {
  }

  lemma AddSubNumbered(r: Registry, m: nat)
    requires Numbered(r) && m in r.tables && |r.subs| !in r.subs
    ensures Numbered(Next(r, AddSub(m)))
  {
    var t := Next(r, AddSub(m));
    assert t.subs.Keys == r.subs.Keys + {|r.subs|};
    assert |t.subs| == |t.subs.Keys| == |r.subs.Keys| + 1 == |r.subs| + 1;
  }

  lemma AdvanceKeeps(r: Registry, handle: nat)
    requires Valid(r) && handle in r.subs
    ensures Listed(r, handle)
    ensures Valid(AdvanceStep(r, handle))
  {
    FreshNumbers(r);
    assert Listed(r, handle);
    AdvanceListed(r, handle);
    AdvanceCurrent(r, handle);
    var sub := r.subs[handle];
    IssueNext(r, AdvanceStep(r, handle), handle, Sub(sub.master, r.nextSub, sub.hops + 1));
    AdvanceNumbered(r, handle);
    hide AdvanceStep, EntriesCurrent, AllListed, Issued, Numbered;
  }

  lemma AdvanceListed(r: Registry, handle: nat)
    requires AllListed(r) && handle in r.subs && Listed(r, handle)
    requires forall m :: m in r.tables ==> r.nextSub !in r.tables[m]
    ensures AllListed(AdvanceStep(r, handle))
  {
    var t := AdvanceStep(r, handle);
    forall h | h in t.subs
      ensures Listed(t, h)
    {
      assert Listed(r, h);
    }
  }

  lemma AdvanceCurrent(r: Registry, handle: nat)
    requires EntriesCurrent(r) && handle in r.subs && Listed(r, handle)
    ensures EntriesCurrent(AdvanceStep(r, handle))
  {
  }

  lemma AdvanceNumbered(r: Registry, handle: nat)
    requires Numbered(r) && handle in r.subs && Listed(r, handle)
    ensures Numbered(AdvanceStep(r, handle))
  {
    var t := AdvanceStep(r, handle);
    assert t.subs.Keys == r.subs.Keys;
    assert |t.subs| == |t.subs.Keys| == |r.subs.Keys| == |r.subs|;
  }

  lemma NewSearchKeeps(r: Registry)
    requires Valid(r)
    ensures Valid(Next(r, NewSearch))
  {
    assert r.nextMaster !in r.tables;
    NewTableListed(r);
    NewTableCurrent(r);
    hide EntriesCurrent, AllListed;
  }

  lemma NewTableListed(r: Registry)
    requires AllListed(r) && r.nextMaster !in r.tables
    ensures AllListed(Next(r, NewSearch))
  {
    forall h | h in r.subs
      ensures Listed(Next(r, NewSearch), h)
    {
      assert Listed(r, h);
    }
  }

  lemma NewTableCurrent(r: Registry)
    requires EntriesCurrent(r) && r.nextMaster !in r.tables
    ensures EntriesCurrent(Next(r, NewSearch))
  {
  }

  lemma NextKeeps(r: Registry, e: Event)
    requires Valid(r)
    ensures Valid(Next(r, e))
  {
    assert r.registered <= r.tables.Keys;
    hide Valid;
    match e
    case NewSearch => NewSearchKeeps(r);
    case AddSub(m) =>
      if m in r.tables {
        AddSubKeeps(r, m);
      }
    case Advance(handle) =>
      if handle in r.subs {
        AdvanceKeeps(r, handle);
      }
    case Register(m) => RegisteredFrame(r, Next(r, e));
    case Remove(m) => RegisteredFrame(r, Next(r, e));
  }

  lemma RegisteredFrame(r: Registry, t: Registry)
    requires Valid(r) && t == r.(registered := t.registered) && t.registered <= r.tables.Keys
    ensures Valid(t)
  {
    forall h | h in t.subs
      ensures Listed(t, h)
    {
      assert Listed(r, h);
    }
    hide Listed, Issued;
  }

  lemma {:induction false} RunKeeps(r: Registry, events: seq<Event>)
    requires Valid(r)
    ensures Valid(Run(r, events))
    decreases |events|
  {
    hide Valid, Next;
    if events != [] {
      NextKeeps(r, events[0]);
      RunKeeps(Next(r, events[0]), events[1..]);
    }
  }

  /** The sub-searches of a search, as its table lists them. */
  function Members(r: Registry, m: nat): set<nat>
    requires m in r.tables
  {
    r.tables[m].Values
  }

  /** The sub-searches that belong to a search. */
  function Owned(subs: map<nat, Sub>, m: nat): set<nat> {
    set h | h in subs && subs[h].master == m
  }

  /** From the start, in every interleaving: the tables are bijections between current ids and the
      sub-searches of their search, whose entries are keyed by what was last issued to them. */
  lemma RegistryInvariant(events: seq<Event>)
    ensures var r := Run(Empty(), events);
      && Valid(r)
      && (forall m :: m in r.tables ==> Members(r, m) == Owned(r.subs, m))
      && (forall m, i, j :: m in r.tables && i in r.tables[m] && j in r.tables[m] && i != j
            ==> r.tables[m][i] != r.tables[m][j])
  {
    assert Valid(Empty());
    RunKeeps(Empty(), events);
    var r := Run(Empty(), events);
    hide Run, Issued, Numbered;
    forall m | m in r.tables
      ensures Members(r, m) == Owned(r.subs, m)
    {
      MembersExact(r, m);
    }
  }

  lemma MembersExact(r: Registry, m: nat)
    requires Valid(r) && m in r.tables
    ensures Members(r, m) == Owned(r.subs, m)
  {
    hide Issued, Numbered;
    forall h | h in r.subs && r.subs[h].master == m
      ensures h in Members(r, m)
    {
      assert Listed(r, h);
    }
  }

  /** A new round changes the id and nothing else: every search keeps its set of sub-searches. */
  lemma AdvancePreservesMembers(r: Registry, handle: nat, m: nat)
    requires Valid(r) && handle in r.subs && m in r.tables
    ensures var t := AdvanceStep(r, handle);
      && m in t.tables && Members(t, m) == Members(r, m)
      && |t.tables[m]| == |r.tables[m]|
      && t.subs[handle] == r.subs[handle].(id := r.nextSub, hops := r.subs[handle].hops + 1)
      && (forall h :: h in r.subs && h != handle ==> t.subs[h] == r.subs[h])
  {
    assert Listed(r, handle);
    AdvanceKeeps(r, handle);
    MembersExact(r, m);
    var t := AdvanceStep(r, handle);
    MembersExact(t, m);
    FreshNumbers(r);
    OwnedSame(r.subs, handle, t.subs[handle], m);
    TableSize(r, handle, m);
    hide Valid, Listed, Owned, Members;
  }

  lemma OwnedSame(subs: map<nat, Sub>, handle: nat, sub: Sub, m: nat)
    requires handle in subs && subs[handle].master == sub.master
    ensures Owned(subs[handle := sub], m) == Owned(subs, m)
  {
  }

  lemma TableSize(r: Registry, handle: nat, m: nat)
    requires handle in r.subs && Listed(r, handle) && m in r.tables && r.nextSub !in r.tables[m]
    ensures |AdvanceStep(r, handle).tables[m]| == |r.tables[m]|
  {
    if m == r.subs[handle].master {
      var before, after := r.tables[m], AdvanceStep(r, handle).tables[m];
      assert after.Keys == before.Keys - {r.subs[handle].id} + {r.nextSub};
      assert |after| == |after.Keys| == |before.Keys| == |before|;
    }
  }

  // ----- which answers are accepted

  /** An answer is accepted exactly if its search is registered and it carries the id of the current
      round of a sub-search of that search, and it goes to that sub-search. */
  lemma DeliverExact(r: Registry, answer: SearchResult)
    requires Valid(r)
    ensures Deliver(r, answer).Some? ==>
      && answer.searchId in r.registered
      && var h := Deliver(r, answer).value;
         h in r.subs && r.subs[h].master == answer.searchId
         && r.issued[answer.subSearchId] == Round(h, r.subs[h].hops)
    ensures answer.searchId in r.registered ==>
      forall h :: h in r.subs && r.subs[h].master == answer.searchId && r.subs[h].id == answer.subSearchId
        ==> Deliver(r, answer) == Some(h)
  {
    hide Numbered;
    if answer.searchId in r.registered {
      forall h | h in r.subs && r.subs[h].master == answer.searchId && r.subs[h].id == answer.subSearchId
        ensures Deliver(r, answer) == Some(h)
      {
        assert Listed(r, h);
      }
    }
  }

  /** `search::advance` when it has erased the old entry and not yet entered the new one. */
  function Erased(r: Registry, handle: nat): Registry
    requires handle in r.subs && Listed(r, handle)
  {
    var sub := r.subs[handle];
    r.(tables := r.tables[sub.master := r.tables[sub.master] - {sub.id}])
  }

  /** The look-up does not take the lock that `advance` holds. Between erasing and inserting it finds only
      what it finds before and after, and what it does not find is not there before, or not after: such a
      look-up might as well have come before or after the whole step. */
  lemma LookUpDuringAdvance(r: Registry, handle: nat, answer: SearchResult)
    requires Valid(r) && handle in r.subs
    ensures Listed(r, handle)
    ensures var during, after := Deliver(Erased(r, handle), answer), Deliver(AdvanceStep(r, handle), answer);
      && (during.Some? ==> Deliver(r, answer) == during && after == during)
      && (during.None? ==> Deliver(r, answer).None? || after.None?)
  {
    FreshNumbers(r);
    hide EntriesCurrent, Issued, Numbered;
  }

  /** An id that was issued for an earlier round than the one its sub-search is in. */
  ghost predicate Stale(r: Registry, id: nat) {
    id in r.issued && r.issued[id].handle in r.subs && r.issued[id].hops < r.subs[r.issued[id].handle].hops
  }

  lemma StaleRejected(r: Registry, answer: SearchResult)
    requires Valid(r) && Stale(r, answer.subSearchId)
    ensures Deliver(r, answer) == None
  {
    DeliverExact(r, answer);
    hide Valid;
  }

  lemma StaleStays(r: Registry, e: Event, id: nat)
    requires Valid(r) && Stale(r, id)
    ensures Stale(Next(r, e), id)
  {
    FreshNumbers(r);
    hide Valid, Listed;
  }

  lemma {:induction false} StaleForever(r: Registry, events: seq<Event>, answer: SearchResult)
    requires Valid(r) && Stale(r, answer.subSearchId)
    ensures Deliver(Run(r, events), answer) == None
    decreases |events|
  {
    hide Valid, Next, Stale, Deliver;
    if events == [] {
      StaleRejected(r, answer);
    } else {
      NextKeeps(r, events[0]);
      StaleStays(r, events[0], answer.subSearchId);
      StaleForever(Next(r, events[0]), events[1..], answer);
    }
  }

  /** Once a sub-search has begun another round, an answer to the round before is never accepted
      again, by any sub-search, whatever happens in between. */
  lemma EarlierRoundNeverAccepted(events: seq<Event>, handle: nat, later: seq<Event>, answer: SearchResult)
    requires handle in Run(Empty(), events).subs
    requires answer.subSearchId == Run(Empty(), events).subs[handle].id
    ensures Deliver(Run(AdvanceStep(Run(Empty(), events), handle), later), answer) == None
  {
    var r := Run(Empty(), events);
    RegistryInvariant(events);
    hide Run;
    AdvanceKeeps(r, handle);
    assert Listed(r, handle);
    FreshNumbers(r);
    assert Stale(AdvanceStep(r, handle), answer.subSearchId);
    StaleForever(AdvanceStep(r, handle), later, answer);
  }

  /** What start_search enters, answers reach. */
  lemma StartedSearchGetsAnswers(r: Registry, answer: SearchResult)
    requires Valid(r) && answer.searchId == r.nextMaster && answer.subSearchId == r.nextSub
    ensures Deliver(Run(r, [NewSearch, AddSub(r.nextMaster), Register(r.nextMaster)]), answer) == Some(|r.subs|)
  {
    hide Valid;
    RunThree(r, NewSearch, AddSub(r.nextMaster), Register(r.nextMaster));
  }

  /** A new sub-search of a registered search is reached by its first id. */
  lemma NewSubGetsAnswers(r: Registry, answer: SearchResult)
    requires answer.searchId in r.registered && answer.searchId in r.tables && answer.subSearchId == r.nextSub
    ensures Deliver(Next(r, AddSub(answer.searchId)), answer) == Some(|r.subs|)
  {
  }

  /** From the moment a round begins its id reaches the sub-search, and only the id before it stops
      reaching anybody. */
  lemma NewRoundGetsAnswers(r: Registry, handle: nat, answer: SearchResult)
    requires Valid(r) && handle in r.subs
    ensures var sub, t := r.subs[handle], AdvanceStep(r, handle);
      && (answer.searchId == sub.master && sub.master in r.registered && answer.subSearchId == r.nextSub
          ==> Deliver(t, answer) == Some(handle))
      && (answer.subSearchId != sub.id && answer.subSearchId != r.nextSub ==> Deliver(t, answer) == Deliver(r, answer))
  {
    assert Listed(r, handle);
    hide Valid;
  }

  /** After remove_search no answer of that search is accepted again, unless it is registered again; all
      others are as before. */
  lemma {:induction false} RemovedSearchGetsNone(r: Registry, events: seq<Event>, answer: SearchResult)
    requires answer.searchId !in r.registered && Register(answer.searchId) !in events
    ensures Deliver(Run(r, events), answer) == None
    decreases |events|
  {
    if events != [] {
      StaysRemoved(r, events[0], answer.searchId);
      hide Next, Deliver;
      assert forall e :: e in events[1..] ==> e in events;
      RemovedSearchGetsNone(Next(r, events[0]), events[1..], answer);
    }
  }

  lemma StaysRemoved(r: Registry, e: Event, m: nat)
    requires m !in r.registered && e != Register(m)
    ensures m !in Next(r, e).registered
  {
  }

  lemma RemoveIsLocal(r: Registry, m: nat, answer: SearchResult)
    ensures m !in Next(r, Remove(m)).registered
    ensures answer.searchId != m ==> Deliver(Next(r, Remove(m)), answer) == Deliver(r, answer)
  {
  }

  // ----- the source's operations

  class Manager {
    var nextMaster: nat
    var nextSub: nat
    var subs: map<nat, Sub>
    var tables: map<nat, map<nat, nat>>
    var registered: set<nat>
    ghost var issued: map<nat, Round>

    ghost function Abs(): Registry
      reads this
    {
      Registry(nextMaster, nextSub, subs, tables, registered, issued)
    }

    constructor ()
      ensures Abs() == Empty()
    {
      nextMaster, nextSub, subs, tables, registered, issued := 0, 0, map[], map[], {}, map[];
    }

    /** `new search()` with the next master id. */
    method CreateSearch() returns (master: nat)
      modifies this
      ensures master == old(nextMaster) && Abs() == Next(old(Abs()), NewSearch)
      ensures nextMaster == master + 1 && tables == old(tables)[master := map[]] && registered == old(registered)
    {
      master := nextMaster;
      nextMaster := nextMaster + 1;
      tables := tables[master := map[]];
    }

    /** `new sub_search(...)` with the next id, entered in the table of its search. */
    method CreateSubSearch(master: nat) returns (handle: nat)
      requires master in tables
      modifies this
      ensures handle == |old(subs)| && Abs() == Next(old(Abs()), AddSub(master))
      ensures subs == old(subs)[handle := Sub(master, old(nextSub), 0)] && nextSub == old(nextSub) + 1
      ensures registered == old(registered)
    {
      handle := |subs|;
      var id := nextSub;
      nextSub := nextSub + 1;
      issued := issued[id := Round(handle, 0)];
      subs := subs[handle := Sub(master, id, 0)];
      var table: map<nat, nat> := tables[master];
      table := table[id := handle];
      tables := tables[master := table];
    }

    /** `start_search` for one key: create the search and its only sub-search, then register it. */
    method StartSearch() returns (master: nat)
      requires Valid(Abs())
      modifies this
      ensures master == old(nextMaster) && registered == old(registered) + {master}
      ensures forall answer: SearchResult :: answer.searchId == master && answer.subSearchId == old(nextSub) ==>
        Deliver(Abs(), answer) == Some(|old(subs)|)
      ensures Abs() == Run(old(Abs()), [NewSearch, AddSub(master), Register(master)]) && Valid(Abs())
    {
      ghost var before := Abs();
      master := CreateSearch();
      var handle := CreateSubSearch(master);
      assert master in tables;
      registered := registered + {master};
      hide Valid, Deliver;
      forall answer: SearchResult | answer.searchId == master && answer.subSearchId == before.nextSub
        ensures Deliver(Run(before, [NewSearch, AddSub(master), Register(master)]), answer) == Some(|before.subs|)
      {
        StartedSearchGetsAnswers(before, answer);
      }
      RunThree(before, NewSearch, AddSub(master), Register(master));
      RunKeeps(before, [NewSearch, AddSub(master), Register(master)]);
    }

    /** `search::advance`: a missing entry would be undefined, and Valid excludes it. */
    method Advance(handle: nat)
      requires Valid(Abs()) && handle in subs
      modifies this
      ensures Abs() == AdvanceStep(old(Abs()), handle) && Valid(Abs())
    {
      AdvanceKeeps(Abs(), handle);
      hide Valid, AdvanceStep;
      ghost var before := Abs();
      var sub := subs[handle];
      var table: map<nat, nat> := tables[sub.master];
      var found := table[sub.id];
      table := table - {sub.id};
      var id := nextSub;
      nextSub := nextSub + 1;
      table := table[id := found];
      issued := issued[id := Round(handle, sub.hops + 1)];
      subs := subs[handle := sub.(id := id, hops := sub.hops + 1)];
      tables := tables[sub.master := table];
      AdvanceFields(before, Abs(), handle);
    }

    /** `remove_search`: says whether the search was there. */
    method RemoveSearch(master: nat) returns (removed: bool)
      requires Valid(Abs())
      modifies this
      ensures removed == (master in old(registered)) && registered == old(registered) - {master}
      ensures Abs() == Next(old(Abs()), Remove(master)) && Valid(Abs())
    {
      hide Valid;
      NextKeeps(Abs(), Remove(master));
      removed := master in registered;
      registered := registered - {master};
    }

    /** `handle_search_result`: looks up the search, then the sub-search. */
    method HandleSearchResult(answer: SearchResult) returns (target: Option<nat>)
      requires Valid(Abs())
      ensures target == Deliver(Abs(), answer)
    {
      target := None;
      if answer.searchId in registered {
        var table := tables[answer.searchId];
        if answer.subSearchId in table {
          target := Some(table[answer.subSearchId]);
        }
      }
    }
  }

  /** The new state, field by field. */
  lemma AdvanceFields(r: Registry, t: Registry, handle: nat)
    requires handle in r.subs && Listed(r, handle)
    requires t.nextMaster == r.nextMaster && t.nextSub == r.nextSub + 1 && t.registered == r.registered
    requires var sub := r.subs[handle];
      && t.subs == r.subs[handle := Sub(sub.master, r.nextSub, sub.hops + 1)]
      && t.tables == r.tables[sub.master := (r.tables[sub.master] - {sub.id})[r.nextSub := handle]]
      && t.issued == r.issued[r.nextSub := Round(handle, sub.hops + 1)]
    ensures t == AdvanceStep(r, handle)
  {
  }

  lemma RunThree(r: Registry, a: Event, b: Event, c: Event)
    ensures Run(r, [a, b, c]) == Next(Next(Next(r, a), b), c)
  {
    hide Next;
    assert [a, b, c][1..] == [b, c] && [b, c][1..] == [c] && [c][1..] == [];
    var s := Next(r, a);
    var t := Next(s, b);
    assert Run(t, [c]) == Run(Next(t, c), []) == Next(t, c);
    assert Run(s, [b, c]) == Run(t, [c]);
  }
}
