/**
  One sub-search together with the registry: its thread begins rounds by drawing new ids, and answers
  reach its mailbox only by way of `handle_search_result`.
 */
module JointSearch {
  import opened Messages
  import opened SearchManager
  import SearchRun
  import SubSearch

  /** `found` are the answers whose look-up named this sub-search and that have not entered
      `add_response` yet. */
  datatype Joint = Joint(registry: Registry, found: seq<SearchResult>, thread: SearchRun.State)

  datatype JointEvent =
    | Elsewhere(change: Event)             // another thread changes the registry
    | Lookup(answer: SearchResult)     // handle_search_result
    | Enter(i: nat)                    // ... calls add_response, which tests kill_search
    | Within(step: SearchRun.Event)    // what concerns this sub-search alone

  /** No other thread begins a round of this sub-search, and answers enter only by Enter. */
  function JointNext(c: SearchRun.Setup, h: nat, j: Joint, e: JointEvent): Joint {
    match e
    case Elsewhere(f) => if f == Advance(h) then j else j.(registry := Next(j.registry, f))
    case Lookup(answer) => if Deliver(j.registry, answer) == Some(h) then j.(found := j.found + [answer]) else j
    case Enter(i) =>
      if i < |j.found| then
        j.(found := j.found[..i] + j.found[i + 1..],
           thread := SearchRun.Next(c, j.thread, SearchRun.Check(j.found[i])))
      else j
    case Within(f) =>
      if f.Check? then j
      else
        var registry := if f.RunStep? && j.thread.pc.Advancing? then AdvanceStep(j.registry, h) else j.registry;
        j.(registry := registry, thread := SearchRun.Next(c, j.thread, f))
  }

  function JointExec(c: SearchRun.Setup, h: nat, start: Joint, events: seq<JointEvent>): Joint {
    if events == [] then start
    else JointNext(c, h, JointExec(c, h, start, events[..|events| - 1]), events[|events| - 1])
  }

  /** The sub-search has been created, in whatever registry, and its thread has not run yet. */
  ghost predicate Begins(c: SearchRun.Setup, h: nat, start: Joint, clock: int) {
    && Valid(start.registry) && h in start.registry.subs && start.registry.subs[h].hops == 0
    && start.found == [] && start.thread == SearchRun.Start(c, clock)
  }

  // ----- the two parts

  /** What an event is for the registry, and for the thread. */
  function ForRegistry(h: nat, j: Joint, e: JointEvent): seq<Event> {
    match e
    case Elsewhere(f) => if f == Advance(h) then [] else [f]
    case Within(f) => if f.RunStep? && j.thread.pc.Advancing? then [Advance(h)] else []
    case _ => []
  }

  function ForThread(j: Joint, e: JointEvent): seq<SearchRun.Event> {
    match e
    case Enter(i) => if i < |j.found| then [SearchRun.Check(j.found[i])] else []
    case Within(f) => if f.Check? then [] else [f]
    case _ => []
  }

  function RegistryEvents(c: SearchRun.Setup, h: nat, start: Joint, events: seq<JointEvent>): seq<Event> {
    if events == [] then []
    else
      var t := events[..|events| - 1];
      RegistryEvents(c, h, start, t) + ForRegistry(h, JointExec(c, h, start, t), events[|events| - 1])
  }

  function ThreadEvents(c: SearchRun.Setup, h: nat, start: Joint, events: seq<JointEvent>): seq<SearchRun.Event> {
    if events == [] then []
    else
      var t := events[..|events| - 1];
      ThreadEvents(c, h, start, t) + ForThread(JointExec(c, h, start, t), events[|events| - 1])
  }

  lemma {:induction false} RegistryRuns(c: SearchRun.Setup, h: nat, start: Joint, events: seq<JointEvent>)
    ensures JointExec(c, h, start, events).registry == Run(start.registry, RegistryEvents(c, h, start, events))
  {
    if events != [] {
      var t, e := events[..|events| - 1], events[|events| - 1];
      var j := JointExec(c, h, start, t);
      RegistryRuns(c, h, start, t);
      NextOfBoth(c, h, j, e);
      RunStepwise(start.registry, RegistryEvents(c, h, start, t), ForRegistry(h, j, e));
      hide JointNext, ForRegistry, ForThread, Next, Run, SearchRun.Next;
    }
  }

  lemma {:induction false} ThreadRuns(c: SearchRun.Setup, h: nat, start: Joint, clock: int, events: seq<JointEvent>)
    requires start.thread == SearchRun.Start(c, clock)
    ensures JointExec(c, h, start, events).thread == SearchRun.Exec(c, clock, ThreadEvents(c, h, start, events))
  {
    if events != [] {
      var t, e := events[..|events| - 1], events[|events| - 1];
      var j := JointExec(c, h, start, t);
      ThreadRuns(c, h, start, clock, t);
      NextOfBoth(c, h, j, e);
      ExecStepwise(c, clock, ThreadEvents(c, h, start, t), ForThread(j, e));
      hide JointNext, ForRegistry, ForThread, Next, SearchRun.Next, SearchRun.Exec;
    }
  }

  /** Every joint run is a run of the registry and a run of the thread, so what holds of all runs of
      either holds here. */
  lemma JointRunsBoth(c: SearchRun.Setup, h: nat, start: Joint, clock: int, events: seq<JointEvent>)
    requires Begins(c, h, start, clock)
    ensures JointExec(c, h, start, events).registry == Run(start.registry, RegistryEvents(c, h, start, events))
    ensures JointExec(c, h, start, events).thread == SearchRun.Exec(c, clock, ThreadEvents(c, h, start, events))
  {
    RegistryRuns(c, h, start, events);
    ThreadRuns(c, h, start, clock, events);
  }

  lemma NextOfBoth(c: SearchRun.Setup, h: nat, j: Joint, e: JointEvent)
    ensures var k, changes, steps := JointNext(c, h, j, e), ForRegistry(h, j, e), ForThread(j, e);
      && |changes| <= 1 && k.registry == (if changes == [] then j.registry else Next(j.registry, changes[0]))
      && |steps| <= 1 && k.thread == (if steps == [] then j.thread else SearchRun.Next(c, j.thread, steps[0]))
  {
    AdvanceIs(j.registry, h);
    hide Next, AdvanceStep, SearchRun.Next, Deliver;
  }

  lemma AdvanceIs(r: Registry, h: nat)
    ensures Next(r, Advance(h)) == AdvanceStep(r, h)
  {
  }

  lemma {:induction false} RunStepwise(r: Registry, events: seq<Event>, more: seq<Event>)
    requires |more| <= 1
    ensures Run(r, events + more) == if more == [] then Run(r, events) else Next(Run(r, events), more[0])
    decreases |events|
  {
    hide Next;
    if events == [] {
      assert events + more == more;
      if more != [] {
        assert more[1..] == [];
      }
    } else {
      RunStepwise(Next(r, events[0]), events[1..], more);
      assert (events + more)[1..] == events[1..] + more;
    }
  }

  lemma ExecStepwise(c: SearchRun.Setup, clock: int, events: seq<SearchRun.Event>, more: seq<SearchRun.Event>)
    requires |more| <= 1
    ensures var s := SearchRun.Exec(c, clock, events);
      SearchRun.Exec(c, clock, events + more) == if more == [] then s else SearchRun.Next(c, s, more[0])
  {
    hide SearchRun.Next;
    if more == [] {
      assert events + more == events;
    } else {
      assert (events + more)[..|events + more| - 1] == events;
    }
  }

  // ----- whose answers are taken

  /** The answer carries the ids of this sub-search, for a round up to the given one. */
  ghost predicate For(r: Registry, h: nat, answer: SearchResult, hops: nat) {
    && h in r.subs && answer.searchId == r.subs[h].master
    && answer.subSearchId in r.issued && r.issued[answer.subSearchId].handle == h
    && r.issued[answer.subSearchId].hops <= hops
  }

  ghost predicate AllFor(r: Registry, h: nat, answers: seq<SearchResult>, hops: nat) {
    forall k :: 0 <= k < |answers| ==> For(r, h, answers[k], hops)
  }

  ghost predicate JointInv(h: nat, j: Joint) {
    && Valid(j.registry) && h in j.registry.subs && j.registry.subs[h].hops == j.thread.hops
    && AllFor(j.registry, h, j.found, j.thread.hops)
    && AllFor(j.registry, h, j.thread.checked, j.thread.hops)
    && AllFor(j.registry, h, j.thread.responses, j.thread.hops)
    && AllFor(j.registry, h, j.thread.taken, j.thread.hops)
  }

  /** Ids and owners are never changed, and rounds are only counted up. */
  ghost predicate Later(r: Registry, t: Registry, h: nat) {
    && h in r.subs && h in t.subs && t.subs[h].master == r.subs[h].master && r.subs[h].hops <= t.subs[h].hops
    && (forall id :: id in r.issued ==> id in t.issued && t.issued[id] == r.issued[id])
  }

  lemma RegistryLater(r: Registry, e: Event, h: nat)
    requires Valid(r) && h in r.subs
    ensures Valid(Next(r, e)) && Later(r, Next(r, e), h)
    ensures e != Advance(h) ==> Next(r, e).subs[h] == r.subs[h]
    ensures e == Advance(h) ==> Next(r, e).subs[h].hops == r.subs[h].hops + 1
  {
    NextKeeps(r, e);
    FreshNumbers(r);
    hide Valid, AdvanceStep, Later;
    if e.Advance? {
      AdvanceIs(r, e.handle);
      ListedSub(r, h);
      AdvanceLater(r, e.handle, h);
    } else if e.AddSub? {
      AddSubLater(r, e.master, h);
    } else {
      OtherLater(r, e, h);
    }
    hide Next;
  }

  lemma ListedSub(r: Registry, h: nat)
    requires Valid(r) && h in r.subs
    ensures Listed(r, h)
  {
  }

  lemma OtherLater(r: Registry, e: Event, h: nat)
    requires h in r.subs && !e.Advance? && !e.AddSub?
    ensures Later(r, Next(r, e), h) && Next(r, e).subs == r.subs
  {
  }

  lemma AdvanceLater(r: Registry, handle: nat, h: nat)
    requires h in r.subs && Listed(r, h) && r.nextSub !in r.issued
    ensures var t := AdvanceStep(r, handle);
      Later(r, t, h) && (if handle == h then t.subs[h].hops == r.subs[h].hops + 1 else t.subs[h] == r.subs[h])
  {
  }

  lemma AddSubLater(r: Registry, m: nat, h: nat)
    requires h in r.subs && r.nextSub !in r.issued && |r.subs| !in r.subs
    ensures var t := Next(r, AddSub(m)); Later(r, t, h) && t.subs[h] == r.subs[h]
  {
  }

  lemma AllForLater(r: Registry, t: Registry, h: nat, answers: seq<SearchResult>, hops: nat, more: nat)
    requires AllFor(r, h, answers, hops) && (answers != [] ==> Later(r, t, h)) && hops <= more
    ensures AllFor(t, h, answers, more)
  {
    forall k | 0 <= k < |answers|
      ensures For(t, h, answers[k], more)
    {
      assert For(r, h, answers[k], hops);
    }
  }

  /** The registry moves on, and the thread with it. */
  lemma JointLater(h: nat, j: Joint, k: Joint)
    requires JointInv(h, j) && Valid(k.registry) && Later(j.registry, k.registry, h)
    requires h in k.registry.subs && k.registry.subs[h].hops == k.thread.hops && j.thread.hops <= k.thread.hops
    requires k.found == j.found && k.thread.checked == j.thread.checked
    requires k.thread.responses == j.thread.responses && k.thread.taken == j.thread.taken
    ensures JointInv(h, k)
  {
    hide Valid, Later, AllFor;
    AllForLater(j.registry, k.registry, h, j.found, j.thread.hops, k.thread.hops);
    AllForLater(j.registry, k.registry, h, j.thread.checked, j.thread.hops, k.thread.hops);
    AllForLater(j.registry, k.registry, h, j.thread.responses, j.thread.hops, k.thread.hops);
    AllForLater(j.registry, k.registry, h, j.thread.taken, j.thread.hops, k.thread.hops);
  }

  /** The registry stays, and answers move along. */
  lemma JointMoves(h: nat, j: Joint, k: Joint)
    requires JointInv(h, j) && k.registry == j.registry && k.thread.hops == j.thread.hops
    requires forall a :: a in k.found + k.thread.checked + k.thread.responses + k.thread.taken ==>
      For(j.registry, h, a, j.thread.hops)
    ensures JointInv(h, k)
  {
    hide Valid, For;
    var all := k.found + k.thread.checked + k.thread.responses + k.thread.taken;
    assert forall a :: a in k.found ==> a in all;
    assert forall a :: a in k.thread.checked ==> a in all;
    assert forall a :: a in k.thread.responses ==> a in all;
    assert forall a :: a in k.thread.taken ==> a in all;
  }

  lemma JointStep(c: SearchRun.Setup, h: nat, j: Joint, e: JointEvent)
    requires JointInv(h, j)
    ensures JointInv(h, JointNext(c, h, j, e))
  {
    match e
    case Elsewhere(f) =>
      if f != Advance(h) {
        RegistryLater(j.registry, f, h);
        JointLater(h, j, JointNext(c, h, j, e));
      }
    case Lookup(answer) => LookupKeeps(c, h, j, answer);
    case Enter(i) => EnterKeeps(c, h, j, i);
    case Within(f) =>
      if f.RunStep? && j.thread.pc.Advancing? {
        AdvanceTogether(c, h, j);
      } else if !f.Check? {
        WithinKeeps(c, h, j, f);
      }
    hide JointInv, Next, Deliver, AdvanceStep, Later;
  }

  lemma AdvanceTogether(c: SearchRun.Setup, h: nat, j: Joint)
    requires JointInv(h, j) && j.thread.pc.Advancing?
    ensures JointInv(h, JointNext(c, h, j, Within(SearchRun.RunStep)))
  {
    hide AllFor, Valid, AdvanceStep;
    RegistryLater(j.registry, Advance(h), h);
    AdvanceIs(j.registry, h);
    JointLater(h, j, JointNext(c, h, j, Within(SearchRun.RunStep)));
  }

  /** What the look-up names is current, hence of this round. */
  lemma LookupKeeps(c: SearchRun.Setup, h: nat, j: Joint, answer: SearchResult)
    requires JointInv(h, j)
    ensures JointInv(h, JointNext(c, h, j, Lookup(answer)))
  {
    if Deliver(j.registry, answer) == Some(h) {
      DeliverExact(j.registry, answer);
      hide Valid, Deliver;
      assert For(j.registry, h, answer, j.thread.hops);
    }
  }

  lemma EnterKeeps(c: SearchRun.Setup, h: nat, j: Joint, i: nat)
    requires JointInv(h, j)
    ensures JointInv(h, JointNext(c, h, j, Enter(i)))
  {
    hide Valid, For, SearchRun.RunNext;
    if i < |j.found| {
      JointMoves(h, j, JointNext(c, h, j, Enter(i)));
    }
  }

  lemma WithinKeeps(c: SearchRun.Setup, h: nat, j: Joint, f: SearchRun.Event)
    requires JointInv(h, j) && !f.Check? && !(f.RunStep? && j.thread.pc.Advancing?)
    ensures JointInv(h, JointNext(c, h, j, Within(f)))
  {
    hide Valid, For;
    if f.RunStep? {
      TakesFromMailbox(c, j.thread);
      hide SearchRun.RunNext;
      JointMoves(h, j, JointNext(c, h, j, Within(f)));
    } else {
      hide SearchRun.RunNext;
      JointMoves(h, j, JointNext(c, h, j, Within(f)));
    }
  }

  /** Apart from beginning a round, the thread only takes what its mailbox holds. */
  lemma TakesFromMailbox(c: SearchRun.Setup, s: SearchRun.State)
    requires !s.pc.Advancing?
    ensures var t := SearchRun.RunNext(c, s);
      && t.hops == s.hops && t.checked == s.checked
      && (t.responses == s.responses || t.responses == [])
      && (t.taken == s.taken || (s.pc.Waiting? && t.taken == s.taken + s.responses))
  {
    hide SearchRun.Unique, SubSearch.OfferAll, SubSearch.AllEntries, SubSearch.AddBatch, SearchRun.Uncopied;
  }

  /** In every joint run the registry and the thread agree on the round, and everything the thread has
      taken carries an id that was issued to this sub-search, for the round it is in or an earlier one. */
  lemma {:induction false} TakenIsOurs(c: SearchRun.Setup, h: nat, start: Joint, clock: int, events: seq<JointEvent>)
    requires Begins(c, h, start, clock)
    ensures JointInv(h, JointExec(c, h, start, events))
    ensures var j := JointExec(c, h, start, events);
      && h in j.registry.subs && j.registry.subs[h].hops == j.thread.hops
      && AllFor(j.registry, h, j.thread.taken, j.thread.hops)
  {
    hide JointNext;
    if events != [] {
      TakenIsOurs(c, h, start, clock, events[..|events| - 1]);
      JointStep(c, h, JointExec(c, h, start, events[..|events| - 1]), events[|events| - 1]);
    }
  }

  /** No tick sets the clock back. */
  predicate ClockForward(c: SearchRun.Setup, h: nat, start: Joint, events: seq<JointEvent>) {
    events == []
    || (ClockForward(c, h, start, events[..|events| - 1])
        && match events[|events| - 1]
           case Within(Tick(now)) => JointExec(c, h, start, events[..|events| - 1]).thread.clock <= now
           case _ => true)
  }

  ghost predicate FirstRoundInv(c: SearchRun.Setup, h: nat, j: Joint) {
    && JointInv(h, j) && SearchRun.RoundsInv(c, j.thread) && SearchRun.AtMostTwoBatches(j.thread)
    && AllFor(j.registry, h, j.thread.taken, 1)
  }

  /** If the clock is not set back, a sub-search takes answers to its first queries alone. */
  lemma {:induction false} OnlyFirstRoundAnswers(c: SearchRun.Setup, h: nat, start: Joint, clock: int,
                                                 events: seq<JointEvent>)
    requires SearchRun.Proper(c) && Begins(c, h, start, clock) && ClockForward(c, h, start, events)
    ensures FirstRoundInv(c, h, JointExec(c, h, start, events))
    ensures var j := JointExec(c, h, start, events); AllFor(j.registry, h, j.thread.taken, 1)
  {
    if events == [] {
      SearchRun.RoundsInvariant(c, clock, []);
    } else {
      var j, e := JointExec(c, h, start, events[..|events| - 1]), events[|events| - 1];
      OnlyFirstRoundAnswers(c, h, start, clock, events[..|events| - 1]);
      FirstRoundStep(c, h, j, e);
      hide JointNext, FirstRoundInv, Begins, SearchRun.RoundsInv;
    }
  }

  lemma FirstRoundStep(c: SearchRun.Setup, h: nat, j: Joint, e: JointEvent)
    requires SearchRun.Proper(c) && FirstRoundInv(c, h, j)
    requires e.Within? && e.step.Tick? ==> j.thread.clock <= e.step.now
    ensures FirstRoundInv(c, h, JointNext(c, h, j, e))
  {
    var k := JointNext(c, h, j, e);
    JointStep(c, h, j, e);
    ThreadInvStep(c, h, j, e);
    FirstRoundTaken(c, h, j, e);
    hide JointNext, JointInv, AllFor, SearchRun.RoundsInv, SearchRun.AtMostTwoBatches;
  }

  lemma ThreadInvStep(c: SearchRun.Setup, h: nat, j: Joint, e: JointEvent)
    requires SearchRun.Proper(c) && SearchRun.RoundsInv(c, j.thread) && SearchRun.AtMostTwoBatches(j.thread)
    requires e.Within? && e.step.Tick? ==> j.thread.clock <= e.step.now
    ensures SearchRun.RoundsInv(c, JointNext(c, h, j, e).thread)
    ensures SearchRun.AtMostTwoBatches(JointNext(c, h, j, e).thread)
  {
    hide SearchRun.RoundsInv, SearchRun.AtMostTwoBatches, SearchRun.Next, Next, AdvanceStep, Deliver;
    match e
    case Enter(i) =>
      if i < |j.found| {
        SearchRun.RoundsStep(c, j.thread, SearchRun.Check(j.found[i]));
        SearchRun.TwoBatchesStep(c, j.thread, SearchRun.Check(j.found[i]));
      }
    case Within(f) =>
      SearchRun.RoundsStep(c, j.thread, f);
      SearchRun.TwoBatchesStep(c, j.thread, f);
    case _ =>
  }

  /** Answers are taken only while exactly one batch has been sent, that is in round 1. */
  lemma FirstRoundTaken(c: SearchRun.Setup, h: nat, j: Joint, e: JointEvent)
    requires FirstRoundInv(c, h, j)
    ensures var k := JointNext(c, h, j, e); AllFor(k.registry, h, k.thread.taken, 1)
  {
    var k := JointNext(c, h, j, e);
    assert j.thread.pc.Waiting? ==> j.thread.hops == 1 by {
      hide JointInv, AllFor, SearchRun.BatchesExact, SearchRun.AllQueried;
    }
    FirstRoundTakenStep(c, h, j, e);
    hide *;
  }

  lemma FirstRoundTakenStep(c: SearchRun.Setup, h: nat, j: Joint, e: JointEvent)
    requires JointInv(h, j) && AllFor(j.registry, h, j.thread.taken, 1)
    requires j.thread.pc.Waiting? ==> j.thread.hops == 1
    ensures var k := JointNext(c, h, j, e); AllFor(k.registry, h, k.thread.taken, 1)
  {
    if e.Elsewhere? {
      TakenElsewhere(c, h, j, e.change);
    } else if e.Within? && e.step.RunStep? {
      FirstRoundRunStep(c, h, j);
    } else {
      OthersTakeNothing(c, h, j, e);
    }
    hide JointInv, AllFor, JointNext;
  }

  lemma OthersTakeNothing(c: SearchRun.Setup, h: nat, j: Joint, e: JointEvent)
    requires !e.Elsewhere? && !(e.Within? && e.step.RunStep?)
    ensures var k := JointNext(c, h, j, e); k.registry == j.registry && k.thread.taken == j.thread.taken
  {
    hide Deliver, SearchRun.RunNext, AdvanceStep;
  }

  lemma TakenElsewhere(c: SearchRun.Setup, h: nat, j: Joint, change: Event)
    requires JointInv(h, j) && AllFor(j.registry, h, j.thread.taken, 1)
    ensures var k := JointNext(c, h, j, Elsewhere(change)); AllFor(k.registry, h, k.thread.taken, 1)
  {
    hide Valid, AllFor, Next, Later;
    if change != Advance(h) {
      RegistryLater(j.registry, change, h);
      AllForLater(j.registry, Next(j.registry, change), h, j.thread.taken, 1, 1);
    }
  }

  lemma FirstRoundRunStep(c: SearchRun.Setup, h: nat, j: Joint)
    requires JointInv(h, j) && AllFor(j.registry, h, j.thread.taken, 1)
    requires j.thread.pc.Waiting? ==> j.thread.hops == 1
    ensures var k := JointNext(c, h, j, Within(SearchRun.RunStep)); AllFor(k.registry, h, k.thread.taken, 1)
  {
    hide Valid, For, Next, AdvanceStep, Later;
    if j.thread.pc.Advancing? {
      RegistryLater(j.registry, Advance(h), h);
      AdvanceIs(j.registry, h);
      AllForLater(j.registry, AdvanceStep(j.registry, h), h, j.thread.taken, 1, 1);
      hide SearchRun.Unique, SubSearch.OfferAll, SubSearch.AllEntries, SubSearch.AddBatch, SearchRun.Uncopied;
    } else {
      TakesFromMailbox(c, j.thread);
      hide SearchRun.RunNext;
    }
  }

  // ----- answers get through

  /** An answer that carries the ids of the current round of a registered search reaches the mailbox and
      lowers its flag, by the actions of the thread that delivers it alone. */
  lemma AnswerGetsThrough(c: SearchRun.Setup, h: nat, j: Joint, answer: SearchResult)
    requires Valid(j.registry) && h in j.registry.subs && j.registry.subs[h].master in j.registry.registered
    requires answer.searchId == j.registry.subs[h].master && answer.subSearchId == j.registry.subs[h].id
    requires j.found == [] && j.thread.checked == [] && !j.thread.kill && !j.thread.pc.Clearing?
    ensures var k := JointNext(c, h, JointNext(c, h, JointNext(c, h, JointNext(c, h, j, Lookup(answer)), Enter(0)),
                               Within(SearchRun.Push(0))), Within(SearchRun.Raise));
      && k.thread.responses == j.thread.responses + [answer] && !k.thread.empty
      && k.thread.accepted == j.thread.accepted + [answer]
      && k.registry == j.registry && k.thread.pc == j.thread.pc
  {
    DeliverExact(j.registry, answer);
    hide Valid, Deliver, AdvanceStep, SearchRun.RunNext;
    assert Deliver(j.registry, answer) == Some(h);
    var found := JointNext(c, h, j, Lookup(answer));
    assert found.found == [answer];
    var entered := JointNext(c, h, found, Enter(0));
    assert entered.thread.checked == [answer];
    var pushed := JointNext(c, h, entered, Within(SearchRun.Push(0)));
    assert pushed.thread.responses == j.thread.responses + [answer];
  }
}
