/**
  The thread of one sub-search, `sub_search::run`, interleaved in every possible way with the threads
  that deliver answers to it, the clock, and the request to stop.

  Each event is one atomic action: one list operation, one test, one assignment. The thread holds the
  mailbox mutex while it copies the mailbox and while it clears it. A push takes no lock, so it can fall
  between the two; lowering the flag takes the mutex, so it cannot.
 */
module SearchRun {
  import opened Hamming
  import opened Lists
  import opened Messages
  import opened Ranking
  import opened SubSearch

  /** Where the thread is. Clearing and Handling hold the answers it has copied and not yet worked
      through; the mailbox is not cleared yet, or is. */
  datatype Pc =
    | Top | Advancing | Querying | Testing | Waiting
    | Clearing(batch: seq<SearchResult>)
    | Handling(batch: seq<SearchResult>)
    | Terminated

  /** `initial` is the queue the constructor leaves behind, with its first deadline; `local` are this
      node's own records for the key. */
  datatype Setup = Setup(key: Hash, searchType: SearchType, maxHops: nat, timeout: nat, maxSize: nat,
                         initial: seq<Entry>, deadline: int, local: seq<FileRecord>)

  datatype State = State(
    pc: Pc,
    hops: nat,
    queue: seq<Entry>,                // next_nodes_queue
    pq: seq<Entry>,
    results: FileLists,
    deadline: int,
    clock: int,
    kill: bool,
    // the mailbox, and the threads inside add_response
    checked: seq<SearchResult>,       // found kill_search unset, not pushed yet
    responses: seq<SearchResult>,
    empty: bool,                      // response_queue_empty
    raising: nat,                     // pushed, flag not lowered yet
    // what has happened so far
    accepted: seq<SearchResult>,      // pushed answers
    taken: seq<SearchResult>,         // answers copied from the mailbox
    lost: seq<SearchResult>,          // cleared without having been copied
    handled: seq<SearchResult>,       // answers worked through
    batches: seq<seq<Entry>>,         // the nodes queried in each round
    offers: seq<Entry>,               // suggestions worked through since the last query
    heard: seq<seq<Entry>>            // the same for each finished round
  )

  datatype Event =
    | RunStep                         // the next action of the thread itself
    | Check(answer: SearchResult)     // a thread enters add_response
    | Push(i: nat)
    | Raise
    | Kill
    | Tick(now: int)

  function Start(c: Setup, clock: int): State {
    State(Top, 0, c.initial, [], map[c.key := c.local], c.deadline, clock, false, [], [], true, 0,
          [], [], [], [], [], [], [])
  }

  /** `list::unique`: of equal neighbours the first one stays. */
  function Unique(s: seq<Entry>): seq<Entry>
    decreases |s|
  {
    if |s| < 2 then s
    else if SameEntry(s[0], s[1]) then Unique([s[0]] + s[2..])
    else [s[0]] + Unique(s[1..])
  }

  /** What is in the mailbox and has not been copied. */
  function Uncopied(s: State): seq<SearchResult> {
    if !s.pc.Clearing? then s.responses
    else if |s.pc.batch| <= |s.responses| then s.responses[|s.pc.batch|..]
    else []
  }

  /** The thread's next action. */
  function RunNext(c: Setup, s: State): State {
    match s.pc
    case Top => s.(pc := if s.hops > c.maxHops || s.kill then Terminated else Advancing)
    case Advancing => s.(hops := s.hops + 1, pc := Querying)
    case Querying =>
      s.(pq := Unique(s.pq + s.queue), queue := [], pc := Testing,
         batches := s.batches + [s.queue],
         heard := if s.batches == [] then [] else s.heard + [s.offers], offers := [])
    case Testing => s.(pc := if s.clock < s.deadline && !s.kill then Waiting else Top)
    case Waiting =>
      if s.empty then s.(pc := Testing)  // timed out
      else s.(pc := Clearing(s.responses), taken := s.taken + s.responses)
    case Clearing(batch) =>
      s.(responses := [], deadline := s.clock + c.timeout, empty := true, pc := Handling(batch),
         lost := s.lost + Uncopied(s))
    case Handling(batch) =>
      if s.kill then s.(pc := Top)
      else
        var es := AllEntries(c.key, batch);
        s.(queue := OfferAll(s.queue, es, c.maxSize), offers := s.offers + es,
           results := AddBatch(s.results, batch, c.searchType), handled := s.handled + batch, pc := Testing)
    case Terminated => s
  }

  function Next(c: Setup, s: State, e: Event): State {
    match e
    case RunStep => RunNext(c, s)
    case Check(answer) => if s.kill then s else s.(checked := s.checked + [answer])
    case Push(i) =>
      if i < |s.checked| then
        s.(checked := s.checked[..i] + s.checked[i + 1..], responses := s.responses + [s.checked[i]],
           raising := s.raising + 1, accepted := s.accepted + [s.checked[i]])
      else s
    case Raise => if s.raising > 0 && !s.pc.Clearing? then s.(raising := s.raising - 1, empty := false) else s
    case Kill => s.(kill := true)
    case Tick(now) => s.(clock := now)
  }

  function Exec(c: Setup, clock: int, events: seq<Event>): State {
    if events == [] then Start(c, clock)
    else Next(c, Exec(c, clock, events[..|events| - 1]), events[|events| - 1])
  }

  /** What the source demands of its constants and of the constructor's queue. */
  predicate Proper(c: Setup) {
    c.maxSize >= 1 && |c.initial| <= c.maxSize
  }

  // ----- the mailbox

  /** Every accepted answer has been copied once, or was cleared unseen, or is still there to be copied;
      while nothing was cleared unseen also in order; and what is pending will be noticed. */
  predicate MailboxSafe(s: State) {
    && (s.pc.Clearing? ==> s.pc.batch <= s.responses)
    && multiset(s.accepted) == multiset(s.taken) + multiset(s.lost) + multiset(Uncopied(s))
    && |s.accepted| == |s.taken| + |s.lost| + |Uncopied(s)|
    && (s.lost == [] ==> s.taken + Uncopied(s) == s.accepted)
    && (s.responses != [] ==> !s.empty || s.raising > 0)
  }

  lemma MailboxStep(c: Setup, s: State, e: Event)
    requires MailboxSafe(s)
    ensures MailboxSafe(Next(c, s, e))
  {
    if e.Push? && e.i < |s.checked| {
      PushKeepsMailbox(c, s, e.i);
    } else if e.RunStep? && s.pc.Waiting? {
      CopyKeepsMailbox(c, s);
    } else if e.RunStep? && s.pc.Clearing? {
      ClearKeepsMailbox(c, s);
    } else {
      RestKeepsMailbox(c, s, e);
    }
    hide MailboxSafe, RunNext;
  }

  lemma PushKeepsMailbox(c: Setup, s: State, i: nat)
    requires MailboxSafe(s) && i < |s.checked|
    ensures MailboxSafe(Next(c, s, Push(i)))
  {
    hide RunNext;
    var t, x := Next(c, s, Push(i)), s.checked[i];
    assert Uncopied(t) == Uncopied(s) + [x];
    assert s.taken + (Uncopied(s) + [x]) == s.taken + Uncopied(s) + [x];
    assert multiset(Uncopied(s) + [x]) == multiset(Uncopied(s)) + multiset([x]);
    assert multiset(s.accepted + [x]) == multiset(s.accepted) + multiset([x]);
  }

  lemma CopyKeepsMailbox(c: Setup, s: State)
    requires MailboxSafe(s) && s.pc.Waiting?
    ensures MailboxSafe(RunNext(c, s))
  {
    hide Unique, OfferAll, AllEntries, AddBatch;
    if !s.empty {
      assert Uncopied(RunNext(c, s)) == [];
      assert s.taken + s.responses + [] == s.taken + s.responses;
      assert multiset(s.taken + s.responses) == multiset(s.taken) + multiset(s.responses);
    }
  }

  lemma ClearKeepsMailbox(c: Setup, s: State)
    requires MailboxSafe(s) && s.pc.Clearing?
    ensures MailboxSafe(RunNext(c, s))
  {
    hide Unique, OfferAll, AllEntries, AddBatch;
    var rest := Uncopied(s);
    assert multiset(s.lost + rest) == multiset(s.lost) + multiset(rest);
    assert s.taken + [] == s.taken;
  }

  /** Everything else leaves the mailbox alone, or lowers the flag. */
  lemma RestKeepsMailbox(c: Setup, s: State, e: Event)
    requires MailboxSafe(s)
    requires !(e.Push? && e.i < |s.checked|) && !(e.RunStep? && (s.pc.Waiting? || s.pc.Clearing?))
    ensures MailboxSafe(Next(c, s, e))
  {
    hide Uncopied, MailboxSafe, RunNext;
    if e.RunStep? {
      RunLeavesMailbox(c, s);
    }
    MailboxFrame(s, Next(c, s, e));
  }

  lemma RunLeavesMailbox(c: Setup, s: State)
    requires !s.pc.Waiting? && !s.pc.Clearing?
    ensures var t := RunNext(c, s);
      && !t.pc.Clearing? && t.responses == s.responses && t.accepted == s.accepted && t.taken == s.taken
      && t.lost == s.lost && t.empty == s.empty && t.raising == s.raising
  {
    hide Unique, OfferAll, AllEntries, AddBatch, Uncopied;
  }

  lemma MailboxFrame(s: State, t: State)
    requires MailboxSafe(s)
    requires t.pc == s.pc || (!t.pc.Clearing? && !s.pc.Clearing?)
    requires t.responses == s.responses && t.accepted == s.accepted && t.taken == s.taken && t.lost == s.lost
    requires (t.empty == s.empty && t.raising == s.raising) || !t.empty
    ensures MailboxSafe(t)
  {
    assert Uncopied(t) == Uncopied(s);
  }

  /** What an event pushes, if the thread is, or is not, between a copy and the clearing that follows. */
  function PushedNow(s: State, e: Event, between: bool): seq<SearchResult> {
    if e.Push? && e.i < |s.checked| && s.pc.Clearing? == between then [s.checked[e.i]] else []
  }

  /** The answers that are pushed there, or elsewhere, in the order in which they are pushed. */
  function Pushed(c: Setup, clock: int, events: seq<Event>, between: bool): seq<SearchResult> {
    if events == [] then []
    else
      var t := events[..|events| - 1];
      Pushed(c, clock, t, between) + PushedNow(Exec(c, clock, t), events[|events| - 1], between)
  }

  /** What is taken and what is still to be copied are the answers `seen`, and what is cleared uncopied,
      or is about to be, are the answers `unseen`, both in order. */
  predicate InOrder(s: State, seen: seq<SearchResult>, unseen: seq<SearchResult>) {
    && s.taken + (if s.pc.Clearing? then [] else s.responses) == seen
    && s.lost + (if s.pc.Clearing? then Uncopied(s) else []) == unseen
  }

  lemma InOrderStep(c: Setup, s: State, e: Event, seen: seq<SearchResult>, unseen: seq<SearchResult>)
    requires MailboxSafe(s) && InOrder(s, seen, unseen)
    ensures InOrder(Next(c, s, e), seen + PushedNow(s, e, false), unseen + PushedNow(s, e, true))
  {
    if e.Push? && e.i < |s.checked| {
      PushInOrder(c, s, e.i, seen, unseen);
    } else {
      assert seen + [] == seen && unseen + [] == unseen;
      if e.RunStep? && s.pc.Waiting? {
        CopyInOrder(c, s, seen, unseen);
      } else if e.RunStep? && s.pc.Clearing? {
        ClearInOrder(c, s, seen, unseen);
      } else {
        RestInOrder(c, s, e, seen, unseen);
      }
    }
    hide MailboxSafe, InOrder, RunNext;
  }

  lemma PushInOrder(c: Setup, s: State, i: nat, seen: seq<SearchResult>, unseen: seq<SearchResult>)
    requires MailboxSafe(s) && InOrder(s, seen, unseen) && i < |s.checked|
    ensures InOrder(Next(c, s, Push(i)), seen + PushedNow(s, Push(i), false), unseen + PushedNow(s, Push(i), true))
  {
    hide RunNext;
    var t, x := Next(c, s, Push(i)), s.checked[i];
    assert Uncopied(t) == Uncopied(s) + [x];
    Reassociate(s.taken, s.responses, [x]);
    Reassociate(s.lost, Uncopied(s), [x]);
    assert seen + [] == seen && unseen + [] == unseen;
  }

  lemma CopyInOrder(c: Setup, s: State, seen: seq<SearchResult>, unseen: seq<SearchResult>)
    requires InOrder(s, seen, unseen) && s.pc.Waiting?
    ensures InOrder(RunNext(c, s), seen, unseen)
  {
    hide Unique, OfferAll, AllEntries, AddBatch;
    if !s.empty {
      assert Uncopied(RunNext(c, s)) == [];
      assert s.taken + s.responses + [] == s.taken + s.responses;
    }
  }

  lemma ClearInOrder(c: Setup, s: State, seen: seq<SearchResult>, unseen: seq<SearchResult>)
    requires InOrder(s, seen, unseen) && s.pc.Clearing?
    ensures InOrder(RunNext(c, s), seen, unseen)
  {
    hide Unique, OfferAll, AllEntries, AddBatch, Uncopied;
    assert s.taken + [] == s.taken;
    assert s.lost + Uncopied(s) + [] == s.lost + Uncopied(s);
  }

  lemma RestInOrder(c: Setup, s: State, e: Event, seen: seq<SearchResult>, unseen: seq<SearchResult>)
    requires InOrder(s, seen, unseen)
    requires !(e.Push? && e.i < |s.checked|) && !(e.RunStep? && (s.pc.Waiting? || s.pc.Clearing?))
    ensures InOrder(Next(c, s, e), seen, unseen)
  {
    hide RunNext;
    if e.RunStep? {
      RunLeavesMailbox(c, s);
    }
  }

  /** In every run, what was pushed outside the copying is taken or still pending, in order, and what was
      pushed between a copy and its clearing is lost or about to be, in order. */
  lemma {:induction false} MailboxAlwaysSafe(c: Setup, clock: int, events: seq<Event>)
    ensures MailboxSafe(Exec(c, clock, events))
    ensures InOrder(Exec(c, clock, events), Pushed(c, clock, events, false), Pushed(c, clock, events, true))
  {
    if events != [] {
      var t, e := events[..|events| - 1], events[|events| - 1];
      var s := Exec(c, clock, t);
      MailboxAlwaysSafe(c, clock, t);
      MailboxStep(c, s, e);
      InOrderStep(c, s, e, Pushed(c, clock, t, false), Pushed(c, clock, t, true));
      hide Next, MailboxSafe, InOrder, PushedNow;
    }
  }

  /** So exactly the answers pushed between a copy and its clearing are lost, and what was taken and what is
      pending are what was accepted, in order, exactly if there were none. */
  lemma LostExactly(c: Setup, clock: int, events: seq<Event>)
    ensures var s, unseen := Exec(c, clock, events), Pushed(c, clock, events, true);
      && s.lost + (if s.pc.Clearing? then Uncopied(s) else []) == unseen
      && (!s.pc.Clearing? ==> s.lost == unseen && (s.taken + s.responses == s.accepted <==> unseen == []))
  {
    MailboxAlwaysSafe(c, clock, events);
    hide Exec, Pushed;
    assert Exec(c, clock, events).lost + [] == Exec(c, clock, events).lost;
  }

  /** From any state in which the thread is about to copy: an answer pushed after the copy and before the
      clearing is lost. */
  lemma LoseOne(c: Setup, s: State, answer: SearchResult)
    requires s.pc.Waiting? && !s.empty && !s.kill && s.checked == []
    ensures var t := Continue(c, s, [RunStep, Check(answer), Push(0), RunStep]);
      && t.accepted == s.accepted + [answer]
      && t.taken == s.taken + s.responses && t.responses == [] && t.lost == s.lost + [answer]
  {
    var copied := Next(c, s, RunStep);
    var entered := Next(c, copied, Check(answer));
    var pushed := Next(c, entered, Push(0));
    assert pushed.responses == s.responses + [answer];
    ContinueFour(c, s, RunStep, Check(answer), Push(0), RunStep);
  }

  /** The thread has sent its first queries and waits, and one answer has come in. */
  function OneAnswer(answer: SearchResult): seq<Event> {
    [RunStep, RunStep, RunStep, RunStep] + [Check(answer), Push(0), Raise]
  }

  lemma OneAnswerWaits(c: Setup, clock: int, a: SearchResult)
    requires clock < c.deadline
    ensures var s := Continue(c, Start(c, clock), OneAnswer(a));
      && s.pc.Waiting? && !s.empty && !s.kill && s.checked == []
      && s.accepted == [a] && s.taken == [] && s.responses == [a] && s.lost == []
      && s.hops == 1 && s.batches == [c.initial] && s.queue == [] && s.handled == [] && s.clock == clock
  {
    var begun := Continue(c, Start(c, clock), [RunStep, RunStep, RunStep, RunStep]);
    ContinueFour(c, Start(c, clock), RunStep, RunStep, RunStep, RunStep);
    FirstWait(c, clock);
    ContinueConcat(c, Start(c, clock), [RunStep, RunStep, RunStep, RunStep], [Check(a), Push(0), Raise]);
    hide Start, Next;
    ContinueThree(c, begun, Check(a), Push(0), Raise);
    AnswerComesIn(c, begun, a);
  }

  lemma FirstWait(c: Setup, clock: int)
    requires clock < c.deadline
    ensures var s := Next(c, Next(c, Next(c, Next(c, Start(c, clock), RunStep), RunStep), RunStep), RunStep);
      && s.pc.Waiting? && s.empty && !s.kill && s.checked == [] && s.raising == 0
      && s.accepted == [] && s.taken == [] && s.responses == [] && s.lost == []
      && s.hops == 1 && s.batches == [c.initial] && s.queue == [] && s.handled == [] && s.clock == clock
  {
    hide Unique;
  }

  lemma AnswerComesIn(c: Setup, s: State, a: SearchResult)
    requires s.pc.Waiting? && !s.kill && s.checked == []
    ensures var t := Next(c, Next(c, Next(c, s, Check(a)), Push(0)), Raise);
      && t.pc.Waiting? && !t.empty && !t.kill && t.checked == []
      && t.accepted == s.accepted + [a] && t.taken == s.taken && t.responses == s.responses + [a] && t.lost == s.lost
      && t.hops == s.hops && t.batches == s.batches && t.queue == s.queue && t.handled == s.handled && t.clock == s.clock
  {
    hide RunNext;
  }

  /** A run from the start in which the second of two answers is lost. */
  lemma LostAnswer(c: Setup, clock: int, a: SearchResult, b: SearchResult)
    requires clock < c.deadline
    ensures var s := Exec(c, clock, OneAnswer(a) + [RunStep, Check(b), Push(0), RunStep]);
      && s.accepted == [a, b] && s.taken == [a] && s.responses == [] && s.lost == [b]
  {
    OneAnswerWaits(c, clock, a);
    LoseOne(c, Continue(c, Start(c, clock), OneAnswer(a)), b);
    ContinueConcat(c, Start(c, clock), OneAnswer(a), [RunStep, Check(b), Push(0), RunStep]);
    ExecIsContinue(c, clock, OneAnswer(a) + [RunStep, Check(b), Push(0), RunStep]);
    hide Start, Exec, Continue, OneAnswer;
  }

  // ----- rounds

  /** Every queried node is in pq, up to ==. */
  ghost predicate AllQueried(s: State) {
    forall k, e :: 0 <= k < |s.batches| && e in s.batches[k] ==> HasCopy(s.pq, e)
  }

  /** Each queue sent out after the first is what the suggestions of the round before amount to. */
  predicate BatchesExact(c: Setup, s: State) {
    && |s.heard| == (if s.batches == [] then 0 else |s.batches| - 1)
    && (forall k :: 0 <= k < |s.heard| ==> s.batches[k + 1] == Offered(true, s.heard[k], c.maxSize))
    && s.queue == if s.batches == [] then c.initial else Offered(true, s.offers, c.maxSize)
  }

  predicate RoundsBounded(c: Setup, s: State) {
    && s.hops == |s.batches| + (if s.pc.Querying? then 1 else 0)
    && s.hops <= c.maxHops + 1
    && (s.pc.Advancing? ==> s.hops <= c.maxHops)
    && (forall k :: 0 <= k < |s.batches| ==> |s.batches[k]| <= c.maxSize)
    && (s.pc.Testing? || s.pc.Waiting? || s.pc.Clearing? || s.pc.Handling? ==> s.batches != [])
    && (s.batches == [] ==> s.offers == [] && s.taken == [])
  }

  lemma {:induction false} HasCopyIn(s: seq<Entry>, e: Entry)
    requires e in s
    ensures HasCopy(s, e)
  {
    var i :| 0 <= i < |s| && s[i] == e;
    assert SameEntry(s[i], e);
  }

  lemma {:induction false} UniqueKeeps(s: seq<Entry>, e: Entry)
    requires HasCopy(s, e)
    ensures HasCopy(Unique(s), e)
    decreases |s|
  {
    if |s| >= 2 {
      var i :| 0 <= i < |s| && SameEntry(s[i], e);
      if SameEntry(s[0], s[1]) {
        var t := [s[0]] + s[2..];
        assert SameEntry(t[if i < 2 then 0 else i - 1], e);
        UniqueKeeps(t, e);
      } else if i == 0 {
        assert SameEntry(Unique(s)[0], e);
      } else {
        assert SameEntry(s[1..][i - 1], e);
        UniqueKeeps(s[1..], e);
        var j :| 0 <= j < |Unique(s[1..])| && SameEntry(Unique(s[1..])[j], e);
        assert SameEntry(Unique(s)[j + 1], e);
      }
    }
  }

  lemma HasCopyConcat(s: seq<Entry>, t: seq<Entry>, e: Entry)
    requires HasCopy(s, e) || HasCopy(t, e)
    ensures HasCopy(s + t, e)
  {
    if HasCopy(s, e) {
      var i :| 0 <= i < |s| && SameEntry(s[i], e);
      assert SameEntry((s + t)[i], e);
    } else {
      var i :| 0 <= i < |t| && SameEntry(t[i], e);
      assert SameEntry((s + t)[|s| + i], e);
    }
  }

  lemma QueryRecorded(c: Setup, s: State)
    requires s.pc.Querying? && AllQueried(s)
    ensures AllQueried(RunNext(c, s))
  {
    var t := RunNext(c, s);
    hide Unique, HasCopy;
    forall k, e | 0 <= k < |t.batches| && e in t.batches[k]
      ensures HasCopy(t.pq, e)
    {
      if k == |s.batches| {
        HasCopyIn(s.queue, e);
      }
      HasCopyConcat(s.pq, s.queue, e);
      UniqueKeeps(s.pq + s.queue, e);
    }
  }

  lemma {:induction false} RoundsInvariant(c: Setup, clock: int, events: seq<Event>)
    requires Proper(c)
    ensures RoundsInv(c, Exec(c, clock, events))
  {
    if events != [] {
      var s := Exec(c, clock, events[..|events| - 1]);
      RoundsInvariant(c, clock, events[..|events| - 1]);
      RoundsStep(c, s, events[|events| - 1]);
    }
  }

  ghost predicate RoundsInv(c: Setup, s: State) {
    RoundsBounded(c, s) && BatchesExact(c, s) && AllQueried(s)
  }

  lemma RoundsStep(c: Setup, s: State, e: Event)
    requires Proper(c) && RoundsInv(c, s)
    ensures RoundsInv(c, Next(c, s, e))
  {
    if !e.RunStep? {
      RoundsFrame(c, s, Next(c, s, e));
    } else if s.pc.Querying? {
      QueryStep(c, s);
    } else if s.pc.Handling? {
      HandlingStep(c, s);
    } else {
      OtherRunStep(c, s);
    }
    hide RoundsInv, RunNext;
  }

  /** The other threads and the clock do not touch what the rounds depend on. */
  lemma RoundsFrame(c: Setup, s: State, t: State)
    requires RoundsInv(c, s)
    requires t.pc == s.pc && t.hops == s.hops && t.queue == s.queue && t.pq == s.pq
    requires t.batches == s.batches && t.offers == s.offers && t.heard == s.heard && t.taken == s.taken
    ensures RoundsInv(c, t)
  {
    hide HasCopy, Offered;
  }

  lemma OtherRunStep(c: Setup, s: State)
    requires RoundsInv(c, s) && !s.pc.Querying? && !s.pc.Handling?
    ensures RoundsInv(c, RunNext(c, s))
  {
    hide HasCopy, Offered;
  }

  lemma QueryStep(c: Setup, s: State)
    requires Proper(c) && RoundsInv(c, s) && s.pc.Querying?
    ensures RoundsInv(c, RunNext(c, s))
  {
    QueryRecorded(c, s);
    QueryBounded(c, s);
    QueryExact(c, s);
    hide RunNext, RoundsBounded, BatchesExact, AllQueried;
  }

  lemma QueryBounded(c: Setup, s: State)
    requires Proper(c) && RoundsInv(c, s) && s.pc.Querying?
    ensures RoundsBounded(c, RunNext(c, s))
  {
    OfferedFacts(true, s.offers, c.maxSize);
    hide Unique, Offered, AllQueried;
  }

  lemma QueryExact(c: Setup, s: State)
    requires Proper(c) && RoundsInv(c, s) && s.pc.Querying?
    ensures BatchesExact(c, RunNext(c, s))
  {
    FirstOffers(true, c.maxSize);
    hide Unique, Offered, AllQueried;
  }

  lemma HandlingStep(c: Setup, s: State)
    requires Proper(c) && RoundsInv(c, s) && s.pc.Handling?
    ensures RoundsInv(c, RunNext(c, s))
  {
    OfferAllAfter(s.offers, AllEntries(c.key, s.pc.batch), c.maxSize);
    hide OfferAll, Offered, HasCopy, AllEntries, AddBatch;
  }

  /** All nodes queried, over all rounds. */
  function Total(batches: seq<seq<Entry>>): nat {
    if batches == [] then 0 else Total(batches[..|batches| - 1]) + |batches[|batches| - 1]|
  }

  lemma {:induction false} TotalBounded(batches: seq<seq<Entry>>, m: nat)
    requires forall k :: 0 <= k < |batches| ==> |batches[k]| <= m
    ensures Total(batches) <= |batches| * m
  {
    if batches != [] {
      TotalBounded(batches[..|batches| - 1], m);
    }
  }

  /** In every run there are at most max_hops + 1 rounds and (max_hops + 1) * maxSize queries, all
      recorded in pq, and every round but the first asks the first maxSize of the ideal ranking of the
      suggestions heard in the round before. */
  lemma RoundsTheorem(c: Setup, clock: int, events: seq<Event>)
    requires Proper(c)
    ensures var s := Exec(c, clock, events);
      && |s.batches| <= c.maxHops + 1
      && Total(s.batches) <= (c.maxHops + 1) * c.maxSize
      && AllQueried(s)
      && |s.heard| == (if s.batches == [] then 0 else |s.batches| - 1)
      && (s.batches != [] ==> s.batches[0] == c.initial)
      && forall k :: 0 <= k < |s.heard| ==> s.batches[k + 1] == Take(Ideal(true, s.heard[k]), c.maxSize)
  {
    hide Exec, Total, Take, Ideal, AllQueried;
    RoundsInvariant(c, clock, events);
    FirstBatch(c, clock, events);
    RoundsSummary(c, Exec(c, clock, events));
  }

  lemma RoundsSummary(c: Setup, s: State)
    requires Proper(c) && RoundsBounded(c, s) && BatchesExact(c, s)
    ensures |s.batches| <= c.maxHops + 1
    ensures Total(s.batches) <= (c.maxHops + 1) * c.maxSize
    ensures forall k :: 0 <= k < |s.heard| ==> s.batches[k + 1] == Take(Ideal(true, s.heard[k]), c.maxSize)
  {
    TotalBounded(s.batches, c.maxSize);
    MulMonotone(|s.batches|, c.maxHops + 1, c.maxSize);
    hide Ideal, Offered, Take, Total;
    forall k | 0 <= k < |s.heard|
      ensures s.batches[k + 1] == Take(Ideal(true, s.heard[k]), c.maxSize)
    {
      OfferedIsIdeal(true, s.heard[k], c.maxSize);
    }
  }

  /** A round asks the nearest of all suggestions of the round before exactly if the first of them was
      far enough; otherwise it asks fewer nodes than it could. */
  lemma RoundAsksNearestExactly(c: Setup, clock: int, events: seq<Event>, k: nat)
    requires Proper(c) && k < |Exec(c, clock, events).heard|
    ensures var s := Exec(c, clock, events);
      && k + 1 < |s.batches|
      && (s.batches[k + 1] == Nearest(true, s.heard[k], c.maxSize) <==> FirstIsFarEnough(true, s.heard[k], c.maxSize))
      && (!FirstIsFarEnough(true, s.heard[k], c.maxSize)
          ==> |s.batches[k + 1]| < |Nearest(true, s.heard[k], c.maxSize)|)
  {
    hide Exec, Nearest, FirstIsFarEnough, Offered, AllQueried;
    RoundsInvariant(c, clock, events);
    NearestExactly(true, Exec(c, clock, events).heard[k], c.maxSize);
  }

  lemma MulMonotone(a: nat, b: nat, m: nat)
    requires a <= b
    ensures a * m <= b * m
  {
  }

  lemma {:induction false} FirstBatch(c: Setup, clock: int, events: seq<Event>)
    requires Proper(c)
    ensures var s := Exec(c, clock, events); s.batches != [] ==> s.batches[0] == c.initial
  {
    hide Unique, OfferAll, AllEntries, Offered, AddBatch;
    if events != [] {
      FirstBatch(c, clock, events[..|events| - 1]);
      RoundsInvariant(c, clock, events[..|events| - 1]);
    }
  }

  // ----- the deadline

  predicate Expired(s: State) { s.clock >= s.deadline || s.kill }

  /** The wait loop is not running, and would be left at its next test. */
  predicate Closed(s: State) {
    Expired(s) && !s.pc.Waiting? && !s.pc.Clearing? && !s.pc.Handling?
  }

  /** No tick sets the clock back. */
  predicate Monotone(events: seq<Event>, clock: int)
    decreases |events|
  {
    events == []
    || match events[0]
       case Tick(now) => clock <= now && Monotone(events[1..], now)
       case _ => Monotone(events[1..], clock)
  }

  /** The state that the events lead to from a given one. */
  function Continue(c: Setup, s: State, events: seq<Event>): State
    decreases |events|
  {
    if events == [] then s else Continue(c, Next(c, s, events[0]), events[1..])
  }

  lemma {:induction false} ContinueSnoc(c: Setup, s: State, events: seq<Event>, e: Event)
    ensures Continue(c, s, events + [e]) == Next(c, Continue(c, s, events), e)
    decreases |events|
  {
    if events == [] {
      assert [e][1..] == [];
    } else {
      ContinueSnoc(c, Next(c, s, events[0]), events[1..], e);
      assert (events + [e])[1..] == events[1..] + [e];
    }
  }

  lemma {:induction false} ContinueConcat(c: Setup, s: State, a: seq<Event>, b: seq<Event>)
    ensures Continue(c, s, a + b) == Continue(c, Continue(c, s, a), b)
    decreases |a|
  {
    hide Next;
    if a == [] {
      assert a + b == b;
    } else {
      ContinueConcat(c, Next(c, s, a[0]), a[1..], b);
      assert (a + b)[1..] == a[1..] + b;
    }
  }

  lemma ContinueThree(c: Setup, s: State, e: Event, f: Event, g: Event)
    ensures Continue(c, s, [e, f, g]) == Next(c, Next(c, Next(c, s, e), f), g)
  {
    hide Next;
    ContinueSnoc(c, s, [e, f], g);
    ContinueSnoc(c, s, [e], f);
    ContinueSnoc(c, s, [], e);
    assert [e, f] + [g] == [e, f, g] && [e] + [f] == [e, f] && [] + [e] == [e];
  }

  lemma ContinueFour(c: Setup, s: State, e: Event, f: Event, g: Event, h: Event)
    ensures Continue(c, s, [e, f, g, h]) == Next(c, Next(c, Next(c, Next(c, s, e), f), g), h)
  {
    hide Next;
    ContinueSnoc(c, s, [e, f, g], h);
    ContinueThree(c, s, e, f, g);
    assert [e, f, g] + [h] == [e, f, g, h];
  }

  lemma {:induction false} ExecIsContinue(c: Setup, clock: int, events: seq<Event>)
    ensures Exec(c, clock, events) == Continue(c, Start(c, clock), events)
  {
    hide Next, Start;
    if events != [] {
      var t := events[..|events| - 1];
      ExecIsContinue(c, clock, t);
      ContinueSnoc(c, Start(c, clock), t, events[|events| - 1]);
      assert events == t + [events[|events| - 1]];
    }
  }

  /** Once the wait loop is closed a round is four actions: the test of max_hops and kill_search, the
      new id, the queries, and the test that keeps the loop closed. */
  function Remaining(c: Setup, s: State): nat {
    var rounds := if s.hops <= c.maxHops then c.maxHops + 1 - s.hops else 0;
    var others := if s.hops < c.maxHops then c.maxHops - s.hops else 0;
    match s.pc
    case Terminated => 0
    case Top => if s.kill then 1 else 4 * rounds + 1
    case Advancing => 4 * others + 4
    case Querying => 4 * rounds + 3
    case _ => 4 * rounds + 2
  }

  lemma ClosedStep(c: Setup, s: State, e: Event)
    requires Closed(s) && (e.Tick? ==> s.clock <= e.now)
    ensures var t := Next(c, s, e);
      && Closed(t) && t.clock == (if e.Tick? then e.now else s.clock)
      && t.taken == s.taken
      && Remaining(c, t) <= Remaining(c, s)
      && (e.RunStep? && !s.pc.Terminated? ==> Remaining(c, t) < Remaining(c, s))
  {
    hide Unique, OfferAll, AllEntries, AddBatch;
  }

  /** Only taking answers renews the deadline, so once the wait loop has been left (or never entered)
      with the clock at the deadline, no answer is ever taken again, whatever the round. */
  lemma {:induction false} NothingTakenOnceClosed(c: Setup, s: State, events: seq<Event>)
    requires Closed(s) && Monotone(events, s.clock)
    ensures Closed(Continue(c, s, events))
    ensures Continue(c, s, events).taken == s.taken
    decreases |events|
  {
    hide Next, Closed, Remaining;
    if events != [] {
      ClosedStep(c, s, events[0]);
      NothingTakenOnceClosed(c, Next(c, s, events[0]), events[1..]);
    }
  }

  /** What holds between rounds when the clock is not set back. */
  predicate AtMostTwoBatches(s: State) {
    && (|s.batches| == 0 ==> !s.pc.Testing? && !s.pc.Waiting? && !s.pc.Clearing? && !s.pc.Handling?)
    && (|s.batches| == 1 && (s.pc.Top? || s.pc.Advancing? || s.pc.Querying?) ==> Expired(s))
    && (|s.batches| >= 2 ==> Closed(s) && s.queue == [])
    && (forall k :: 2 <= k < |s.batches| ==> s.batches[k] == [])
  }

  lemma TwoBatchesStep(c: Setup, s: State, e: Event)
    requires AtMostTwoBatches(s) && (e.Tick? ==> s.clock <= e.now)
    ensures AtMostTwoBatches(Next(c, s, e))
    ensures Next(c, s, e).clock == if e.Tick? then e.now else s.clock
  {
    if e.RunStep? {
      TwoBatchesRunStep(c, s);
      hide AtMostTwoBatches;
    }
    hide RunNext;
  }

  lemma TwoBatchesRunStep(c: Setup, s: State)
    requires AtMostTwoBatches(s)
    ensures AtMostTwoBatches(RunNext(c, s)) && RunNext(c, s).clock == s.clock
  {
    hide Unique, OfferAll, AllEntries, AddBatch, Uncopied;
  }

  lemma {:induction false} TwoBatchesFrom(c: Setup, s: State, events: seq<Event>)
    requires AtMostTwoBatches(s) && Monotone(events, s.clock)
    ensures AtMostTwoBatches(Continue(c, s, events))
    decreases |events|
  {
    if events != [] {
      TwoBatchesStep(c, s, events[0]);
      hide Next;
      TwoBatchesFrom(c, Next(c, s, events[0]), events[1..]);
    }
  }

  /** Whatever max_hops says, only the first two rounds of a sub-search can ask anybody. */
  lemma OnlyTwoRoundsAsk(c: Setup, clock: int, events: seq<Event>)
    requires Monotone(events, clock)
    ensures forall k :: 2 <= k < |Exec(c, clock, events).batches| ==> Exec(c, clock, events).batches[k] == []
  {
    ExecIsContinue(c, clock, events);
    TwoBatchesFrom(c, Start(c, clock), events);
  }

  // ----- the thread ends

  /** The thread's own actions among the events. */
  function OwnSteps(events: seq<Event>): nat
    decreases |events|
  {
    if events == [] then 0 else (if events[0].RunStep? then 1 else 0) + OwnSteps(events[1..])
  }

  /** Once the wait loop is closed the thread ends, within so many actions of its own, whatever the other
      threads do in between. */
  lemma {:induction false} ThreadEnds(c: Setup, s: State, events: seq<Event>)
    requires Closed(s) && Monotone(events, s.clock) && OwnSteps(events) >= Remaining(c, s)
    ensures Continue(c, s, events).pc.Terminated?
    decreases |events|
  {
    if events != [] {
      ClosedStep(c, s, events[0]);
      hide Next, Remaining, Closed;
      ThreadEnds(c, Next(c, s, events[0]), events[1..]);
    }
  }

  /** The thread's own actions left once kill_search is set. */
  function Dying(pc: Pc): nat {
    match pc
    case Terminated => 0
    case Top => 1
    case Testing => 2
    case Handling(_) => 2
    case Clearing(_) => 3
    case Querying => 3
    case Waiting => 4
    case Advancing => 4
  }

  /** With kill_search set the thread ends within four actions of its own, from wherever it is, so that
      joining it returns; and it works through nothing more. */
  lemma {:induction false} KilledEnds(c: Setup, s: State, events: seq<Event>)
    requires s.kill && OwnSteps(events) >= Dying(s.pc)
    ensures Dying(s.pc) <= 4 && Continue(c, s, events).pc.Terminated?
    ensures Continue(c, s, events).handled == s.handled && Continue(c, s, events).results == s.results
    decreases |events|
  {
    if events != [] {
      DyingStep(c, s, events[0]);
      hide Next;
      KilledEnds(c, Next(c, s, events[0]), events[1..]);
    }
  }

  lemma DyingStep(c: Setup, s: State, e: Event)
    requires s.kill
    ensures var t := Next(c, s, e);
      && t.kill && t.handled == s.handled && t.results == s.results
      && Dying(t.pc) <= Dying(s.pc) && (e.RunStep? && !s.pc.Terminated? ==> Dying(t.pc) < Dying(s.pc))
  {
    if e.RunStep? {
      DyingRunStep(c, s);
    }
    hide RunNext, Dying;
  }

  lemma DyingRunStep(c: Setup, s: State)
    requires s.kill
    ensures var t := RunNext(c, s);
      && t.kill && t.handled == s.handled && t.results == s.results
      && (if s.pc.Terminated? then t.pc.Terminated? else Dying(t.pc) < Dying(s.pc))
  {
    hide Unique, OfferAll, AllEntries, AddBatch, Uncopied;
  }

  // ----- what the thread does not leave undone

  /** It ends only when it may: stopped, or after the last round. */
  lemma EndsOnlyWhenItMay(c: Setup, clock: int, events: seq<Event>)
    requires Proper(c)
    ensures var s := Exec(c, clock, events); s.pc.Terminated? ==> s.kill || |s.batches| == c.maxHops + 1
  {
    RoundsInvariant(c, clock, events);
    EndedRightly(c, clock, events);
    hide Exec, BatchesExact, AllQueried;
  }

  lemma {:induction false} EndedRightly(c: Setup, clock: int, events: seq<Event>)
    ensures var s := Exec(c, clock, events); s.pc.Terminated? ==> s.kill || s.hops > c.maxHops
  {
    if events != [] {
      var s := Exec(c, clock, events[..|events| - 1]);
      EndedRightly(c, clock, events[..|events| - 1]);
      if events[|events| - 1].RunStep? {
        EndsRightly(c, s);
      }
      hide RunNext;
    }
  }

  lemma EndsRightly(c: Setup, s: State)
    requires s.pc.Terminated? ==> s.kill || s.hops > c.maxHops
    ensures var t := RunNext(c, s); t.pc.Terminated? ==> t.kill || t.hops > c.maxHops
  {
    hide Unique, OfferAll, AllEntries, AddBatch, Uncopied;
  }

  predicate InLoop(s: State) {
    s.pc.Testing? || s.pc.Waiting? || s.pc.Clearing? || s.pc.Handling?
  }

  /** The wait loop of a round is left only when stopped or at the deadline, by the thread itself, and it
      is entered by every round. */
  lemma LoopLeftOnlyExpired(c: Setup, s: State, e: Event)
    ensures InLoop(s) && !InLoop(Next(c, s, e)) ==>
      e.RunStep? && (s.kill || (s.pc.Testing? && s.clock >= s.deadline)) && Next(c, s, e).pc.Top?
    ensures s.pc.Testing? && s.clock < s.deadline && !s.kill ==> Next(c, s, RunStep).pc.Waiting?
    ensures s.pc.Top? && !s.kill && s.hops <= c.maxHops ==>
      InLoop(Next(c, Next(c, Next(c, s, RunStep), RunStep), RunStep))
  {
    hide Unique, OfferAll, AllEntries, AddBatch, Uncopied;
  }

  /** The answers `due` are on their way through the thread, n actions from being worked through. */
  predicate Due(s: State, due: seq<SearchResult>, n: nat) {
    !s.kill && match n
      case 3 => s.pc.Waiting? && !s.empty && due <= s.handled + s.responses
      case 2 => s.pc.Clearing? && due <= s.handled + s.pc.batch
      case 1 => s.pc.Handling? && due <= s.handled + s.pc.batch
      case 0 => due <= s.handled
      case _ => false
  }

  lemma DueStep(c: Setup, s: State, e: Event, due: seq<SearchResult>, n: nat)
    requires Due(s, due, n) && !e.Kill?
    ensures Due(Next(c, s, e), due, if e.RunStep? && n > 0 then n - 1 else n)
  {
    if e.RunStep? {
      DueRunStep(c, s, due, n);
      hide RunNext, Due;
    } else {
      hide RunNext;
      if e.Push? && e.i < |s.checked| {
        Reassociate(s.handled, s.responses, [s.checked[e.i]]);
      }
    }
  }

  lemma DueRunStep(c: Setup, s: State, due: seq<SearchResult>, n: nat)
    requires Due(s, due, n)
    ensures Due(RunNext(c, s), due, if n > 0 then n - 1 else 0)
  {
    hide Unique, OfferAll, AllEntries, AddBatch, Uncopied;
  }

  lemma {:induction false} DueArrives(c: Setup, s: State, events: seq<Event>, due: seq<SearchResult>, n: nat)
    requires Due(s, due, n) && Kill !in events && OwnSteps(events) >= n
    ensures due <= Continue(c, s, events).handled
    decreases |events|
  {
    if events != [] {
      DueStep(c, s, events[0], due, n);
      hide Next, Due;
      assert forall e :: e in events[1..] ==> e in events;
      DueArrives(c, Next(c, s, events[0]), events[1..], due, if events[0].RunStep? && n > 0 then n - 1 else n);
    }
  }

  /** Every answer that is in the mailbox when the thread wakes is worked through by its next three
      actions, in the order of the mailbox, whatever the other threads do, unless it is stopped. */
  lemma AnswersAreHandled(c: Setup, s: State, events: seq<Event>)
    requires s.pc.Waiting? && !s.empty && !s.kill && Kill !in events && OwnSteps(events) >= 3
    ensures s.handled + s.responses <= Continue(c, s, events).handled
  {
    DueArrives(c, s, events, s.handled + s.responses, 3);
  }

  /** Who enters the mailbox: everybody until kill_search is set, nobody after. */
  lemma EntryExactly(c: Setup, s: State, answer: SearchResult)
    ensures Next(c, s, Check(answer)) == if s.kill then s else s.(checked := s.checked + [answer])
    ensures Next(c, s, Kill).kill && (s.kill ==> forall e :: Next(c, s, e).kill)
  {
    hide Unique, OfferAll, AllEntries, AddBatch, Uncopied;
  }

  predicate EqualNeighbours(s: seq<Entry>) {
    exists i :: 0 < i < |s| && SameEntry(s[i - 1], s[i])
  }

  /** `list::unique` leaves no two equal neighbours, adds nothing, keeps the first entry, and changes
      nothing where there is nothing to do. */
  lemma {:induction false} UniqueExactly(s: seq<Entry>)
    ensures !EqualNeighbours(Unique(s)) && forall e :: e in Unique(s) ==> e in s
    ensures s != [] ==> Unique(s) != [] && Unique(s)[0] == s[0]
    ensures !EqualNeighbours(s) ==> Unique(s) == s
    decreases |s|
  {
    if |s| >= 2 {
      if SameEntry(s[0], s[1]) {
        UniqueExactly([s[0]] + s[2..]);
        assert SameEntry(s[1 - 1], s[1]);
      } else {
        var t := s[1..];
        UniqueExactly(t);
        UniqueCons(s[0], t);
      }
    }
  }

  lemma UniqueCons(x: Entry, t: seq<Entry>)
    requires t != [] && !SameEntry(x, t[0]) && Unique(t) != [] && Unique(t)[0] == t[0] && !EqualNeighbours(Unique(t))
    ensures !EqualNeighbours([x] + Unique(t))
    ensures !EqualNeighbours([x] + t) ==> !EqualNeighbours(t)
  {
    hide Unique, SameEntry;
    var r := Unique(t);
    forall i | 0 < i < |[x] + r|
      ensures !SameEntry(([x] + r)[i - 1], ([x] + r)[i])
    {
      assert ([x] + r)[i] == r[i - 1] && ([x] + r)[i - 1] == if i == 1 then x else r[i - 2];
    }
    if i :| 0 < i < |t| && SameEntry(t[i - 1], t[i]) {
      assert SameEntry(([x] + t)[i], ([x] + t)[i + 1]);
    }
  }

  // ----- a run in which the second round asks

  /** The answer is taken, cleared and worked through; the deadline passes; the second round begins. */
  function UntilSecondRound(now: int): seq<Event> {
    [RunStep, RunStep, RunStep, Tick(now)] + [RunStep, RunStep, RunStep, RunStep]
  }

  /** For every answer to the first round there is a run in which the second round asks exactly what its
      suggestions amount to. */
  lemma SecondRoundAsks(c: Setup, clock: int, a: SearchResult, now: int)
    requires clock < c.deadline && now >= clock + c.timeout && c.maxHops >= 1
    ensures var s := Exec(c, clock, OneAnswer(a) + UntilSecondRound(now));
      && s.batches == [c.initial, OfferAll([], AllEntries(c.key, [a]), c.maxSize)]
      && s.handled == [a] && s.pc.Testing? && s.hops == 2
  {
    var s := Continue(c, Start(c, clock), OneAnswer(a));
    OneAnswerWaits(c, clock, a);
    ExecIsContinue(c, clock, OneAnswer(a) + UntilSecondRound(now));
    ContinueConcat(c, Start(c, clock), OneAnswer(a), UntilSecondRound(now));
    ContinueConcat(c, s, [RunStep, RunStep, RunStep, Tick(now)], [RunStep, RunStep, RunStep, RunStep]);
    hide Start, Exec, Continue, OneAnswer, Next;
    ContinueFour(c, s, RunStep, RunStep, RunStep, Tick(now));
    var t := Continue(c, s, [RunStep, RunStep, RunStep, Tick(now)]);
    ContinueFour(c, t, RunStep, RunStep, RunStep, RunStep);
    AnswerWorkedThrough(c, s, now);
    SecondQueries(c, t);
  }

  lemma AnswerWorkedThrough(c: Setup, s: State, now: int)
    requires s.pc.Waiting? && !s.empty && !s.kill
    ensures var t := Next(c, Next(c, Next(c, Next(c, s, RunStep), RunStep), RunStep), Tick(now));
      && t.pc.Testing? && !t.kill && t.handled == s.handled + s.responses && t.deadline == s.clock + c.timeout
      && t.queue == OfferAll(s.queue, AllEntries(c.key, s.responses), c.maxSize)
      && t.clock == now && t.hops == s.hops && t.batches == s.batches
  {
    hide Unique, OfferAll, AllEntries, AddBatch, Uncopied;
  }

  lemma SecondQueries(c: Setup, s: State)
    requires s.pc.Testing? && s.clock >= s.deadline && !s.kill && s.hops <= c.maxHops
    ensures var t := Next(c, Next(c, Next(c, Next(c, s, RunStep), RunStep), RunStep), RunStep);
      && t.batches == s.batches + [s.queue] && t.handled == s.handled && t.pc.Testing? && t.hops == s.hops + 1
  {
    hide Unique, OfferAll, AllEntries, AddBatch, Uncopied;
  }

  // ----- what has been found

  function Flat(s: seq<seq<Entry>>): seq<Entry> {
    if s == [] then [] else Flat(s[..|s| - 1]) + s[|s| - 1]
  }

  /** Copied and not yet worked through. */
  function Pending(s: State): seq<SearchResult> {
    if s.pc.Clearing? || s.pc.Handling? then s.pc.batch else []
  }

  /** Answers are worked through in the order in which they were taken, all of them but the batch at hand,
      and but one last batch that is dropped when the search is stopped. */
  predicate HandledInOrder(s: State) {
    || s.handled + Pending(s) == s.taken
    || (s.kill && (s.pc.Top? || s.pc.Terminated?) && s.handled <= s.taken)
  }

  /** The suggestions worked through, round by round, are those of the answers worked through ... */
  predicate OffersExact(c: Setup, s: State) {
    Flat(s.heard) + s.offers == AllEntries(c.key, s.handled)
  }

  /** ... and the results are the local records and then the files of those answers. */
  predicate ResultsExact(c: Setup, s: State) {
    s.results == AddBatch(map[c.key := c.local], s.handled, c.searchType)
  }

  predicate WorkExact(c: Setup, s: State) {
    HandledInOrder(s) && OffersExact(c, s) && ResultsExact(c, s)
  }

  lemma {:induction false} WorkInvariant(c: Setup, clock: int, events: seq<Event>)
    requires Proper(c)
    ensures WorkExact(c, Exec(c, clock, events))
  {
    if events == [] {
      NoEntries(c.key);
      WorkAtStart(c, clock);
    } else {
      var s, e := Exec(c, clock, events[..|events| - 1]), events[|events| - 1];
      WorkInvariant(c, clock, events[..|events| - 1]);
      RoundsInvariant(c, clock, events[..|events| - 1]);
      WorkStep(c, s, e);
    }
    hide WorkExact, RoundsBounded, BatchesExact, AllQueried, Next, Start;
  }

  lemma WorkAtStart(c: Setup, clock: int)
    ensures WorkExact(c, Start(c, clock))
  {
    assert Flat([]) + [] == [];
  }

  lemma WorkStep(c: Setup, s: State, e: Event)
    requires WorkExact(c, s) && RoundsBounded(c, s) && BatchesExact(c, s)
    ensures WorkExact(c, Next(c, s, e))
  {
    if !e.RunStep? {
      WorkFrame(c, s, Next(c, s, e));
    } else if s.pc.Querying? {
      WorkQuery(c, s);
    } else if s.pc.Handling? {
      WorkHandle(c, s);
    } else {
      WorkOther(c, s);
    }
    hide WorkExact, RunNext, RoundsBounded, BatchesExact;
  }

  lemma WorkFrame(c: Setup, s: State, t: State)
    requires WorkExact(c, s)
    requires t.pc == s.pc && t.handled == s.handled && t.taken == s.taken && t.offers == s.offers
    requires t.heard == s.heard && t.results == s.results && (s.kill ==> t.kill)
    ensures WorkExact(c, t)
  {
    hide Flat, AllEntries, AddBatch;
  }

  lemma WorkQuery(c: Setup, s: State)
    requires WorkExact(c, s) && RoundsBounded(c, s) && BatchesExact(c, s) && s.pc.Querying?
    ensures WorkExact(c, RunNext(c, s))
  {
    hide Flat, AllEntries, OfferAll, Unique, Offered, AddBatch;
    FlatSnoc(s.heard, s.offers);
    assert s.heard == [] && s.batches == [] ==> s.offers == [];
    assert s.batches == [] ==> Flat(s.heard) + [] == Flat(s.heard);
  }

  lemma WorkHandle(c: Setup, s: State)
    requires WorkExact(c, s) && s.pc.Handling?
    ensures WorkExact(c, RunNext(c, s))
  {
    hide Flat, AllEntries, OfferAll, Unique, AddBatch;
    if s.kill {
      assert s.handled <= s.handled + s.pc.batch;
    } else {
      AllEntriesConcat(c.key, s.handled, s.pc.batch);
      AddBatchConcat(map[c.key := c.local], s.handled, s.pc.batch, c.searchType);
      Reassociate(Flat(s.heard), s.offers, AllEntries(c.key, s.pc.batch));
      assert s.handled + s.pc.batch + [] == s.taken;
    }
  }

  lemma WorkOther(c: Setup, s: State)
    requires WorkExact(c, s) && !s.pc.Querying? && !s.pc.Handling?
    ensures WorkExact(c, RunNext(c, s))
  {
    hide Flat, AllEntries, OfferAll, Unique, AddBatch;
    assert s.handled + [] == s.handled;
  }

  /** In every run: the list of a key is what this node had for it, followed by the files of the answers
      worked through, in order; and unless the search is stopped, the suggestions worked through, round
      by round, and those in the batch at hand are exactly the suggestions of all answers taken. */
  lemma NothingFoundIsLost(c: Setup, clock: int, events: seq<Event>)
    requires Proper(c)
    ensures var s := Exec(c, clock, events);
      && HandledInOrder(s)
      && (forall k :: ListOf(s.results, k) == (if k == c.key then c.local else []) + Found(s.handled, c.searchType, k))
      && (s.kill || Flat(s.heard) + s.offers + AllEntries(c.key, Pending(s)) == AllEntries(c.key, s.taken))
  {
    var s := Exec(c, clock, events);
    WorkInvariant(c, clock, events);
    AllEntriesConcat(c.key, s.handled, Pending(s));
    hide Exec, Flat, AllEntries, AddBatch, Found;
    forall k: Hash
      ensures ListOf(s.results, k) == (if k == c.key then c.local else []) + Found(s.handled, c.searchType, k)
    {
      BatchAdded(map[c.key := c.local], s.handled, c.searchType, k);
    }
  }

  lemma FlatSnoc(s: seq<seq<Entry>>, t: seq<Entry>)
    ensures Flat(s + [t]) + [] == Flat(s) + t
  {
    assert (s + [t])[..|s|] == s;
  }

  lemma QueryIs(c: Setup, s: State)
    requires s.pc.Querying?
    ensures RunNext(c, s) == s.(pq := Unique(s.pq + s.queue), queue := [], pc := Testing,
      batches := s.batches + [s.queue], heard := if s.batches == [] then [] else s.heard + [s.offers], offers := [])
  {
    hide Unique;
  }

  lemma ClearIs(c: Setup, s: State)
    requires s.pc.Clearing?
    ensures RunNext(c, s) == s.(responses := [], deadline := s.clock + c.timeout, empty := true,
      pc := Handling(s.pc.batch), lost := s.lost + Uncopied(s))
  {
    hide Uncopied;
  }

  // ----- the object whose fields these steps update

  class SubSearchThread {
    const setup: Setup
    /** next_nodes_queue and results */
    const collector: Collector
    var pc: Pc
    var hops: nat
    var pq: seq<Entry>
    var deadline: int
    var clock: int
    var kill: bool
    var responses: seq<SearchResult>
    var empty: bool
    ghost var checked: seq<SearchResult>
    ghost var raising: nat
    ghost var accepted: seq<SearchResult>
    ghost var taken: seq<SearchResult>
    ghost var lost: seq<SearchResult>
    ghost var handled: seq<SearchResult>
    ghost var batches: seq<seq<Entry>>
    ghost var offers: seq<Entry>
    ghost var heard: seq<seq<Entry>>

    ghost function Abs(): State
      reads this, collector
    {
      State(pc, hops, collector.nextNodes, pq, collector.results, deadline, clock, kill, checked, responses,
            empty, raising, accepted, taken, lost, handled, batches, offers, heard)
    }

    ghost predicate Valid()
      reads this, collector
    {
      && Proper(setup)
      && collector.key == setup.key && collector.maxSize == setup.maxSize
      && |collector.nextNodes| <= setup.maxSize
    }

    constructor (setup: Setup, clock: int)
      requires Proper(setup)
      ensures Valid() && fresh(collector) && this.setup == setup && Abs() == Start(setup, clock)
    {
      this.setup := setup;
      var c := new Collector(setup.key, setup.maxSize, setup.local);
      c.nextNodes := setup.initial;
      collector := c;
      pc, hops, pq, deadline, this.clock, kill := Top, 0, [], setup.deadline, clock, false;
      responses, empty := [], true;
      checked, raising, accepted, taken, lost, handled, batches, offers, heard := [], 0, [], [], [], [], [], [], [];
    }

    /** The next action of `sub_search::run`. */
    method RunStep() returns (sent: seq<Entry>)
      requires Valid()
      modifies this, collector
      ensures Valid() && Abs() == RunNext(setup, old(Abs()))
      ensures sent == if old(pc).Querying? then old(collector.nextNodes) else []
      ensures old(pc).Top? ==> pc == if old(hops) > setup.maxHops || old(kill) then Terminated else Advancing
      ensures old(pc).Testing? ==> pc == if old(clock) < old(deadline) && !old(kill) then Waiting else Top
      ensures hops == old(hops) + if old(pc).Advancing? then 1 else 0
    {
      hide Unique, OfferAll, AllEntries, AddBatch;
      sent := [];
      match pc
      case Top =>
        pc := if hops > setup.maxHops || kill then Terminated else Advancing;
      case Advancing =>
        hops := hops + 1;
        pc := Querying;
      case Querying =>
        sent := Query();
      case Testing =>
        pc := if clock < deadline && !kill then Waiting else Top;
      case Waiting =>
        Copy();
      case Clearing(batch) =>
        Clear(batch);
      case Handling(batch) =>
        Handle(batch);
      case Terminated =>
    }

    /** Copies the mailbox, unless the wait timed out. */
    method Copy()
      requires Valid() && pc.Waiting?
      modifies this
      ensures Valid() && Abs() == RunNext(setup, old(Abs()))
      ensures pc == if old(empty) then Testing else Clearing(old(responses))
    {
      if empty {
        pc := Testing;
      } else {
        var someResponses := responses;
        taken := taken + someResponses;
        pc := Clearing(someResponses);
      }
    }

    /** Clears the mailbox, whatever is in it by now, and renews the deadline. */
    method Clear(batch: seq<SearchResult>)
      requires Valid() && pc == Clearing(batch)
      modifies this
      ensures Valid() && Abs() == RunNext(setup, old(Abs()))
      ensures responses == [] && empty && deadline == old(clock) + setup.timeout && pc == Handling(batch)
    {
      hide RunNext, Uncopied;
      ClearIs(setup, Abs());
      lost := lost + Uncopied(Abs());
      responses := [];
      deadline := clock + setup.timeout;
      empty := true;
      pc := Handling(batch);
    }

    /** Works through a batch of answers, unless the search has been stopped. */
    method Handle(batch: seq<SearchResult>)
      requires Valid() && pc == Handling(batch)
      modifies this, collector
      ensures Valid() && Abs() == RunNext(setup, old(Abs()))
    {
      hide OfferAll, AllEntries, AddBatch, ListOf, Found;
      if kill {
        pc := Top;
      } else {
        OfferAllFits(collector.nextNodes, AllEntries(setup.key, batch), setup.maxSize);
        collector.Absorb(batch, setup.searchType);
        offers := offers + AllEntries(setup.key, batch);
        handled := handled + batch;
        pc := Testing;
      }
    }

    /** Appends the queue to pq, sends a query to each of its nodes, and clears it. */
    method Query() returns (sent: seq<Entry>)
      requires Valid() && pc.Querying?
      modifies this, collector`nextNodes
      ensures Valid() && Abs() == RunNext(setup, old(Abs())) && sent == old(collector.nextNodes)
    {
      hide Unique, RunNext;
      QueryIs(setup, Abs());
      pq := Unique(pq + collector.nextNodes);
      sent := Send();
      Record(sent);
      collector.nextNodes := [];
      pc := Testing;
    }

    ghost method Record(batch: seq<Entry>)
      modifies `heard, `batches, `offers
      ensures batches == old(batches) + [batch] && offers == []
      ensures heard == if old(batches) == [] then [] else old(heard) + [old(offers)]
    {
      heard := if batches == [] then [] else heard + [offers];
      batches := batches + [batch];
      offers := [];
    }

    /** The loop over the queue. */
    method Send() returns (sent: seq<Entry>)
      ensures sent == collector.nextNodes
    {
      sent := [];
      var i := 0;
      while i < |collector.nextNodes|
        invariant 0 <= i <= |collector.nextNodes| && sent == collector.nextNodes[..i]
      {
        sent := sent + [collector.nextNodes[i]];
        i := i + 1;
      }
    }

    /** The first action of `add_response`: look at kill_search. */
    method CheckKill(answer: SearchResult) returns (go: bool)
      requires Valid()
      modifies this
      ensures Valid() && Abs() == Next(setup, old(Abs()), Check(answer)) && go == !kill
      ensures checked == old(checked) + (if go then [answer] else []) && kill == old(kill)
    {
      go := !kill;
      checked := if go then checked + [answer] else checked;
    }

    /** The second: push. */
    method PushResponse(answer: SearchResult, ghost i: nat)
      requires Valid() && i < |checked| && checked[i] == answer
      modifies this
      ensures Valid() && Abs() == Next(setup, old(Abs()), Push(i))
      ensures responses == old(responses) + [answer] && accepted == old(accepted) + [answer]
      ensures checked == old(checked)[..i] + old(checked)[i + 1..] && raising == old(raising) + 1
    {
      hide RunNext;
      responses := responses + [answer];
      checked := checked[..i] + checked[i + 1..];
      raising := raising + 1;
      accepted := accepted + [answer];
    }

    /** The third: lower the flag, when the mutex is free. */
    method LowerFlag()
      requires Valid() && raising > 0 && !pc.Clearing?
      modifies this
      ensures Valid() && Abs() == Next(setup, old(Abs()), Raise)
      ensures !empty && raising == old(raising) - 1
    {
      empty := false;
      raising := raising - 1;
    }
  }
}
