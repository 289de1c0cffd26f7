# Verified model of spatter

spatter is a peer-to-peer file index: nodes keep a Kademlia-like routing table, search for keys by
asking ever nearer nodes, and store records about shared files. This project models its two cores in
Dafny and proves what they promise:

- the **Tiger hash** that turns words into keys: rounds, key schedule, both forms of the compression
  function, padding, both byte orders, and a build whose byte order is not the machine's;
- the **node**: the Hamming distance on 192-bit ids, the buckets and the closest-nodes query, the
  search threads, their ids and mailboxes, pings, the record store, and the configuration file.

`dafny verify dfyconfig.toml` checks the whole project.

## How the model is laid out

| file | what it models |
|---|---|
| `Lists.dfy` | operations on sequences that several files use |
| `Words.dfy` | unsigned 64-bit words as numbers modulo 2^64, bitwise exclusive or, bytes of a word |
| `TigerCore.dfy` | `round`, `pass`, `key_schedule`, `compress` |
| `TigerHash.dfy` | `tiger`: block loop, padding, byte order; collisions |
| `Hamming.dfy` | `init_util`, `bit_distance` |
| `Messages.dfy` | records, messages and their `==` |
| `Ranking.dfy` | bounded insertion by distance, and the ranking it is a prefix of |
| `NodeQueue.dfy` | `mark_seen`, `get_better_nodes` |
| `Referrals.dfy` | `handle_search`, chains of referrals |
| `SubSearch.dfy` | the loop over answers in `sub_search::run` |
| `SearchRun.dfy` | `sub_search::run` and `add_response` as a step machine |
| `SearchManager.dfy` | `start_search`, `search::advance`, `handle_search_result` |
| `JointSearch.dfy` | one search thread composed with the registry: whose answers it takes |
| `ControlProtocol.dfy` | `ping` and the PING branch of `handle_message`, on one node |
| `PingNetwork.dfy` | pings between nodes over an unreliable network |
| `FileTable.dfy` | `insertFileInfoRecord`, `query` |
| `Config.dfy` | `load_config`, `save_config` |

Code that updates things in place is a class or a method with loops, proved equal to a specification
function; the theorems are then about that function. Threads are step machines whose events are single
atomic actions (one list operation, one test, one assignment), and a theorem about a run holds
for every sequence of events. The S-box table, the number of passes, `bucketSize`, `alpha`,
`max_hops`, `search_timeout` and the clock are parameters, and the theorems hold for all their values;
the only limits are those the source states or its constants meet: at least three passes, and a search
queue of at least one entry. Counters are taken not to wrap.

## What the code does that its comments or its shape do not suggest

- Only the wait loop of `sub_search::run` renews the deadline, so whatever `max_hops` is, at most the
  first two rounds of a sub-search ask anybody, as long as the clock is not set back
  (`SearchRun.OnlyTwoRoundsAsk`); `time(NULL)` is wall-clock time, which can be.
- Distances run from 0 to 192 but there are 192 buckets: `mark_seen` must not be given the complement
  of the own id (`NodeQueue.SlotExists`). A bucket holds at most `bucketSize - 1` nodes, the
  closest-nodes query returns at most `max(1, alpha - 1)`.
- Both distance queues drop a candidate that is farther than all they hold, even when there is room
  (`Ranking.DropWithRoom`, `NodeQueue.BetterNodesMisses`). So they do not always hold the nearest
  candidates. They do exactly if as many candidates as fit are no farther than the first one, or none is
  farther, and hold fewer than they could otherwise: `Ranking.NearestExactly`, for the closest-nodes query
  `NodeQueue.BetterNodesNearestExactly`, for the rounds of a search `SearchRun.RoundAsksNearestExactly`.
- `add_response` pushes without the mutex under which the mailbox is copied and cleared, so an answer
  pushed between the two is lost (`SearchRun.LostAnswer`). Those are the only ones lost, and all others
  are taken in the order of their pushes (`SearchRun.LostExactly`, `SearchRun.MailboxAlwaysSafe`).
- Two inserts of a new key that overlap lose one record (`FileTable.LostInsert`). Queries give the first
  arrivals at every moment exactly if no insert does that (`FileTable.StoreFaithfulExactly`); what the
  store holds in the end is exact in any case (`FileTable.StoreExactly`).
- Ping equality is not symmetric when a flag is neither 0 nor 1 (`ControlProtocol.SamePingAsymmetry`).
  A node that answers a ping marks itself as seen, not the node that asked.
- A configuration file is loaded exactly if every line of it has a `=` or starts with `#` once it is
  trimmed; otherwise `load_config` throws (`Config.LoadsFileExactly`). A line of white space has neither
  (`Config.BlankLinesThrow`), and such files exist (`Config.BlankLineThrows`).
- The `#define` of BIG_ENDIAN is inside a comment, so nothing ties it to the machine. Without a match every
  word but the length is hashed mirrored (`TigerHash.TigerInto`); the words hashed are then still the right
  ones exactly if all those words are palindromes (`TigerHash.MismatchExactly`).
- The zeros that pad the last block are not byte-swapped on a big-endian machine; they need not be,
  because they fill whole words (`TigerHash.ZeroWords`).

## Model

| member | source | states |
|---|---|---|
| TigerCore.RoundFormsAgree | src/lib/tigertree/tiger/tiger.cpp:42-65 | the two definitions of `round` compute the same registers for every table, key word and multiplier |
| TigerCore.IndexesAgree | src/lib/tigertree/tiger/tiger.cpp:46-63 | shifting 32-bit halves and shifting the whole word extract the same S-box index, for each of the eight bytes |
| TigerCore.BoxesUsed | src/lib/tigertree/tiger/tiger.cpp:44-64 | for every table with one entry: S-box i is read at byte 2i for what is subtracted from a and at byte 7-2i for what is added to b, in either definition, and nowhere else |
| TigerCore.BoxesAreLinear | src/lib/tigertree/tiger/tiger.cpp:46-49 | the exclusive or of two tables gives the exclusive or of what each gives, so the tables with one entry decide all others |
| TigerCore.RoundEffect | src/lib/tigertree/tiger/tiger.cpp:44-50 | c becomes c^x, and then a loses the even boxes of the new c, b gains its odd ones and is multiplied, modulo 2^64 |
| TigerCore.RoundInverse | src/lib/tigertree/tiger/tiger.cpp:44-64 | a round is a bijection of (a,b,c): `UnRound` undoes it from both sides, dividing by 5, 7 or 9 modulo 2^64 |
| TigerCore.MultiplierCancels | src/lib/tigertree/tiger/tiger.cpp:50 | `b *= mul` is undone by multiplying with the stated inverse, on all 64-bit words |
| TigerCore.PassInverse | src/lib/tigertree/tiger/tiger.cpp:67-75 | a pass of eight rounds with rotating roles is a bijection, undone last round first |
| TigerCore.RoundsOneByOne | src/lib/tigertree/tiger/tiger.cpp:67-75 | round n of a pass takes the registers in the order in which the macro names them |
| TigerCore.PassWithoutBoxes | src/lib/tigertree/tiger/tiger.cpp:67-75 | over a table of zeros, which register meets which key word and when it is multiplied, in closed form |
| TigerCore.PassFormsAgree | src/lib/tigertree/tiger/tiger.cpp:67-75 | any number of rounds of a pass gives the same registers with either definition of `round` |
| TigerCore.KeyScheduleInverse | src/lib/tigertree/tiger/tiger.cpp:77-93 | `key_schedule` is a bijection on x0..x7: the sixteen assignments are undone in reverse, from both sides |
| TigerCore.KeyScheduleEquations | src/lib/tigertree/tiger/tiger.cpp:77-93 | the words before `key_schedule` written out in terms of the words after it |
| TigerCore.PassesBijection | src/lib/tigertree/tiger/tiger.cpp:116-121 | for every block, table and number of passes, the registers before the feedforward are a bijective image of (a,b,c), with explicit inverse |
| TigerCore.PassesOneByOne | src/lib/tigertree/tiger/tiger.cpp:115-121 | multipliers 5, 7 and then 9, the key schedule before every pass but the first, and a, b, c rotated to c, a, b after each |
| TigerCore.CompressLoop | src/lib/tigertree/tiger/tiger.cpp:115-151 | the rotating loop, with either `round`, computes the compression function of its block and state |
| TigerCore.CompressUnrolled | src/lib/tigertree/tiger/tiger.cpp:100-151 | the unrolled form with permuted arguments computes the same function for every number of passes from 3 on |
| TigerCore.FeedForwardLosesNothing | src/lib/tigertree/tiger/tiger.cpp:95-122 | from one state two blocks give the same result exactly if the registers before the feedforward agree |
| TigerCore.CompressFeedsForward | src/lib/tigertree/tiger/tiger.cpp:95-98 | the feedforward is undone by exclusive or for a, by adding for b, by subtracting for c |
| Words.ShiftLeft19Bits | src/lib/tigertree/tiger/tiger.cpp:81 | bit k of a << 19 is bit k-19 of a, or 0 |
| Words.ShiftRight23Bits | src/lib/tigertree/tiger/tiger.cpp:84 | bit k of a >> 23 is bit k+23 of a |
| Words.NotFlips | src/lib/tigertree/tiger/tiger.cpp:81 | ~a differs from a in every bit |
| Words.ArithmeticWraps | src/lib/tigertree/tiger/tiger.cpp:46-50 | sums, differences and products of words wrap around modulo 2^64 |
| Words.XorCancels | src/lib/tigertree/tiger/tiger.cpp:45 | exclusive or with the same number twice is the identity, for numbers of any width |
| Words.FromToBytes | src/lib/tigertree/tiger/tiger.cpp:208-209 | storing a word as bytes and loading it back is the identity |
| Words.ToFromBytes | src/lib/tigertree/tiger/tiger.cpp:137-138 | loading bytes as a word and storing it back is the identity, so no two byte strings load as the same words |
| TigerHash.Pad | src/lib/tigertree/tiger/tiger.cpp:182-209 | the padded message extends the message and is the shortest number of whole blocks that also holds the byte 0x01 and the length, floor((len+8)/64)+1 of them |
| TigerHash.PadEnd | src/lib/tigertree/tiger/tiger.cpp:191-207 | after the message comes the byte 0x01, and then zeros up to the length |
| TigerHash.LengthField | src/lib/tigertree/tiger/tiger.cpp:208 | the last eight bytes are the length in bits modulo 2^64, low byte first |
| TigerHash.InitialBytes | src/lib/tigertree/tiger/tiger.cpp:166-168 | the hexadecimal digits of the initial values of a and c; a and b are complements |
| TigerHash.TigerInto | src/lib/tigertree/tiger/tiger.cpp:161-210 | for every message, table, byte order of the machine and build, the loop over blocks and the padding leave in `res` the chain of the compression function over the padded message as it is seen: unchanged if the BIG_ENDIAN switch matches the machine, with every word but the length mirrored if not |
| TigerHash.MismatchExactly | src/lib/tigertree/tiger/tiger.cpp:3-9 | a switch that does not match the machine changes the words hashed exactly if some word before the length is no palindrome, which is so for every message that ends in the first half of a word |
| TigerHash.ViewTwice | src/lib/tigertree/tiger/tiger.cpp:172-187 | bytes stored in the switch's order and loaded in the machine's are in place if the two match, and mirrored in every word if not |
| TigerHash.CompressBlock | src/lib/tigertree/tiger/tiger.cpp:170-180 | a whole block, copied through temp if the switch says so, is compressed as its own eight words when switch and machine match, and as their mirror images when not |
| TigerHash.ChainStep | src/lib/tigertree/tiger/tiger.cpp:170-180 | block after block is compressed, in order, with the same table and number of passes |
| TigerHash.PutTail | src/lib/tigertree/tiger/tiger.cpp:182-197 | the rest of the message, 0x01 and the zeros up to a whole word are in place, never outside temp, and j ends above 56 exactly if 56 or more bytes were left |
| TigerHash.ZeroWords | src/lib/tigertree/tiger/tiger.cpp:200-207 | zeroing whole words without byte swapping zeroes exactly those message bytes in either byte order |
| TigerHash.StoreWord | src/lib/tigertree/tiger/tiger.cpp:208 | the length stored natively is seen low byte first, and the bytes before it are untouched |
| TigerHash.FinishTail | src/lib/tigertree/tiger/tiger.cpp:198-209 | the one-block and the two-block ending both complete the chain over the padded message as it is seen |
| TigerHash.LoadsAgree | src/lib/tigertree/tiger/tiger.cpp:172-187 | bytes kept at j^7 and loaded big-endian are the words of the little-endian branch |
| TigerHash.SwapIsMirror | src/lib/tigertree/tiger/tiger.cpp:174 | j^7 mirrors the bytes of each 64-bit word |
| TigerHash.ToWordsInjective | src/lib/tigertree/tiger/tiger.cpp:137-138 | byte strings of whole words with the same words are equal |
| TigerHash.PaddingInjective | src/lib/tigertree/tiger/tiger.cpp:191-209 | different messages, of any two lengths, never give the same blocks |
| TigerHash.CollisionReduces | src/lib/tigertree/tiger/tiger.cpp:161-210 | two different messages with one hash, of equal length or with different length fields, exhibit two different inputs of the compression function with one output among their own steps |
| Hamming.InitUtil | src/util/util.cpp:56-83 | after the loop entry i is the number of bits set in i, for all 65536 entries |
| Hamming.PopCountStep | src/util/util.cpp:56-83 | the bits of n are its lowest one and those of n / 2 |
| Hamming.BitDistance | src/util/util.cpp:85-99 | the loop over six table lookups of 32-bit words, in either byte order, returns the number of positions among 192 where the ids differ |
| Hamming.XorOfBytes | src/util/util.cpp:88-97 | the bits set in the exclusive or of two loaded words are the differing bits of their bytes |
| Hamming.DifferingInBytes | src/util/util.cpp:88-97 | the differing positions of a stretch of bytes are counted byte by byte |
| Hamming.DistanceSymmetric | src/util/util.cpp:85-99 | the distance is symmetric |
| Hamming.DistanceZero | src/util/util.cpp:85-99 | the distance is 0 exactly for equal ids |
| Hamming.DistanceTriangle | src/util/util.cpp:85-99 | the triangle inequality |
| Hamming.DistanceBounded | src/util/util.cpp:85-99 | the distance is at most 192, attained exactly by bitwise complements |
| Hamming.DistanceOfFlip | src/util/util.cpp:85-99 | changing one bit changes the distance by exactly one, up or down; with the zero law this determines it |
| Messages.SameNodeExactly | src/dht/protocol/messages.hpp:84-90 | == on nodes is equality of everything but the id |
| Messages.SameFileExactly | src/dht/protocol/messages.hpp:145-156 | == on file records is equality of everything but the expiry and the owner's id |
| Ranking.RankIsRanking | src/dht/NodeQueue.cpp:86-99 | ordered insertion yields a sorted permutation in which every distance class is in reverse order of arrival |
| Ranking.RankingUnique | src/dht/NodeQueue.cpp:86-99 | no other list has that property, so it says exactly what the ranking is |
| Ranking.OfferedIsIdeal | src/dht/protocol/search_manager.cpp:124-166 | after any run of offers, with or without removal of copies, the bounded queue is the prefix of its capacity of the ideal ranking of the offers no farther than the first |
| Ranking.NearestExactly | src/dht/protocol/search_manager.cpp:129-162 | the queue holds the first of the ranking of all offers exactly if as near offers as the first fill it, or no offer is farther than the first; otherwise it is shorter |
| Ranking.DropWithRoom | src/dht/protocol/search_manager.cpp:141-149 | a second offer that is farther than the first is dropped, whatever room there is |
| Ranking.RankInParts | src/dht/protocol/search_manager.cpp:141-149 | the ranking of all offers is that of the near ones followed by that of the far ones, for every limit |
| Ranking.OfferedFacts | src/dht/protocol/search_manager.cpp:124-166 | the queue is sorted, within its capacity, made of offers, and has no two == entries when copies are removed |
| Ranking.LatestKeepsOne | src/dht/protocol/search_manager.cpp:150-155 | removing copies keeps one copy of every offer |
| Ranking.TakeInsert | src/dht/protocol/search_manager.cpp:139-161 | what was cut off the queue before never changes what an insertion leaves in it |
| NodeQueue.RoutingTable.MarkSeen | src/dht/NodeQueue.cpp:29-58 | keeps every bucket the pure function `Recent` of the whole history; the node comes to the front, at most one record leaves, the least recently seen, exactly when the bucket is full, and it is the one pinged, with a fresh id; other buckets stay |
| NodeQueue.RoutingTable.Touch | src/dht/NodeQueue.cpp:37-48 | find, erase, push and cut on one bucket, and which record falls out |
| NodeQueue.BucketIsRecent | src/dht/NodeQueue.cpp:29-58 | after any run of calls bucket d is the first bucketSize-1 of the distance-d nodes of the history, most recent first, by their latest record per address |
| NodeQueue.CutAfterTouch | src/dht/NodeQueue.cpp:37-48 | forgetting what was evicted does not change what later calls leave in a bucket |
| NodeQueue.SlotExists | src/dht/NodeQueue.cpp:21-32 | an id has a bucket exactly if it is not the bitwise complement of our own |
| NodeQueue.RoutingTable.GetBetterNodes | src/dht/NodeQueue.cpp:60-117 | for all bucket contents, the nested scan returns the specified list: at most max(1, alpha-1) nodes of the buckets, nearest first, all nearer to h than we are unless all are allowed, and some if any such node is in a bucket, with none of those nearer than the first |
| NodeQueue.RoutingTable.Consider | src/dht/NodeQueue.cpp:80-100 | one eligible node is inserted, dropped, or spills the last entry as the bounded queue demands, for every alpha |
| NodeQueue.OffersExactly | src/dht/NodeQueue.cpp:65-79 | exactly the nodes of the buckets that are nearer to h than we are, or all, are offered to the queue, each at its distance |
| NodeQueue.OffersInOrder | src/dht/NodeQueue.cpp:67-79 | they are offered bucket by bucket, in the order of the bucket |
| NodeQueue.BetterNodesAnswer | src/dht/NodeQueue.cpp:60-117 | size, order, membership and completeness of the specified list, from the buckets alone |
| NodeQueue.BetterNodesExact | src/dht/NodeQueue.cpp:60-117 | the result is the first max(1, alpha-1) of the eligible nodes no farther than the first one scanned, by distance, later scanned first at equal distance |
| NodeQueue.BetterNodesNearestExactly | src/dht/NodeQueue.cpp:60-117 | the result is the max(1, alpha-1) nearest eligible nodes exactly if the first one scanned is far enough, that is if as near nodes fill the queue or no eligible node is farther; otherwise it is shorter |
| NodeQueue.BetterNodesMisses | src/dht/NodeQueue.cpp:80-100 | for every alpha from 3 on and every table that holds two eligible nodes, in whatever buckets, the farther one is not reported if it is scanned second |
| NodeQueue.BetterNodesHead | src/dht/NodeQueue.cpp:60-117 | if any node is eligible there is a result, its head is a closest eligible node overall, and all results are eligible |
| Referrals.HandleSearch | src/dht/protocol/search_manager.cpp:298-344 | the answer carries the suggestions, for key searches only the first arrivals of the record store for the key, and the ids of the question; nothing is sent to the own address |
| Referrals.SuggestionsAreNearer | src/dht/protocol/search_manager.cpp:316-334 | every suggestion is strictly nearer to the key than the node that makes it, never has its id or its address, nor the asker's |
| Referrals.SuggestionsExactly | src/dht/protocol/search_manager.cpp:316-320 | all better nodes but the replier and the asker are suggested, in order |
| Referrals.KnownTargetIsSuggested | src/dht/protocol/search_manager.cpp:316-320 | a node that knows one whose id is the key suggests such a node, unless that has the address of the asker or its own |
| Referrals.ChainDescends | src/dht/NodeQueue.cpp:65-79 | along a chain of referrals the distance to the key falls by at least one per hop |
| Referrals.ChainTerminates | src/dht/NodeQueue.cpp:65-79 | a chain never repeats an id, has at most 192 hops, and ends at the node whose id is the key |
| Referrals.TargetRefersNobody | src/dht/NodeQueue.cpp:79 | a node whose id is the key suggests nobody, whatever it knows |
| SubSearch.Collector.Suggest | src/dht/protocol/search_manager.cpp:129-163 | insert, erase the copies behind, spill: the queue becomes the bounded queue with one more offer |
| SubSearch.Collector.EraseCopies | src/dht/protocol/search_manager.cpp:150-155 | every copy behind the insertion point is erased, nothing else, in order |
| SubSearch.Collector.Absorb | src/dht/protocol/search_manager.cpp:121-193 | a batch of answers offers all its nodes in order and, for key searches, appends each file record to the list of its key: the list of every key is the old one followed by what the batch holds for it |
| SubSearch.EntriesExactly | src/dht/protocol/search_manager.cpp:124-133 | each node of an answer is offered with its distance to the key, in order |
| SubSearch.AllEntriesExactly | src/dht/protocol/search_manager.cpp:121-133 | the offers of a batch are exactly the nodes of its answers, each at its distance to the key |
| SubSearch.FoundExactly | src/dht/protocol/search_manager.cpp:169-190 | key searches collect every file record of every answer under its key, in order of arrival; node searches none |
| SubSearch.OfferAllAfter | src/dht/protocol/search_manager.cpp:121-166 | working through batches one after another is one run of offers |
| SearchRun.SubSearchThread.RunStep | src/dht/protocol/search_manager.cpp:58-201 | the next action of the thread, on the object's fields, queue and results, is the step of the machine |
| SearchRun.SubSearchThread.Query | src/dht/protocol/search_manager.cpp:66-89 | every node of the queue is sent a query, in order, recorded in pq, and the queue is cleared |
| SearchRun.SubSearchThread.PushResponse | src/dht/protocol/search_manager.cpp:41 | a push is one step of the machine, apart from the test before it and the flag after it |
| SearchRun.MailboxAlwaysSafe | src/dht/protocol/search_manager.cpp:37-48 | in every interleaving of pushes, flag updates, copies and clears: taken followed by pending are the answers pushed outside the copying, in order, and the lost ones are those pushed between a copy and its clear, in order; together they are what was accepted; and pending answers mean the flag is down or an adder is about to lower it |
| SearchRun.LostExactly | src/dht/protocol/search_manager.cpp:41-112 | in every run the answers lost are those pushed between a copy and its clear; taken followed by pending is what was accepted, in order, exactly if there is none |
| SearchRun.LostAnswer | src/dht/protocol/search_manager.cpp:111-112 | a run from the start, for any clock before the first deadline, in which two answers are accepted, the first is taken and the second lost |
| SearchRun.LoseOne | src/dht/protocol/search_manager.cpp:111-112 | from any state in which the thread is about to copy and no answer is half-way into the mailbox, an answer pushed after the copy and before the clear is lost |
| SearchRun.RoundsTheorem | src/dht/protocol/search_manager.cpp:58-196 | in every run: at most max_hops+1 rounds and (max_hops+1)*maxSize queries, all in pq up to ==; the first round asks the initial queue, every later one the first maxSize of the ideal ranking of the suggestions heard in the round before |
| SearchRun.RoundAsksNearestExactly | src/dht/protocol/search_manager.cpp:129-162 | in every run a later round asks the nearest of all suggestions of the round before exactly if the first of them was far enough; otherwise it asks fewer nodes |
| SearchRun.SecondRoundAsks | src/dht/protocol/search_manager.cpp:58-113 | for every answer to the first round there is a run from the start in which the second round asks exactly the queue that its suggestions amount to |
| SearchRun.EndsOnlyWhenItMay | src/dht/protocol/search_manager.cpp:32-60 | in every run the thread ends only if it was stopped or after max_hops+1 rounds |
| SearchRun.QueryRecorded | src/dht/protocol/search_manager.cpp:67-68 | appending to pq and removing equal neighbours keeps every queried node, up to == |
| SearchRun.UniqueExactly | src/dht/protocol/search_manager.cpp:68 | `unique` leaves no two == neighbours, adds nothing, keeps the first entry, and changes no list without such neighbours |
| SearchRun.LoopLeftOnlyExpired | src/dht/protocol/search_manager.cpp:91-119 | every round enters the wait loop, and leaves it only when stopped or when a test finds the deadline passed |
| SearchRun.AnswersAreHandled | src/dht/protocol/search_manager.cpp:102-193 | whatever the other threads do, all answers in the mailbox when the thread wakes are worked through by its next three actions, in order, unless it is stopped |
| SearchRun.ClearIs | src/dht/protocol/search_manager.cpp:112-114 | clearing empties the mailbox, raises the flag, and sets the deadline to search_timeout from then |
| SearchRun.EntryExactly | src/dht/protocol/search_manager.cpp:39-41 | an answer enters exactly if kill_search is not set, and it is never unset |
| SearchRun.NothingTakenOnceClosed | src/dht/protocol/search_manager.cpp:91-116 | with a clock that is not set back, once the wait loop is left no answer is ever taken again |
| SearchRun.OnlyTwoRoundsAsk | src/dht/protocol/search_manager.cpp:60-116 | so in every run in which the clock is not set back only the first two batches of queries can be non-empty |
| SearchRun.ThreadEnds | src/dht/protocol/search_manager.cpp:60-116 | with a clock that is not set back, once the wait loop is left the thread ends within `Remaining` actions of its own, four per round left, whatever other threads do in between |
| SearchRun.KilledEnds | src/dht/protocol/search_manager.cpp:203-207 | once kill_search is set the thread ends within four actions of its own, from wherever it is, and works through no further answer, so that the destructor's join returns |
| SearchRun.NothingFoundIsLost | src/dht/protocol/search_manager.cpp:95-193 | in every run: answers are worked through in the order in which they were taken, all but the batch at hand and what a stop drops at the end; the result list of every key is the local records and then the files of those answers, in order; and unless stopped, the suggestions worked through, round by round, and the batch at hand are exactly those of all answers taken |
| SearchRun.WorkInvariant | src/dht/protocol/search_manager.cpp:121-193 | and at every moment, stopped or not, suggestions and results are exactly those of the answers worked through |
| SearchManager.RegistryInvariant | src/dht/protocol/search_manager.cpp:273-289 | in every interleaving each table is a bijection between the current ids and the sub-searches of its search |
| SearchManager.AdvancePreservesMembers | src/dht/protocol/search_manager.cpp:273-289 | a new round changes one id to a fresh one, counts a hop, and leaves every search its set of sub-searches |
| SearchManager.DeliverExact | src/dht/protocol/search_manager.cpp:348-381 | an answer is accepted exactly if its search is registered and its id is that of the current round of one of its sub-searches, and goes to that one |
| SearchManager.StartedSearchGetsAnswers | src/dht/protocol/search_manager.cpp:393-412 | creating a search, adding a sub-search and registering it makes answers with these two ids reach it |
| SearchManager.NewSubGetsAnswers | src/dht/protocol/search_manager.cpp:432-438 | a sub-search added to a registered search is reached by its id |
| SearchManager.NewRoundGetsAnswers | src/dht/protocol/search_manager.cpp:280-284 | from the moment a round begins its id reaches the sub-search, and no other id but the one before changes its target |
| SearchManager.RemovedSearchGetsNone | src/dht/protocol/search_manager.cpp:466-470 | once removed, a search gets no answer after any continuation that does not register it again |
| SearchManager.RemoveIsLocal | src/dht/protocol/search_manager.cpp:466-470 | removing a search leaves the answers of all others where they go |
| SearchManager.LookUpDuringAdvance | src/dht/protocol/search_manager.cpp:280-284 | a look-up that falls between the erase and the insert of a new round finds only what it finds before and after, and what it does not find is missing before or after, so it might as well have come before or after the whole |
| SearchManager.EarlierRoundNeverAccepted | src/dht/protocol/search_manager.cpp:282-284 | once a sub-search has begun another round, answers to the round before are never accepted again, by anybody, whatever happens later |
| SearchManager.StaleForever | src/dht/protocol/search_manager.cpp:282-284 | an id issued for an earlier round is rejected after every continuation |
| SearchManager.Manager.Advance | src/dht/protocol/search_manager.cpp:273-289 | find, erase, reinsert under a fresh id refines the abstract step and keeps the registry consistent |
| SearchManager.Manager.StartSearch | src/dht/protocol/search_manager.cpp:393-412 | the search is created, given one sub-search and registered, the registry stays consistent, and from then on an answer with the returned id and the id of the sub-search is delivered to it |
| SearchManager.Manager.HandleSearchResult | src/dht/protocol/search_manager.cpp:348-381 | the two lookups find the sub-search that the abstract delivery names, or none |
| SearchManager.Manager.RemoveSearch | src/dht/protocol/search_manager.cpp:466-470 | removes the search, says whether it was registered, and keeps the registry consistent |
| JointSearch.JointRunsBoth | src/dht/protocol/search_manager.cpp:58-63 | every run of the thread together with the registry, in which beginning a round is `advance` and answers enter through the look-up, is a run of either one, so that all theorems above hold of it |
| JointSearch.TakenIsOurs | src/dht/protocol/search_manager.cpp:273-381 | in every such run registry and thread agree on the round, and each answer taken carries the id of this search and an id issued to this sub-search, for the round it is in or an earlier one |
| JointSearch.AnswerGetsThrough | src/dht/protocol/search_manager.cpp:37-46 | an answer with the ids of the current round of a registered search reaches the mailbox and lowers its flag |
| JointSearch.OnlyFirstRoundAnswers | src/dht/protocol/search_manager.cpp:58-116 | if the clock is not set back, no answer to a round after the first is ever taken |
| ControlProtocol.SamePingEquivalence | src/dht/protocol/messages.hpp:242-252 | with flags 0 and 1 ping equality is reflexive, symmetric and transitive |
| ControlProtocol.SamePingAsymmetry | src/dht/protocol/messages.hpp:242-252 | it fails to be symmetric exactly for swapped addresses with one flag 0 and the other above 1 |
| ControlProtocol.ReplyMatches | src/dht/protocol/control_protocol.cpp:165-173 | the reply equals its request exactly if the node that was asked is the one replying |
| ControlProtocol.Endpoint.Ping | src/dht/protocol/control_protocol.cpp:93-101 | a ping is recorded with its deadline and sent, unless it is addressed to this node or an equal pair is recorded |
| ControlProtocol.Endpoint.HandlePing | src/dht/protocol/control_protocol.cpp:143-175 | a reply removes one matching ping in any iteration order, or nothing if none matches; a request is answered and the node marks itself seen |
| PingNetwork.PingTheorem | src/dht/protocol/control_protocol.cpp:93-175 | in every run over a network that drops, reorders and duplicates, at every node recorded = outstanding + acknowledged, disjointly, and each acknowledged ping was answered by the node it was sent to |
| PingNetwork.ReplyRemovesOne | src/dht/protocol/control_protocol.cpp:150-164 | in every reachable state a reply matches at most the ping it answers, removes exactly that, and its duplicates remove nothing |
| PingNetwork.RequestIsAnswered | src/dht/protocol/control_protocol.cpp:165-173 | a request that arrives at another node is answered |
| PingNetwork.AnswerAcknowledges | src/dht/protocol/control_protocol.cpp:150-164 | an answer from the node that was asked acknowledges the ping, or an earlier copy has |
| PingNetwork.PingRoundTrip | src/dht/protocol/control_protocol.cpp:93-175 | with any events in between, a ping to a node that is up is acknowledged if neither it nor its answer is lost |
| PingNetwork.ReplyMatchesOne | src/dht/protocol/messages.hpp:242-252 | among the recorded pings of its addressee a reply equals exactly the one with its id |
| PingNetwork.NextPingIsNew | src/dht/NodeQueue.cpp:50-56 | a ping with a fresh id equals no recorded one, so the set never refuses it |
| PingNetwork.PingRefines | src/dht/protocol/control_protocol.cpp:93-101 | at every reachable node the endpoint's set of (deadline, ping) pairs takes each new ping in and keeps standing for the outstanding pings of the network model |
| PingNetwork.ReplyRefines | src/dht/protocol/control_protocol.cpp:150-164 | erasing any matching pair from that set is the network model's acknowledgement |
| FileTable.Store.InsertFileInfoRecord | src/dht/DHT.cpp:60-89 | an insert that nothing overlaps appends the record to the list of its key unless an == one is there, leaves every other list, and keeps the table that of the history |
| FileTable.Store.QueryKey | src/dht/DHT.cpp:91-103 | a query returns the first arrivals of the kept records for its key, in order |
| FileTable.StoreInvariant | src/dht/DHT.cpp:60-89 | in every interleaving of find and update phases lists hold inserted records under their own key without == duplicates, and from any point on never shrink |
| FileTable.UpdateExact | src/dht/DHT.cpp:65-88 | a finished insert left its record stored exactly if its key was found, was still absent, or an == record was there |
| FileTable.StoreExactly | src/dht/DHT.cpp:60-103 | in every interleaving, overlapping inserts included, a query returns the first arrivals of the records whose inserts did not drop them, in order; so a record is stored in the end exactly if it or one == to it was kept; and the table is that of inserting the kept records in turn |
| FileTable.StoreFaithfulExactly | src/dht/DHT.cpp:60-103 | in every interleaving, queries return the first arrivals of all finished inserts at every moment exactly if no insert drops its record |
| FileTable.ShowsStep | src/dht/DHT.cpp:65-88 | a finished insert extends the history that the queries show by its record, unless it is one that drops it, and then not |
| FileTable.FirstArrivalsSnoc | src/dht/DHT.cpp:80-88 | one more record joins the first arrivals of its key, at the end, exactly if no == record came before |
| FileTable.LostInsert | src/dht/DHT.cpp:70-78 | two overlapping first inserts for one key lose the second record |
| FileTable.OneByOneRun | src/dht/DHT.cpp:60-89 | inserts one after another are a run that leaves the table of inserting the records in turn |
| Config.RoundTrip | src/Config.cpp:81-93 | for every map and every order of printing, loading what was saved restores the map exactly if all keys are non-empty, trimmed and free of '=', newline, NUL and leading '#', and all values trimmed and free of newline and NUL |
| Config.SaveAfterLoad | src/Config.cpp:28-65 | saving what was loaded and loading it again changes nothing |
| Config.LoadedIsClean | src/Config.cpp:28-65 | whatever a file holds, all settings it yields are of that form, even when loading throws |
| Config.ParsePrinted | src/Config.cpp:46-61 | a printed clean setting is parsed back, also when its value contains '=' |
| Config.ParsedIsClean | src/Config.cpp:46-61 | every setting that a line yields is clean |
| Config.TrimPadded | src/Config.cpp:46 | trimming drops exactly the white space around a string |
| Config.SpacesExactly | src/Config.cpp:46 | white space is the space and the codes 9 to 13 |
| Config.ParsePadded | src/Config.cpp:46-61 | a line `key = value` with white space in any of the four places sets key to value, also when the value holds '=' |
| Config.ParseSkipped | src/Config.cpp:48-52 | lines that begin with '#' or '=' once trimmed set nothing |
| Config.LinesExactly | src/Config.cpp:41-44 | the pieces between line ends are the lines, without the empty ones, and the last needs no line end |
| Config.ReadFileExactly | src/Config.cpp:35-39 | of each 512 characters, those before the first NUL are kept |
| Config.LoadsLineByLine | src/Config.cpp:41-62 | loading a file is parsing its first line and loading the rest after it; an exception keeps what was set before |
| Config.LoadsSetting | src/Config.cpp:41-62 | a clean setting in any layout is stored before the rest of the file is loaded, so a later one for its key wins |
| Config.ThrowsExactly | src/Config.cpp:46-61 | a line throws exactly if, trimmed, it neither starts with '#' nor has a '=' |
| Config.LoadsExactly | src/Config.cpp:41-62 | lines are loaded without an exception exactly if none of them is of that kind |
| Config.LoadsFileExactly | src/Config.cpp:28-65 | the same for the lines of any file as it is read, chunk by chunk |
| Config.BlankLinesThrow | src/Config.cpp:46-57 | a file with any line of white space only makes loading throw |
| Config.BlankLineThrows | src/Config.cpp:46-57 | the file of one space and a newline does, and sets nothing |
| Config.Configuration.LoadConfig | src/Config.cpp:28-65 | the loop over lines leaves in the map what the lines before the end, or before the exception, set |
| Config.Configuration.ReadAll | src/Config.cpp:33-39 | the file is appended chunk by chunk, each cut at its first NUL |
| Config.Configuration.SaveConfig | src/Config.cpp:81-93 | every setting is printed once, in some order |

## Left out

- Sockets, resolver, receive buffers, thread pool and `main`: input and output. What is sent is a result of the modelled operations.
- Message serialization: the library that does it is not part of this model; messages are values.
- `src/ui/console_ui.cpp`: user interface and publishing by polling.
- The values in `src/lib/tigertree/tiger/sboxes.cpp`: no theorem needs them.
- The `sub_search` constructor's `sort`, `advance` and `erase`: it steps past the end of short lists and sorts by a relation that is no strict weak order, so its result is undefined. The initial queue is any queue of at most `next_nodes_queue_max_size` entries.
- Data races on lists, and `erase(iter); iter++`: the erased position continues at its successor, and each single operation on a list or table (push, copy, clear, look-up, erase, insert) is atomic, also where the source takes no lock for it.
- Look-ups between the erase and the insert of `search::advance`, whose lock `handle_search_result` does not take: the registry makes one event of the two, and `SearchManager.LookUpDuringAdvance` says why that loses nothing.
- Tokenizing a query into several sub-searches: the registry has an event for each sub-search created, in any order.
- `ip_str_to_num`, `ip_num_to_str`, `hash_value`, `randomize`, `load_friends_list`, `ping_all`: they would only add easy members.
- The 513th byte that `load_config` writes past its buffer: a chunk is taken to end there.
- Wrap-around of the 32-bit id counters.
- The list order of equal addresses in `unordered_set` and `unordered_map`: iteration is in an arbitrary order.
- SubSearch.Collector.Suggest: needs a queue size of at least 1, as `alpha` has; with size 0 the source keeps or drops a single entry depending on history.
- TigerHash.CollisionReduces: two lengths that differ by a multiple of 2^61 bytes have the same length field, and are excluded.
