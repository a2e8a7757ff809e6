# Verified model of the coffee framework

A Dafny model of the in-memory algorithms of the C++ framework, with proofs of what they are for.
`dafny verify dfyconfig.toml` checks the whole project.

Each component has a value-level part (datatypes, functions and lemmas about whole runs) and, where
the program updates objects in place, a class whose methods are proved to do exactly what those
functions say.

| files | component |
|---|---|
| Countdown, TimingWheel, TimeService | the timing wheel of the time service, and the countdown table that it refines |
| SolutionTree, Solver | the backtracking solver, and the set of solutions that its tree holds |
| StartUp, Application | start-up of services by recursive initialization, a depth-first search with marks |
| Recency, LruCache, CachedStore, Staleness, Storage | the LRU cache, and the storage in front of which it is invisible |
| Transactions, Connection | a locked database connection with batch commits and a poisoned session |
| Text, Url, UrlCharacters, UrlRoundTrip, UrlRefusals, UrlParser | URLs as text: recomposition and parsing (sections 3 and 5.3 of RFC 3986) |
| HttpHeaders, FirstLine, HttpCodec, HttpRoundTrip, HttpReading, HttpMessage, HttpDecoder | HTTP messages as text (sections 4, 5 and 6 of RFC 2616) |
| Balance, Strategies | round robin, indexed and range strategies |
| Bits, Keys, DataSet | primary keys: comparison, matching and hashing with exclusive or |
| Backtrace | the backtrace buffer of the logger |
| Options | a value or none |

Results that differ from what the documentation or a reader would expect, each with its exact
condition:

* A URL comes back from its text if and only if its user information is absent or has at least two
  characters, a URL without a path has no '/' after its authority, and a URL without a query has no
  '?' in its fragment (`UrlRoundTrip.UrlRoundTrip`). The '@' is looked for from the third character
  of the token on, and a token ends at the first delimiter of a list that occurs anywhere, not at
  the first position. `http://a@h`, `http://h#/` and `/p#?` are lost (`UrlRoundTrip.OneCharacterUserIsLost`,
  `SlashInFragmentIsTaken`, `QuestionInFragmentIsTaken`).
* A message comes back if and only if its first line does, every header is free of line breaks, its
  name free of ':' and spelled like the standard name it matches, and a body is a single line whose
  length is the 32-bit value of the Content-Length (`HttpRoundTrip.MessageRoundTrip`). The first line of a request does
  if and only if the text of its URL holds neither spaces nor NULs and is parsed back
  (`HttpRoundTrip.RequestMessageRoundTrip`), that of a response if and only if its status is not
  negative and its description, if it has one, is single-spaced
  (`HttpRoundTrip.ResponseMessageRoundTrip`). A body of two lines is lost
  (`HttpRoundTrip.TwoLineBodyIsLost`).
* Setting a header again gives the comma-separated list, unless the first value was empty
  (`HttpHeaders.HeadersAreCombined`, `HttpHeaders.EmptyFirstValueIsLost`).
* `countSolutions` at the root is the number of solutions, or 1 when there is none
  (`SolutionTree.RootLeavesCountSolutions`).
* `startServices` initializes a second time exactly the services that an earlier one has already
  brought up. If such a second call throws, a service that requires the stopped one is left running:
  a start-up that fails leaves what runs closed under requirements if and only if the turn that
  failed was not such a second call (`StartUp.StartUpFromScratch`, `StartUp.SecondCallStrands`).
* A batch of `n` commits after `n` changes, or after `n - 1` when locking has begun a transaction
  (`Transactions.FirstBatch`); an explicit commit after a failure makes the earlier work durable
  (`Transactions.CommitHeals`).
* Keys that compare equal hash equally as long as dates of the same name are less than 2^32 seconds
  apart (`Keys.EqualKeysHashEqually`). Keys that differ in one date by less than 2^63 seconds and
  compare equal hash equally exactly then (`Keys.DatesHashEquallyIffNear`); the keys of the dates 0
  and 2^32 compare equal and hash differently (`Keys.FarDatesCompareEqual`).
* Integers and dates compare with the wrong sign when their difference does not fit 32 bits
  (`Keys.OrderOfValues`).
* A cache in front of a storage is invisible in a run if and only if no load of the run meets a
  difference that `hasToRefresh` overlooks (`CachedStore.TransparentIffNothingOverlooked`). A save
  does not touch the cache: the next load may still get what was there before
  (`CachedStore.SaveLeavesStaleObject`). A coherent cache stays coherent if and only if each save
  finds nothing in the cache for its key, or the saved row (`CachedStore.StepStaysCoherent`); it does
  when clients save what they change in the loaded object
  (`CachedStore.ReadModifyWriteNeedsNoRefresh`). Which loads of a run without erases are stale is
  said by the requests and rows alone (`Staleness.TransparentIffNothingStale`).

Conventions: an exception is a result (`Err`, `None`, `Thrown`, `false` or a null object, as the
contract says); parts of the state that an exception leaves half updated are not specified. What
the outside world decides (clock ticks, whether a service starts, what a row of the database holds,
whether a statement succeeds, the hash that the C++ library gives a number or a text) is a
parameter.

## Model

| member | source | states |
|---|---|---|
| Countdown.FirstFiring | source/src/time/TimeService.cc:242-251 | in any interleaving of activate, cancel and ticks, an active event that nobody cancels fires first on exactly the tick its countdown names |
| Countdown.InactiveNeverFires | source/src/time/TimeService.cc:172-175 | an id that is not active and is not activated never fires |
| Countdown.TimerFiresOnce | source/src/time/TimeService.cc:246-250 | a Timer fires on exactly one tick, and is forgotten from then on |
| Countdown.ClockFiresPeriodically | source/src/time/TimeService.cc:249-250 | a Clock fires on its first due tick and then on exactly every k-th tick, for ever |
| Countdown.ActivationToFiring | source/src/time/TimeService.cc:126-155 | with k = timeout / resolution, an accepted event fires first on the (k + 1)-th tick after its activation |
| Countdown.CancelSilences | source/src/time/TimeService.cc:164-180 | after a cancel the event never fires, unless it is activated again |
| Countdown.RefusedIsIgnored | source/src/time/TimeService.cc:130-140 | an activation out of range or of an active id makes no difference to what fires |
| TimingWheel.IndexAgrees | source/src/time/TimeService.cc:152-155 | the index names exactly the ids held over all slots and the temporary quantum, each in one place; its node is the right one, and its list too unless the node was spliced |
| TimingWheel.HomeIsACountdownAway | source/src/time/TimeService.cc:150-152 | the slot of an event is its countdown away from the hand; only a timeout of a full turn leads back to the hand |
| TimingWheel.StoreCounts | source/src/time/TimeService.cc:145-162 | storing an event starts its countdown at k + 1 and keeps slots, temporary quantum and index in agreement, full turn or not |
| TimingWheel.StoreLeavesTheHand | source/src/time/TimeService.cc:152-153 | the firing loop never inserts into the quantum that it iterates |
| TimingWheel.ActivateRefines | source/src/time/TimeService.cc:115-143 | activating on the wheel is activating in the countdown table |
| TimingWheel.CancelRefines | source/src/time/TimeService.cc:172-179 | unlinking by node identity removes exactly the event, also when its recorded list was spliced away |
| TimingWheel.DueIsUnderTheHand | source/src/time/TimeService.cc:236-243 | the quantum under the hand holds exactly the events whose countdown has run out |
| TimingWheel.FiringAgrees | source/src/time/TimeService.cc:242-251 | half way through the firing loop, wheel and index agree with the countdown except for the nodes already visited |
| TimingWheel.AdvanceCounts | source/src/time/TimeService.cc:253-263 | clearing, splicing the temporary quantum in and moving the hand takes one off every countdown |
| TimingWheel.TickRefines | source/src/time/TimeService.cc:233-264 | a turn of the wheel is a tick of the countdown table; it fires exactly the due events, each once |
| TimingWheel.ServeRefines | source/src/time/TimeService.cc:115-266 | every request keeps the agreement of slots, temporary quantum and index with the countdown table |
| TimingWheel.RunRefines | source/src/time/TimeService.cc:115-266 | over any run, the observers are told tick by tick of exactly the events that the countdown table fires, each once |
| TimingWheel.ActivatedIsToldInTime | source/src/time/TimeService.cc:115-266 | on the wheel: for an event with resolution <= timeout <= maxTime that is not active, and k = timeout / resolution, the observers are told of it first on the (k + 1)-th tick after its activation, whatever else is requested |
| TimingWheel.FullTurnIsToldInTime | source/src/time/TimeService.cc:150-155 | an event whose k is the number of slots waits in the temporary quantum, and is told first on tick k + 1 |
| TimingWheel.FullTurnIsTheMaximum | source/src/time/TimeService.cc:73-82 | with the least number of slots, a timeout is a full turn if and only if it is the maximum time and that is a multiple of the resolution |
| TimingWheel.TimerIsToldOnce | source/src/time/TimeService.cc:246-250 | on the wheel: of a Timer they are told on that tick only |
| TimingWheel.ClockIsToldPeriodically | source/src/time/TimeService.cc:249-250 | on the wheel: of a Clock they are told on that tick and then on exactly every k-th tick |
| TimingWheel.CancelledIsNotTold | source/src/time/TimeService.cc:164-180 | on the wheel: after a cancel they are never told of the event, unless it is activated again |
| TimingWheel.RefusedIsNotTold | source/src/time/TimeService.cc:130-140 | on the wheel: a refused activation makes no difference to what the observers are told |
| TimingWheel.LatestIsToldFirst | source/src/time/TimeService.cc:153 | over any run, the events of one tick are told in the order of their storing, the latest first |
| TimeService.CalculeMaxQuantum | source/src/time/TimeService.cc:73-82 | the least number of quanta that covers the maximum time |
| TimeService.TimeService.constructor | source/src/time/TimeService.cc:53-65 | an empty wheel with no active event |
| TimeService.TimeService.Initialize | source/src/time/TimeService.cc:84-95 | runs if and only if the resolution is below the maximum time |
| TimeService.TimeService.Activate | source/src/time/TimeService.cc:115-143 | accepted exactly when the service runs, resolution <= timeout <= maxTime and the id is not active; each refusal with its own condition; one entry more if accepted |
| TimeService.TimeService.Store | source/src/time/TimeService.cc:145-162 | in place what the wheel value does |
| TimeService.TimeService.Cancel | source/src/time/TimeService.cc:164-180 | true exactly for an active event, which leaves the countdown table |
| TimeService.TimeService.EraseNode | source/src/time/TimeService.cc:177-178 | the node and the index entry go, nothing else |
| TimeService.TimeService.ConsumeTick | source/src/time/TimeService.cc:233-264 | tells the observers of exactly the due events, each once, and counts the table down |
| TimeService.TimeService.TurnWheel | source/src/time/TimeService.cc:236-263 | in place a turn of the wheel, and the events in the order of the quantum |
| TimeService.TimeService.FireNode | source/src/time/TimeService.cc:243-250 | the event is forgotten, and a Clock is stored again |
| TimeService.TimeService.CloseQuantum | source/src/time/TimeService.cc:253-263 | the quantum is replaced by the temporary one and the hand moves on |
| SolutionTree.CandidatesAreDistinct | source/include/coffee/basis/pattern/backtracking/Solver.hpp:117-126 | an iteration of candidates that stops never repeats a value |
| SolutionTree.CandidatesInOrder | source/include/coffee/basis/pattern/backtracking/Solver.hpp:117-126 | the candidates are the values from the first one on by next, up to the one that stops the iteration |
| SolutionTree.SolutionByIndex | source/include/coffee/basis/pattern/backtracking/Solver.hpp:128-146 | a solution value by value: each a candidate after the ones before it and not rejected, the last one and no other accepted |
| SolutionTree.GrowIsExact | source/include/coffee/basis/pattern/backtracking/Solver.hpp:117-126 | below a partial solution the tree holds exactly its completions |
| SolutionTree.BranchIsExact | source/include/coffee/basis/pattern/backtracking/Solver.hpp:128-146 | a candidate contributes exactly the completions that begin with it |
| SolutionTree.GrowIsDistinct | source/include/coffee/basis/pattern/backtracking/Solver.hpp:117-126 | no path of the tree occurs twice |
| SolutionTree.SearchIsExact | source/include/coffee/basis/pattern/backtracking/Solver.hpp:69-146 | soundness and completeness: the root-to-leaf paths are exactly the solutions |
| SolutionTree.LeavesCountSolutions | source/include/coffee/basis/pattern/backtracking/Solver.hpp:69-146 | the number of paths is the number of solutions |
| SolutionTree.SomeSolutionIffGrown | source/include/coffee/basis/pattern/backtracking/Solver.hpp:69-81 | the tree is not empty if and only if there is a solution |
| SolutionTree.RootLeavesCountSolutions | source/include/coffee/basis/pattern/backtracking/TreeNode.hpp:156-168 | the leaves below the root are as many as the solutions, or 1 when there is none |
| SolutionTree.AddUpIsFinite | source/include/coffee/basis/pattern/backtracking/Solver.hpp:86-114 | a search problem meets the finiteness that the theorems ask for |
| Solver.TreeNode.constructor | source/include/coffee/basis/pattern/backtracking/TreeNode.hpp:71-78 | a node is a leaf, and its path is its predecessor's and its value |
| Solver.TreeNode.Add | source/include/coffee/basis/pattern/backtracking/TreeNode.hpp:89 | the subtree becomes the last one |
| Solver.TreeNode.Clear | source/include/coffee/basis/pattern/backtracking/TreeNode.hpp:183 | the node is a leaf again |
| Solver.TreeNode.CountSolutions | source/include/coffee/basis/pattern/backtracking/TreeNode.hpp:156-168 | the number of root-to-leaf paths below the node |
| Solver.Solver.Apply | source/include/coffee/basis/pattern/backtracking/Solver.hpp:69-81 | the tree of all solutions is built in place; true if and only if a solution exists |
| Solver.Solver.AddRoot | source/include/coffee/basis/pattern/backtracking/Solver.hpp:73-78 | a first step is kept if some solution begins with it |
| Solver.Solver.ExploreSolutions | source/include/coffee/basis/pattern/backtracking/Solver.hpp:117-126 | the node gets the subtrees of all its candidates; true if it got any |
| Solver.Solver.Backtracking | source/include/coffee/basis/pattern/backtracking/Solver.hpp:128-146 | the node gets the subtree of one candidate, or nothing; true in the first case |
| StartUp.LoggedIsFlawless | source/src/app/Service.cc:93-119 | what was initialized after its requirements reaches no loop, no missing requirement and no failing service |
| StartUp.InitializeIsExact | source/src/app/Service.cc:93-119 | amid a start-up, initialize succeeds if and only if no flaw is reachable; services that are starting or running keep that mark, stopped ones may be running afterwards |
| StartUp.VisitIsExact | source/src/app/Service.cc:99-113 | the loop over the requirements succeeds if and only if no flaw is reachable |
| StartUp.StartUpIsExact | source/src/app/Service.cc:93-119 | one call of initialize from a quiet state: success iff no flaw is reachable, then everything reachable runs; in any case nothing stays Starting and what runs is closed under requirements |
| StartUp.AgainIsExact | source/src/app/Service.cc:93-119 | initializing a service that runs calls its do_initialize once more and nothing else; if that throws, the service is stopped |
| StartUp.TurnIsExact | source/src/app/Application.cc:152-155 | one turn, whatever do_initialize did in the turns before: success iff no loop, no missing requirement and no throw among the services that it would call; what runs stays closed under requirements unless the turn was a second call |
| StartUp.SteadyServicesAreExact | source/src/app/Application.cc:147-156 | if do_initialize always ends in the same way, the application starts if and only if no service has a flaw, and then everything runs |
| StartUp.StartServicesIsExact | source/src/app/Application.cc:147-156 | from any turn on, with do_initialize free to end differently in every turn: success iff every turn works; the counts of initializations after a success; what a failure leaves running |
| StartUp.StartUpFromScratch | source/src/app/Application.cc:147-156 | from scratch: success iff every turn works; then every service runs and was initialized twice if an earlier service of the list leads to it, else once; after a failure, what runs is closed under requirements iff the turn that failed was not a second call |
| StartUp.SecondCallStrands | source/src/app/Service.cc:93-119 | with a requiring b and a second do_initialize of b that throws, a is left running and b stopped |
| Application.Service.Require | source/src/app/Service.cc:63-75 | a feature can be required once |
| Application.NamedFitIsUnique | source/src/app/Application.cc:196-207 | a named implementation of a feature is attached at most once |
| Application.Application.Select | source/src/app/Application.cc:220-241 | the first service with the required feature and, unless "*" is asked for, the required implementation; none exactly when no service has both |
| Application.InsertKeepsOrder | source/src/app/Application.cc:211 | the map stays in order of feature |
| Application.FirstComeFirstSelected | source/src/app/Application.cc:211-241 | a service that is attached is selected exactly where nothing was, so among services of one feature the first attached one is selected |
| Application.Application.Attach | source/src/app/Application.cc:188-218 | refused exactly when the implementation of the feature is there already; otherwise the service goes behind those of its feature and of lower features |
| Application.Application.Initialize | source/src/app/Service.cc:93-119 | marks, calls and result are those of the depth-first search |
| Application.Application.VisitRequirements | source/src/app/Service.cc:99-118 | the requirements in turn, then the service itself |
| Application.Application.SelectAndBring | source/src/app/Service.cc:100-109 | one requirement is selected and brought up, or the start-up fails |
| Application.Application.Bring | source/src/app/Service.cc:102-109 | a running requirement is left alone, one that is starting is a loop, any other is initialized |
| Application.Application.Finish | source/src/app/Service.cc:112-118 | do_initialize and the mark Running, or the mark Stopped after an exception |
| Application.Application.StartServices | source/src/app/Application.cc:147-156 | every service in its turn until one fails, as the search says, with do_initialize free to end differently in every turn |
| Recency.FindIsLatestOrMiss | source/include/coffee/basis/pattern/lru/Cache.hpp:101-109 | a find returns the latest value set for the key, or misses |
| Recency.RunIsBounded | source/include/coffee/basis/pattern/lru/Cache.hpp:114-131 | the cache never exceeds its capacity and holds each key once |
| Recency.RecentlyUsedIsKept | source/include/coffee/basis/pattern/lru/Cache.hpp:101-178 | a key that is not erased is kept while fewer than maxSize other keys are touched |
| Recency.LeastRecentlyUsedIsExact | source/include/coffee/basis/pattern/lru/Cache.hpp:101-178 | without erases a key is present if and only if fewer than maxSize distinct other keys were touched since its last touch |
| LruCache.Cache.Find | source/include/coffee/basis/pattern/lru/Cache.hpp:101-109 | the value or a miss; a hit becomes the most recent entry |
| LruCache.Cache.Set | source/include/coffee/basis/pattern/lru/Cache.hpp:114-131 | the value is stored as the most recent entry, the oldest one goes if there is no room |
| LruCache.Cache.Erase | source/include/coffee/basis/pattern/lru/Cache.hpp:137-147 | true exactly for a cached key, which goes |
| LruCache.Cache.UpdateAccess | source/include/coffee/basis/pattern/lru/Cache.hpp:170-178 | the entry becomes the most recent one, list and index stay in agreement |
| LruCache.Cache.IndexIsLookup | source/include/coffee/basis/pattern/lru/Cache.hpp:101-106 | the index answers exactly whether the list holds a key |
| LruCache.RemoveIsLinked | source/include/coffee/basis/pattern/lru/Cache.hpp:137-147 | unlinking a node keeps list and index in agreement |
| LruCache.PushBackIsLinked | source/include/coffee/basis/pattern/lru/Cache.hpp:123-124 | appending a node for a new key keeps list and index in agreement |
| CachedStore.CacheIsTransparent | source/src/persistence/Storage.cc:58-168 | with a vigilant policy every run of load, save and erase gets the replies of a store without a cache, for any cache size of at least 1 |
| CachedStore.TransparentIffNothingOverlooked | source/src/persistence/Storage.cc:58-168 | run by run and under any policy, the replies are those of a store without a cache if and only if no load meets a difference that the policy overlooks |
| CachedStore.NeverIsTheHardest | source/src/persistence/Storage.cc:86-97 | a run in which the cache is invisible without any refresh is one in which it is invisible under every policy |
| CachedStore.CoherentIffLoadsAgree | source/src/persistence/Storage.cc:69-97 | the cache holds only what the database holds if and only if no load could tell the two apart |
| CachedStore.StepStaysCoherent | source/src/persistence/Storage.cc:58-168 | a coherent cache stays coherent after a request exactly when: always for loads and erases; for a save that is carried out and for a foreign change of a row, if the cache has nothing for the key or the new row; for a change of a cached object, if it agrees with the row |
| CachedStore.CoherentRunsNeedNoRefresh | source/src/persistence/Storage.cc:58-168 | a run stays coherent if and only if each of its requests, saves included, meets that condition; then the cache is invisible under every policy |
| CachedStore.ReadModifyWriteNeedsNoRefresh | source/src/persistence/Storage.cc:58-168 | under every policy the cache is invisible to loads, erases, saves that fail, and changes of an object that are saved at once |
| CachedStore.SaveLeavesStaleObject | source/src/persistence/Storage.cc:104-139 | load, save, load: without a refresh the second load gets the row from before the save |
| Staleness.CacheIsWhatRequestsSay | source/src/persistence/Storage.cc:58-102 | without erases and refreshes a key is cached if and only if fewer than the capacity of other keys were loaded since its last load, and then with what was fetched or changed last |
| Staleness.TransparentIffNothingStale | source/src/persistence/Storage.cc:58-102 | from an empty cache, without erases and refreshes, the replies are those of a store without a cache if and only if no load is stale, a condition on requests and rows alone; then they are under every policy |
| CachedStore.OverlookedDifferenceShows | source/src/persistence/Storage.cc:86-97 | a policy that overlooks one difference is visible after two loads |
| CachedStore.CountersAddUp | source/src/persistence/Storage.cc:74-154 | hits and faults add up to the loads that obtained their guards and the erases |
| CachedStore.HitsAreFound | source/src/persistence/Storage.cc:74-154 | hits are exactly those of them whose key the cache holds, faults the others |
| CachedStore.DatabaseMeans | source/src/persistence/Storage.cc:58-168 | what the store without a cache does: which request changes which row, and what is replied |
| Storage.Storage.Load | source/src/persistence/Storage.cc:58-102 | cache of the cached store; the reply and the counters by guards, cached object, policy and row |
| Storage.Storage.Refresh | source/src/persistence/Storage.cc:91-96 | the cached object is overwritten in place, its recency stays |
| Storage.Storage.Save | source/src/persistence/Storage.cc:104-139 | the reply of the statement; cache and counters stay |
| Storage.Storage.Erase | source/src/persistence/Storage.cc:141-168 | with a connection the cache forgets the key, whatever comes of the statement; reply and counters |
| Transactions.SessionOutcome | source/src/dbms/Connection.cc:57-189 | after unlock nothing is pending, and durable are all changes carried out or, if the session ends poisoned, those of its last commit |
| Transactions.HealthySessionKeepsAll | source/src/dbms/Connection.cc:101-106 | without a failure every change is durable after unlock |
| Transactions.FailedSessionStops | source/src/dbms/Connection.cc:95-108 | from the first failure on, without an explicit commit, the durable state stays that of the last commit before it |
| Transactions.AllOrNothing | source/src/dbms/Connection.cc:57-189 | without batches and explicit commits: all changes, or none if one failed |
| Transactions.PoisonRefuses | source/src/dbms/Connection.cc:67-69 | a poisoned session refuses every change and keeps its state |
| Transactions.ReplyIsTrue | source/src/dbms/Connection.cc:57-109 | over runs: a failure is replied exactly when the statement poisons the session, a refusal exactly when it was poisoned before, else what the database answered; a success exactly when the effect is carried out |
| Transactions.WhatPoisons | source/src/dbms/Connection.cc:95-98 | a session is poisoned by a statement that requires a commit, rolls back on errors and does not succeed; a commit ends it |
| Transactions.WhatIsCarriedOut | source/src/dbms/Connection.cc:92-106 | the effects of successful statements that require a commit, outside of poisoned stretches |
| Transactions.CommitHeals | source/src/dbms/Connection.cc:111-125 | an explicit commit makes the work before a failure durable and ends the poisoning |
| Transactions.FirstBatch | source/include/coffee/dbms/Connection.hpp:118 | when exactly the first batch is committed |
| Connection.Connection.Lock | source/src/dbms/Connection.cc:152-161 | the state after opening a session of an available connection |
| Connection.Connection.SetMaxCommitPending | source/include/coffee/dbms/Connection.hpp:89-93 | the new limit, and the previous one as the result |
| Connection.Connection.Commit | source/src/dbms/Connection.cc:111-125 | pending effects become durable, the counters start again |
| Connection.Connection.Rollback | source/src/dbms/Connection.cc:127-141 | pending effects are dropped, the counters start again |
| Connection.Connection.Execute | source/src/dbms/Connection.cc:57-109 | reply, poison, effects and batch commit of one statement, each with its condition |
| Connection.Connection.Unlock | source/src/dbms/Connection.cc:170-189 | the session ends with a rollback if it is poisoned, else with a commit of what is pending |
| Text.SplitOfJoin | source/src/http/protocol/defines.cc:70-87 | splitting undoes joining, for items without the delimiter |
| Text.TokensAreRuns | source/src/http/protocol/defines.cc:70-87 | items are the runs between delimiters, however many of these there are |
| Text.SplitStopsAtNul | source/src/http/protocol/defines.cc:77 | nothing behind a NUL is split |
| Text.NumberOfDecimal | source/src/http/protocol/defines.cc:89-96 | a decimal text reads back as its number |
| Text.NumberIsPositional | source/src/http/protocol/defines.cc:89-96 | digits count by position, leading zeros included |
| Text.AtoiOfAnyDecimal | source/src/http/protocol/state/HttpProtocolWaitingMessage.cc:117-129 | the low 32 bits as a signed number, and -1 beyond a long |
| Text.SameIgnoringCaseIsSpelling | source/src/http/protocol/state/HttpProtocolState.cc:39 | strings are the same ignoring case if and only if they agree character by character up to the case of letters |
| Text.AtoiOfDecimal | source/src/http/protocol/state/HttpProtocolWaitingMessage.cc:90 | a status of at most 31 bits survives being written and read |
| UrlRoundTrip.CutAt | source/src/http/url/URLParser.cc:176-199 | where a token ends: before a delimiter of the list if no earlier delimiter of the list occurs behind it |
| UrlRoundTrip.CutLater | source/src/http/url/URLParser.cc:181-185 | a delimiter at the head of the list drags the token past later ones |
| UrlRoundTrip.QueryRoundTrip | source/src/http/url/URLParser.cc:132-144 | the text of a query reads back as its pairs in order |
| UrlRoundTrip.EndPointRoundTrip | source/src/http/url/URLParser.cc:85-87 | host and port read back |
| UrlRoundTrip.UserInformationRoundTrip | source/src/http/url/URLParser.cc:94-98 | user and password are told apart again |
| UrlRoundTrip.AuthorityRoundTrip | source/src/http/url/URLParser.cc:70-107 | the authority reads back if and only if its user information is not a single character |
| UrlRoundTrip.OverrunIsNoticed | source/src/http/url/URLParser.cc:82-103 | a token that runs past the authority never reads as this authority |
| UrlRoundTrip.RestRoundTrip | source/src/http/url/URLParser.cc:109-157 | path, query and fragment read back, unless a fragment without a query holds a '?' |
| UrlRoundTrip.UrlRoundTrip | source/src/http/url/URLParser.cc:46-157 | parsing what encode wrote gives the URL back if and only if it is unambiguous |
| UrlRoundTrip.OriginFormRoundTrip | source/src/http/url/URLParser.cc:49-53 | the same for a URL of path, query and fragment only |
| UrlRoundTrip.OneCharacterUserIsLost | source/src/http/url/URLParser.cc:84-98 | http://a@h is not parsed back |
| UrlRoundTrip.SlashInFragmentIsTaken | source/src/http/url/URLParser.cc:176-199 | http://h#/ is not parsed back |
| UrlRoundTrip.QuestionInFragmentIsTaken | source/src/http/url/URLParser.cc:109-119 | /p#? is not parsed back |
| UrlRefusals.ParsedIsProper | source/src/http/url/URLParser.cc:46-173 | whatever was parsed has no empty component, a port of digits and no empty key; scheme and host unless it starts with '/' |
| UrlRefusals.PortIsRefusedIff | source/src/http/url/URLParser.cc:202-210 | scheme://host:port/path is refused if and only if the port is neither empty nor a number, and otherwise read as its components |
| UrlRefusals.MissingPartsAreRefused | source/src/http/url/URLParser.cc:159-166 | a URL without a host or without a scheme is refused |
| UrlRefusals.QueryIsRefusedIff | source/src/http/url/URLParser.cc:132-144 | a query is refused if and only if some run between its '&'s starts with '=' |
| UrlRefusals.WhereTheAuthorityStarts | source/src/http/url/URLParser.cc:73-80 | behind the first '//' of the text, wherever that is |
| UrlRefusals.WhereTheAtSignCounts | source/src/http/url/URLParser.cc:84 | from the position on that the token has in the text |
| UrlCharacters.NothingIsInvented | source/src/http/url/URLParser.cc:46-157 | a URL that was parsed is written without any character that its text did not hold, delimiters apart |
| UrlParser.SplitItems | source/src/http/protocol/defines.cc:70-87 | the strtok loop yields the runs of characters other than the delimiter, up to the first NUL |
| UrlParser.EncodeQuery | source/src/http/url/URL.cc:91-107 | '?' and the pairs joined by '&' |
| UrlParser.EncodeUrl | source/src/http/url/URL.cc:54-114 | the text of the URL, with '@' exactly when there is a user or a password |
| UrlParser.Parser.ExtractTokenAt | source/src/http/url/URLParser.cc:176-199 | the positions of the token are those of the cut on suffixes |
| UrlParser.Parser.AddMandatory | source/src/http/url/URLParser.cc:159-166 | an empty component is refused |
| UrlParser.Parser.AddOptional | source/src/http/url/URLParser.cc:168-173 | an empty component is not recorded |
| UrlParser.Parser.AddEndPoint | source/src/http/url/URLParser.cc:85-87 | refused exactly when there is nothing before the first ':' or something else than digits behind it |
| UrlParser.Parser.ReadAuthorityFrom | source/src/http/url/URLParser.cc:70-107 | components and end position of the authority, or an exception exactly when it has no readable end point |
| UrlParser.Parser.ReadPathFrom | source/src/http/url/URLParser.cc:109-119 | path and end position |
| UrlParser.Parser.AddPairs | source/src/http/url/URLParser.cc:136-144 | the pairs in order, or an exception exactly when some key is empty |
| UrlParser.Parser.ReadQueryFrom | source/src/http/url/URLParser.cc:121-147 | pairs and end position, nothing without a '?' |
| UrlParser.Parser.ReadFragmentFrom | source/src/http/url/URLParser.cc:149-157 | the rest of the text with its '#' |
| UrlParser.Parser.Build | source/src/http/url/URLParser.cc:46-68 | the parser object computes the parse that the round trips are about, for every text |
| HttpHeaders.ValuesAccumulate | source/include/coffee/http/HttpHeader.hpp:104-111 | the value of a header depends only on the values given for its name, in order |
| HttpHeaders.AccumulatedIsTheList | source/include/coffee/http/HttpHeader.hpp:104-111 | the value is the comma-separated list if and only if the list does not start with an empty value |
| HttpHeaders.AppearanceIsKept | source/src/http/HttpMessage.cc:63-101 | one header for each name, in the order of first appearance |
| HttpHeaders.HeadersAreCombined | source/src/http/HttpMessage.cc:63-101 | after any settings: one header for each name, in order of first appearance, with its values combined (section 4.2 of RFC 2616) |
| HttpHeaders.EmptyFirstValueIsLost | source/include/coffee/http/HttpHeader.hpp:104-111 | the values '' and 'a' give 'a' and not ',a' |
| HttpHeaders.StandardNamesAreCanonical | source/src/http/protocol/defines.cc:40-49 | no two standard names are equal ignoring case, so each is found under its own spelling |
| HttpHeaders.LookupFindsFirst | source/src/http/protocol/state/HttpProtocolState.cc:33-46 | the search finds the first entry that is the name ignoring case, or none |
| HttpHeaders.TypeIsFoundIffSpelled | source/src/http/protocol/state/HttpProtocolState.cc:33-46 | a standard name is found if and only if the text spells it, each letter in either case |
| HttpHeaders.AnySpellingSetsTheHeader | source/src/http/protocol/state/HttpProtocolWaitingContentLength.cc:46-52 | a header line in any spelling sets the header under the name of the table |
| HttpHeaders.OtherNamesAreKept | source/src/http/protocol/state/HttpProtocolWaitingContentLength.cc:59-61 | any other name is kept as it was written |
| HttpHeaders.ContentLengthIsStandard | source/src/http/protocol/state/HttpProtocolWaitingContentLength.cc:50-52 | a header is kept as Content-Length only if the table says so |
| FirstLine.VersionRoundTrip | source/src/http/protocol/state/HttpProtocolWaitingMessage.cc:117-129 | a version of two 16-bit numbers survives being written and read |
| FirstLine.MethodRoundTrip | source/src/http/protocol/state/HttpProtocolWaitingMessage.cc:131-144 | every method name is read as itself |
| FirstLine.JoinOfTokens | source/src/http/protocol/state/HttpProtocolWaitingMessage.cc:81-88 | the words of a reason make the reason again if and only if it is single-spaced |
| FirstLine.ReadUrlIsClean | source/src/http/protocol/state/HttpProtocolWaitingMessage.cc:93-115 | a URL that was read from a request line holds neither spaces nor NULs |
| FirstLine.RequestRoundTrip | source/src/http/protocol/state/HttpProtocolWaitingMessage.cc:93-115 | a request line is read back if and only if the text of its URL holds neither spaces nor NULs and is parsed back |
| FirstLine.ResponseRoundTrip | source/src/http/protocol/state/HttpProtocolWaitingMessage.cc:57-91 | a status line is read back if and only if the status is not negative and the reason single-spaced |
| FirstLine.SpelledOutIsTheSameLine | source/src/http/HttpResponse.cc:92-105 | the reason of the table in place of a missing description does not change the line |
| FirstLine.StandardReasonIsSpeakable | source/src/http/HttpResponse.cc:46-106 | every reason of the table, and the one for a status that is not in it, is single-spaced |
| HttpCodec.ProcessIsOrderly | source/src/http/protocol/state/HttpProtocolWaitingContentLength.cc:38-65 | a step moves forward only; a message exists exactly after the first state; a body has the expected size |
| HttpCodec.RunIsOrderly | source/src/http/protocol/HttpProtocolDecoder.cc:39-59 | the same for every run on arbitrary bytes |
| HttpCodec.LinesRebuild | source/src/http/protocol/HttpProtocolDecoder.cc:61-90 | the tokens with their line breaks rebuild the text |
| HttpCodec.LinesOfUnlines | source/src/http/protocol/HttpProtocolDecoder.cc:61-90 | lines written with line breaks are read as tokens again |
| HttpCodec.WaitingMessageMeans | source/src/http/protocol/state/HttpProtocolWaitingMessage.cc:38-55 | lines before the first line are skipped, an unreadable URL stops the decoder |
| HttpCodec.WaitingContentLengthMeans | source/src/http/protocol/state/HttpProtocolWaitingContentLength.cc:38-65 | the head up to the empty line, with the length of its first numeric Content-Length |
| HttpCodec.WaitingBodyMeans | source/src/http/protocol/state/HttpProtocolWaitingBody.cc:38-59 | the rest of the head, then the body |
| HttpCodec.DecoderIsExact | source/src/http/protocol/HttpProtocolDecoder.cc:39-59 | the state machine computes the line-by-line meaning of a message, for every text |
| HttpRoundTrip.HeaderLineRoundTrip | source/src/http/protocol/state/HttpProtocolWaitingContentLength.cc:46-61 | a header line sets the header it was written from if and only if the name has no ':' and is canonical |
| HttpRoundTrip.HeadersRoundTrip | source/src/http/HttpMessage.cc:63-101 | the header lines set the same headers if and only if each can be read |
| HttpRoundTrip.LengthOfHeaders | source/src/http/protocol/state/HttpProtocolWaitingContentLength.cc:51-56 | the length that is expected is the one that the headers give |
| HttpRoundTrip.EncodedLines | source/src/http/protocol/HttpProtocolEncoder.cc:32-57 | the lines of an encoded message: first line, headers, empty line, body |
| HttpRoundTrip.BodyRoundTrip | source/src/http/protocol/state/HttpProtocolReadBody.cc:38-47 | a body is read back if and only if it is empty or a single line of the expected length |
| HttpRoundTrip.HeadlessIsNoticed | source/src/http/protocol/HttpProtocolDecoder.cc:39-59 | if the first line is skipped, what follows never makes a message with as many headers and the same body |
| HttpRoundTrip.DecodedHeadersAreLines | source/src/http/protocol/HttpProtocolDecoder.cc:39-90 | whatever the text, no header of a decoded message holds a line break |
| HttpRoundTrip.MessageRoundTrip | source/src/http/protocol/HttpProtocolEncoder.cc:32-57 | decoding an encoded message gives it back if and only if its first line, its headers and its body can be read |
| HttpRoundTrip.AddedLengthIsRight | source/src/http/protocol/HttpProtocolEncoder.cc:42-44 | with the Content-Length that the encoder adds, a body can be read if and only if it has no line break and less than 2^32 bytes |
| HttpRoundTrip.TwoLineBodyIsLost | source/src/http/protocol/state/HttpProtocolReadBody.cc:38-47 | a body of two lines does not come back |
| HttpRoundTrip.RequestMessageRoundTrip | source/src/http/HttpRequest.cc:31-46 | a request comes back if and only if the text of its URL holds neither spaces nor NULs and is parsed back, and headers and body can be read |
| HttpRoundTrip.AbsoluteRequestRoundTrip | source/src/http/HttpRequest.cc:31-46 | with scheme and host: if and only if the URL is unambiguous, and the rest as before |
| HttpRoundTrip.OriginRequestRoundTrip | source/src/http/HttpRequest.cc:31-46 | with path, query and fragment only: if and only if a fragment without a query holds no '?', and the rest as before |
| HttpRoundTrip.ResponseMessageRoundTrip | source/src/http/HttpResponse.cc:46-106 | a response comes back, with its reason spelled out, if and only if its status is not negative, a description that it has is single-spaced, and headers and body can be read |
| HttpReading.VersionIsReadIff | source/src/http/protocol/state/HttpProtocolWaitingMessage.cc:117-129 | a version is read if and only if two numbers stand behind the first '/', with a '.' between them; 16 bits of each |
| HttpReading.StatusLineIsRead | source/src/http/protocol/state/HttpProtocolWaitingMessage.cc:57-91 | 'http' in any case, a version, a number and words make a response |
| HttpReading.RequestLineIsRead | source/src/http/protocol/state/HttpProtocolWaitingMessage.cc:93-115 | a method in any case, a URL and a version make a request, kept under the name of the table, or the exception of the URL |
| HttpReading.OtherLinesAreSkipped | source/src/http/protocol/state/HttpProtocolWaitingMessage.cc:57-115 | every other line is not a first line |
| HttpReading.LengthMakesTheBody | source/src/http/protocol/state/HttpProtocolReadBody.cc:38-47 | the first head line that spells Content-Length, in any case, with digits decides: a body line of just that length is the body, another one an error |
| HttpReading.LengthMakesTheLastBody | source/src/http/protocol/state/HttpProtocolReadBody.cc:38-47 | the same at the end of the text, where the body may be missing |
| HttpReading.NoLengthNoBody | source/src/http/protocol/state/HttpProtocolWaitingContentLength.cc:41-44 | without such a line there is no body, whatever follows the empty line |
| HttpReading.NoiseIsSkipped | source/src/http/protocol/state/HttpProtocolWaitingMessage.cc:38-55 | lines before the first line do not matter |
| HttpReading.UnreadableUrlIsAnError | source/src/http/protocol/state/HttpProtocolWaitingMessage.cc:93-115 | a request line whose URL cannot be parsed ends in an error |
| HttpReading.NoFirstLineNoMessage | source/src/http/protocol/HttpProtocolDecoder.cc:54-56 | without a first line there is no message |
| HttpReading.LengthIsAdded | source/src/http/protocol/HttpProtocolEncoder.cc:39-44 | a body without a Content-Length gets one as the last header, and nothing else changes |
| HttpReading.WrittenText | source/src/http/protocol/HttpProtocolEncoder.cc:32-57 | the text of a message with two headers, character by character |
| HttpReading.WrittenFirstLine | source/src/http/HttpResponse.cc:92-105 | the first lines as they are written |
| HttpMessages.HttpHeader.SetValue | source/include/coffee/http/HttpHeader.hpp:104-111 | the value is appended after a comma, or taken if there was none |
| HttpMessages.HttpHeader.EncodeLine | source/include/coffee/http/HttpHeader.hpp:122-127 | name, ':' and value |
| HttpMessages.HttpMessage.HasCustomHeader | source/include/coffee/http/HttpMessage.hpp:54 | whether the list has a header of that name |
| HttpMessages.HttpMessage.GetCustomHeaderValue | source/src/http/HttpMessage.cc:51-61 | the value of the header, or an exception |
| HttpMessages.HttpMessage.SetHeader | source/src/http/HttpMessage.cc:63-101 | list and directory after one setting, still in agreement |
| HttpMessages.HttpProtocolEncoder.AddLength | source/src/http/protocol/HttpProtocolEncoder.cc:39-44 | a message with a body and no Content-Length gets one |
| HttpMessages.HttpProtocolEncoder.AppendHeaders | source/src/http/protocol/HttpProtocolEncoder.cc:46-48 | the header lines in order |
| HttpMessages.HttpProtocolEncoder.Apply | source/src/http/protocol/HttpProtocolEncoder.cc:32-57 | the buffer holds the text that the round trips are about, and the message its Content-Length |
| HttpDecoder.TryStandardType | source/src/http/protocol/state/HttpProtocolState.cc:33-46 | the standard name that the item spells, in either case of each letter, or none |
| HttpDecoder.TryMethod | source/src/http/protocol/state/HttpProtocolWaitingMessage.cc:131-144 | the method that the item spells, in either case of each letter, or none |
| HttpDecoder.JoinWords | source/src/http/protocol/state/HttpProtocolWaitingMessage.cc:81-88 | the words with single spaces |
| HttpDecoder.TryResponse | source/src/http/protocol/state/HttpProtocolWaitingMessage.cc:57-91 | the response of the items, if they are one |
| HttpDecoder.TryRequest | source/src/http/protocol/state/HttpProtocolWaitingMessage.cc:93-115 | the request of the items, if they are one, or the exception of its URL |
| HttpDecoder.HttpProtocolDecoder.ProcessWaitingMessage | source/src/http/protocol/state/HttpProtocolWaitingMessage.cc:38-55 | one step of the state machine in place |
| HttpDecoder.HttpProtocolDecoder.ProcessWaitingContentLength | source/src/http/protocol/state/HttpProtocolWaitingContentLength.cc:38-65 | one step of the state machine in place |
| HttpDecoder.HttpProtocolDecoder.ProcessWaitingBody | source/src/http/protocol/state/HttpProtocolWaitingBody.cc:38-59 | one step of the state machine in place |
| HttpDecoder.HttpProtocolDecoder.ProcessReadingBody | source/src/http/protocol/state/HttpProtocolReadBody.cc:38-47 | one step of the state machine in place |
| HttpDecoder.HttpProtocolDecoder.ReadTokenAt | source/src/http/protocol/HttpProtocolDecoder.cc:61-90 | the next token, at a position that always grows |
| HttpDecoder.HttpProtocolDecoder.Turn | source/src/http/protocol/HttpProtocolDecoder.cc:48-52 | one turn of the loop does not change what the whole run gives |
| HttpDecoder.HttpProtocolDecoder.Apply | source/src/http/protocol/HttpProtocolDecoder.cc:39-59 | terminates on every text, with the decoded message or an exception |
| Balance.SearchIsExact | source/src/balance/StrategyRoundRobin.cc:54-65 | the do-while search finds the nearest available resource cyclically, and fails if and only if there is none |
| Balance.ChosenInTime | source/src/balance/StrategyRoundRobin.cc:35-74 | a resource that stays available is chosen within as many calls as it is ahead, plus one |
| Balance.BoundedFairness | source/src/balance/StrategyRoundRobin.cc:35-74 | it is chosen in any n consecutive calls, however the others change |
| Balance.CallsSweep | source/src/balance/StrategyRoundRobin.cc:35-74 | consecutive calls go once round the available resources |
| Balance.EachExactlyOnce | source/src/balance/StrategyRoundRobin.cc:35-74 | over a fixed availability, as many calls as available resources choose each exactly once |
| Balance.HidesMeansSharing | source/src/balance/StrategyByRange.cc:56-65 | the three tests find out exactly whether two ranges share an identifier |
| Balance.AcceptableKeepsDisjoint | source/src/balance/StrategyByRange.cc:49-66 | a range is accepted if and only if all ranges stay disjoint |
| Balance.RoutingIgnoresOrder | source/src/balance/StrategyByRange.cc:92-105 | the range of an identifier does not depend on the order of insertion |
| Strategies.ResourceList.Add | source/src/balance/ResourceList.cc:68-97 | refused exactly for null or a name that is there; names stay different |
| Strategies.ResourceList.CountAvailable | source/src/balance/ResourceList.cc:99-110 | the number of available resources |
| Strategies.ResourceList.FirstAvailable | source/src/balance/ResourceList.cc:112-121 | the loop from a position once round finds what the search finds |
| Strategies.StrategyRoundRobin.Apply | source/src/balance/StrategyRoundRobin.cc:35-74 | fails if and only if nothing is available, leaving the position; else the search's choice, and the position after it |
| Strategies.StrategyIndexed.Apply | source/src/balance/StrategyIndexed.cc:37-72 | the available resource nearest to the unsigned 64-bit identifier modulo n; fails if and only if nothing is available |
| Strategies.StrategyByRange.AddRange | source/src/balance/StrategyByRange.cc:40-73 | accepted if and only if the strategy is neither null nor itself and the range acceptable; ranges stay disjoint |
| Strategies.StrategyByRange.FindStrategy | source/src/balance/StrategyByRange.cc:92-123 | the strategy of the range that holds the identifier, or an exception |
| Keys.CompareDataIsZero | source/src/dbms/datatype/Abstract.cc:78-95 | two components compare equal if and only if they are of one type and both null, or equal in value with dates modulo 2^32; blocks with values never do |
| Keys.NullsComeFirst | source/src/dbms/datatype/Abstract.cc:78-95 | different types and blocks with values cannot be compared; a null comes before a value |
| Keys.OrderOfValues | source/src/dbms/datatype/Integer.cc:54-60 | floats and texts compare by their order; integers and dates by their difference if it fits 32 bits, and with the wrong sign if it is larger but below 2^32 |
| Keys.TextsAreOrdered | source/src/dbms/datatype/String.cc:79-85 | texts are ordered by their first difference |
| Keys.TextsAreAntisymmetric | source/src/dbms/datatype/String.cc:79-85 | comparing texts the other way round changes the sign |
| Keys.ListsAreOrdered | source/src/dbms/datatype/MultiString.cc:70-87 | lists of texts are ordered by size, then by the first texts that differ |
| Keys.CompareIsZero | source/src/dbms/datatype/Set.cc:100-126 | two keys compare equal if and only if every component has its like in the other |
| Keys.EqualIsSymmetric | source/src/dbms/datatype/Set.cc:100-126 | comparing equal does not depend on which key is asked |
| Keys.SameNames | source/src/persistence/PrimaryKey.cc:41-48 | inclusion of names and equal sizes make the names the same |
| Keys.MatchesMeans | source/src/persistence/PrimaryKey.cc:38-55 | keys match if and only if they have as many components, and each has one of its name and type in the other |
| Keys.MatchesIsReflexive | source/src/persistence/PrimaryKey.cc:38-55 | matches is reflexive |
| Keys.MatchesIsSymmetric | source/src/persistence/PrimaryKey.cc:38-55 | matches is symmetric, though it looks one way only |
| Keys.MatchesIsTransitive | source/src/persistence/PrimaryKey.cc:38-55 | matches is transitive |
| Keys.FoldedIgnoresOrder | source/src/persistence/PrimaryKey.cc:57-66 | a loop whose turns commute gives the same result for the same components in any order |
| Keys.MixingCommutes | source/src/persistence/PrimaryKey.cc:62 | turns of the exclusive-or loop commute |
| Keys.Hash | source/src/persistence/PrimaryKey.cc:57-66 | a 64-bit word |
| Keys.HashOfFew | source/src/persistence/PrimaryKey.cc:57-66 | the number of components and, shifted by one, the seconds of a date, the size of a block or the hash of the library |
| Keys.HashIgnoresIteration | source/src/persistence/PrimaryKey.cc:57-66 | the hash does not depend on the order of the iteration |
| Keys.EqualKeysHashEqually | source/src/persistence/PrimaryKey.cc:57-66 | keys with values that compare equal and whose dates are near hash equally, whatever the order of insertion and iteration |
| Bits.DoubledTellsApart | source/src/persistence/PrimaryKey.cc:62 | the shift of a 64-bit word forgets its highest digit and nothing else |
| Keys.RedatedHash | source/src/persistence/PrimaryKey.cc:57-66 | two keys of any size that differ in one date hash equally if and only if the dates are equal modulo 2^63 |
| Keys.DatesHashEquallyIffNear | source/include/coffee/dbms/datatype/Date.hpp:177 | two keys of any size that differ in one date by less than 2^63 seconds and compare equal hash equally if and only if the dates are less than 2^32 seconds apart |
| Keys.FarDatesCompareEqual | source/src/dbms/datatype/Date.cc:114-120 | the keys of the dates 0 and 2^32 compare equal and do not hash equally |
| DataSets.DataSet.Insert | source/src/dbms/datatype/Set.cc:44-58 | a name is defined once; map and creation order stay in agreement |
| DataSets.DataSet.Copy | source/src/dbms/datatype/Set.cc:37-42 | a copy has the same components in the same order |
| DataSets.DataSet.Assign | source/src/dbms/datatype/Set.cc:84-98 | the components of the other set in the same order |
| DataSets.DataSet.CompareTo | source/src/dbms/datatype/Set.cc:100-126 | the first difference in creation order, or an exception |
| DataSets.DataSet.Equals | source/src/dbms/datatype/Set.cc:128-141 | true if and only if every component has its like, or the sets are one object |
| DataSets.DataSet.MatchesKey | source/src/persistence/PrimaryKey.cc:38-55 | the loop over the map in any order decides matches |
| DataSets.DataSet.HashKey | source/src/persistence/PrimaryKey.cc:57-66 | the loop over the map in any order computes the one hash of the key |
| Backtrace.BacktraceWriter.Apply | source/src/logger/BacktraceWriter.cc:41-60 | the buffer holds the last lines recorded since the last error, and the output is what the whole history says |
| Backtrace.BacktraceWriter.Flush | source/src/logger/BacktraceWriter.cc:62-78 | the stored lines are written oldest first, and forgotten |
| Backtrace.BacktraceWriter.SetLowestLevel | source/include/coffee/logger/BacktraceWriter.hpp:58 | the level is accepted if it is not an error |
| Backtrace.BetweenErrors | source/src/logger/BacktraceWriter.cc:41-78 | from one error to the next the output grows by exactly the last N lines recorded in between, oldest first, and the error; before the next error it does not grow |
| Backtrace.FirstErrorShowsTheLast | source/src/logger/BacktraceWriter.cc:33-60 | before the first error nothing is written, and it shows the last N lines of the levels from warnings to debug |
| Backtrace.ErrorsAreClose | source/src/logger/BacktraceWriter.cc:41-78 | at most N lines stand between two errors of the output |

## Left out

- Wall clock, threads and drift correction of the time service, and `do_stop`: ticks are steps of a running service.
- Observers that call back into the time service: they would block on the mutex that is held.
- The width of `int` in `calculeMaxQuantum`, `countSolutions`, the commit counters and the hit and fault counters: they are unbounded here.
- `depthFirst`, `getSolution` and the accessors of the solver's tree: traversals that the theorems about the tree do not need.
- A search problem whose ranges do not stop or that has no bound on its depth: the solver does not terminate on it.
- `getRequirement` and the selection stored in a requirement, and `do_stop` of the application.
- Application.Application.Attach: a null service, and the initialize of a service that is attached to a running application, which is a call of the search on its own.
- Objects that a client changes through the pointer that the storage gave it are part of the model as a change of the cached value (`Modify` of CachedStore); two clients that hold one object at the same time are not.
- A loader, recorder or eraser whose query fails for another reason than a missing row, and auto-commit inside the storage.
- Staleness.TransparentIffNothingStale: asks for runs without erases, for which the rule of the least recently used key is exact.
- Lost connections, and a begin or commit that fails: the session theorems assume that they succeed.
- Connection.Connection.Lock: takes the connection to be available (`recover` is left out) and the lock to be free; the mutex is not recursive, so a nested lock by its holder would block.
- Connection.Connection.Unlock: ends the one lock of the session, so the locking counter goes from 1 to 0; a commit that fails there is logged by the program and not modelled.
- URLBuilder, percent-encoding, IPv6 hosts: the program does not encode or decode them.
- Runs of a URL parser that was used before: every caller builds one URL with a parser.
- The effect of a C library on numbers beyond `long`: strtol is taken to saturate, and atoi to keep its low 32 bits.
- Chunked transfer, header folding and white space after ':': the program does not implement them.
- `getType` of a header, the request of a response, and the setters of a response: they are not part of the text.
- HttpRoundTrip.MessageRoundTrip: asks for a first line without line breaks; headers with line breaks are part of the condition.
- Adding resources after round robin has started (it invalidates the stored iterator), and resources that change while a search runs.
- What a strategy behind a range chooses: only the routing is modelled.
- Keys.EqualKeysHashEqually: asks for components with values; null components keep stale values that the hash reads.
- Keys.CompareDataIsZero: floats are real numbers here, without NaN, infinities and rounding; the difference of two integers is taken to wrap around.
- Strings inside a MultiString that hold NULs, `Set::clear`, and components shared by copies of a set: components are values here.
- The size limit and renaming of the log file, and writers without an open stream.
- `asString`, `asXML`, logging, signals and singletons: plumbing.
