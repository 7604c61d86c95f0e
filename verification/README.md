# A verified model of the AgnosAI orchestrator core

This project models the concurrent and stateful core of the AgnosAI orchestrator in Dafny and
proves what it promises: how crews of dependent tasks are sorted and run in waves, how distributed
runs synchronise at barriers, how relays order messages over an unreliable network, how federated
clusters elect a coordinator, how topics are matched, how responses are redacted, how sources are
read under conditional compilation, and how allocators, learners and bounded stores keep their
books.  `dafny verify dfyconfig.toml` checks the whole project.

Code that updates state step by step is modelled as classes and methods with loops, each proved
equal to a specification function or relation; the theorems are then about that specification,
over every input, every run or every reachable state.  Beside them stand laws in
plain terms, which write out the literals (priorities, statuses, key prefixes, characters,
keywords, limits) that the specification functions only name.

| files | what they hold |
|---|---|
| `Graphs`, `Strings`, `Tasks`, `Histories`, `Wrappers` | shared vocabulary: dependency graphs and cycles, string order, tasks, log tails, options |
| `TaskSort`, `Scheduler` | the two Kahn sorts, loading a DAG, the ready set |
| `Waves`, `CrewRunner` | the wave loop as a function of outcomes and cancellation, and the runner that realises it |
| `FleetState`, `Relays`, `Federation` | barriers and node removal, message relay, coordinator election |
| `PubSub`, `OutputFilter`, `KeyTokens`, `Emails`, `Redaction`, `RedactionLaws`, `Preprocessor`, `ActiveLines`, `LineLaws` | the text engines |
| `Gpu`, `Optimizer`, `Replay`, `Versioning`, `ConversationMemory` | allocator, Q-learner, replay buffer, bounded histories |

Where the code falls short of its documentation, the code is modelled as it is, a lemma gives an
input that shows it, and another states exactly when the promise holds:

- the deadlock error of the DAG runner, documented as unreachable after a successful sort, is
  reachable (`CrewRunner.DeadlockIsReachable`, `Waves.DeadlockExactly`);
- `topological_sort_tasks` also reports a cycle for repeated task ids (`TaskSort.RepeatedIdIsRejected`,
  `TaskSort.TopologicalSortTasks`);
- a barrier can be reported reached while a participant is missing (`FleetState.PrematureBarrier`,
  `FleetState.AllReachedIsRightExactly`, `FleetState.NoDeadKeptExactly`);
- a barrier name works once: a second use does not wait (`FleetState.SecondUseDoesNotWait`,
  `FleetState.ReachedBarrierStaysOpen`);
- terminal runs can be revived (`FleetState.CompletedRunIsRevived`, `FleetState.TerminalIsLeftExactly`);
- the watermark drops messages that are not duplicates when they arrive out of order
  (`Relays.LateMessageIsLost`, `Relays.WatermarkIsSeenSetExactly`);
- patterns of more than 32 segments may fail to match (`PubSub.DeepTopicIsMissed`, `PubSub.MatcherExactly`);
- a key can survive its redaction in part, a bearer token whole (`KeyTokens.BearerTokenSurvives`,
  `KeyTokens.LongKeySurvives`, `KeyTokens.KeysGoWholeExactly`);
- chained addresses damage the text around them (`Redaction.ChainedAddressExample`,
  `Emails.MarksInPlaceExactly`);
- an unknown `#if` can hide live lines (`Preprocessor.UnknownCanBeBlind`,
  `Preprocessor.NeverBlindExactly`);
- reusing a live allocation id leaks memory (`Gpu.ReusedIdLeaks`, `Gpu.ExactUntilOverwritten`).

## Model

| member | source | states |
|---|---|---|
| `TaskSort.TopologicalSortTasks` | rust-old/src/orchestrator/scheduler.rs:237-284 | for every list: `Ok` exactly when ids are distinct and the graph restricted to listed ids is acyclic; the order is then a permutation of the ids with every listed dependency earlier, and at each position the (priority, id)-greatest task that could stand there; otherwise the cyclic error |
| `TaskSort.UrgentFirst` | rust-old/src/orchestrator/scheduler.rs:251-277 | in the order returned, no task stands where a more urgent one (critical, high, normal, low, background, written out) or an equally urgent one with a higher id could stand |
| `TaskSort.DependenciesFirst` | rust-old/src/orchestrator/scheduler.rs:242-249 | every dependency of a task that is in the list stands before it |
| `TaskSort.OutsideDependenciesAreIgnored` | rust-old/src/orchestrator/scheduler.rs:244-244 | a list of distinct ids whose dependencies all lie outside it is accepted |
| `TaskSort.TallyDependencies` | rust-old/src/orchestrator/scheduler.rs:238-249 | in-degrees and dependents lists are those of the exact list of dependency entries between listed ids, task by task in list order, entries outside the list ignored, repeated ones as often as they occur |
| `TaskSort.TallyTask` | rust-old/src/orchestrator/scheduler.rs:243-248 | one task adds exactly its own listed entries |
| `TaskSort.EdgeListExactly` | rust-old/src/orchestrator/scheduler.rs:242-249 | those entries are the edges of the restricted dependency graph |
| `TaskSort.ReleaseChildren` | rust-old/src/orchestrator/scheduler.rs:267-276 | no decrement goes below zero, each child loses its multiplicity, and the heap gains exactly those that reach zero |
| `TaskSort.PlaceNext` | rust-old/src/orchestrator/scheduler.rs:265-277 | a round extends a greedy order by one id and keeps the bookkeeping exact |
| `TaskSort.ChildrenAreUnplaced` | rust-old/src/orchestrator/scheduler.rs:268-272 | the reason no in-degree underflows: popping an id whose dependencies are all placed meets only children still waiting for it |
| `TaskSort.EmptyHeapDecides` | rust-old/src/orchestrator/scheduler.rs:279-283 | when the heap runs dry, the length test succeeds exactly for distinct ids and an acyclic graph: a short order really means a cycle or a repeated id |
| `TaskSort.GreedyIsUnique` | rust-old/src/orchestrator/scheduler.rs:251-283 | a graph has one greedy order only, whatever the heap does with the rest |
| `TaskSort.OutcomeIgnoresListOrder` | rust-old/src/orchestrator/scheduler.rs:251-283 | lists with the same tasks in another order give the same outcome |
| `TaskSort.RepeatsAreHarmless` | rust-old/src/orchestrator/scheduler.rs:242-249 | repeating or reordering dependency entries never changes the outcome |
| `TaskSort.RepeatedIdIsRejected` | rust-old/src/orchestrator/scheduler.rs:279-281 | two tasks under one id with no dependencies at all: reported as a cycle |
| `Graphs.StuckDecidesCycles` | rust-old/src/orchestrator/scheduler.rs:279-283 | an order that cannot be extended is complete exactly when the graph is acyclic |
| `Graphs.SelfWaitingSetHasCycle` | rust-old/src/orchestrator/scheduler.rs:279-283 | a nonempty set whose members all wait inside it contains a cycle: completeness of cycle detection |
| `Scheduler.KahnSort` | rust-old/src/orchestrator/scheduler.rs:183-230 | over string keys with a FIFO queue: `Ok` exactly when no listed key is on a cycle or waits for an unlisted key; the order places dependencies first and releases ready keys first in, first out |
| `Scheduler.BuildAdjacency` | rust-old/src/orchestrator/scheduler.rs:79-102 | forward and reverse adjacency are the edge list read as a relation, in both directions |
| `Scheduler.ReleaseSuccessors` | rust-old/src/orchestrator/scheduler.rs:211-222 | only the listed successors lose one; those at zero are collected |
| `Scheduler.TopologicalSort` | rust-old/src/orchestrator/scheduler.rs:156-178 | the same outcome starting from the DAG |
| `Scheduler.FifoIsUnique` | rust-old/src/orchestrator/scheduler.rs:183-230 | a graph has one FIFO order only |
| `Scheduler.OrderIsDetermined` | rust-old/src/orchestrator/scheduler.rs:156-178 | the outcome depends on the keys and edges alone, not on map iteration or edge order |
| `Scheduler.EmptyQueueDecides` | rust-old/src/orchestrator/scheduler.rs:225-229 | an empty queue means complete, or a cycle or unlisted source |
| `Scheduler.EdgesLeadForward` | rust-old/src/orchestrator/scheduler.rs:89-101 | every edge to a listed key leads from an earlier to a later place of the order |
| `Scheduler.RejectedExactly` | rust-old/src/orchestrator/scheduler.rs:183-230 | the sort fails exactly if an edge leads from an unlisted to a listed key or edges run in a circle, stated on the edge list |
| `Scheduler.FirstReadyFirst` | rust-old/src/orchestrator/scheduler.rs:196-223 | of two keys the one placed first was ready when the other was not, or both became ready together and its name comes first |
| `Strings.StrLeqExactly` | rust-old/src/orchestrator/scheduler.rs:203-213 | a string comes first exactly if it is a prefix or has the smaller character at the first difference |
| `Scheduler.Scheduler.LoadDag` | rust-old/src/orchestrator/scheduler.rs:79-121 | succeeds exactly for a closed acyclic DAG and then holds it; fails with the cyclic error and leaves every field unchanged |
| `Scheduler.Scheduler.ReadyTasks` | rust-old/src/orchestrator/scheduler.rs:126-151 | exactly the keys not completed whose dependencies all are, each once, highest priority first |
| `Scheduler.SortByPriority` | rust-old/src/orchestrator/scheduler.rs:148-150 | an ordered permutation |
| `Scheduler.CompletedKeysExactly` | rust-old/src/orchestrator/scheduler.rs:127-130 | with distinct ids a key counts as completed exactly when its task is |
| `Scheduler.ReadyUnlessDone` | rust-old/src/orchestrator/scheduler.rs:126-151 | after a successful load with distinct ids some task is ready for every completed set that misses one |
| `Scheduler.ReadyExactly` | rust-old/src/orchestrator/scheduler.rs:126-147 | with distinct ids a key is ready exactly if its task is not completed and the tasks at the start of all edges to it are |
| `Scheduler.UrgentFirst` | rust-old/src/core/task.rs:124-136 | the ready tasks come critical, high, normal, low, background |
| `CrewRunner.CrewRunner.RunDag` | rust-old/src/orchestrator/crew_runner.rs:441-568 | a rejected crew changes nothing; otherwise statuses, results, events and error are exactly those of the waves of a run that leaves through that exit, for every outcome, completion order and cancellation point, and every wave is launched in the order the sort gave |
| `CrewRunner.Partition` | rust-old/src/orchestrator/crew_runner.rs:471-476 | ready and not ready are the subsequences of the remaining list with and without satisfied dependencies |
| `CrewRunner.Layer` | rust-old/src/orchestrator/crew_runner.rs:470-483 | at each loop test the ready list is the wave in sorted order, and empty exactly when nothing can run |
| `CrewRunner.Launch` | rust-old/src/orchestrator/crew_runner.rs:485-518 | queues and announces each ready task once, in order |
| `CrewRunner.Join` | rust-old/src/orchestrator/crew_runner.rs:520-547 | whatever the order of completion, statuses, results, events, the completed set and the failure flag are those of the wave |
| `CrewRunner.RunWave` | rust-old/src/orchestrator/crew_runner.rs:485-549 | one wave appends exactly its own round, started in the order of the ready list |
| `CrewRunner.GoesOn` | rust-old/src/orchestrator/crew_runner.rs:552-565 | the loop goes on, or halts exactly when a failure left nothing runnable |
| `CrewRunner.MakeWave` | rust-old/src/orchestrator/crew_runner.rs:485-565 | a pass with ready tasks makes one more round and either keeps the loop going or ends the run halted |
| `CrewRunner.RunWaves` | rust-old/src/orchestrator/crew_runner.rs:466-568 | the loop ends through one of its four exits in the state the rounds determine, each round started in sorted order |
| `CrewRunner.SortedCrewIsAcyclic` | rust-old/src/orchestrator/crew_runner.rs:442-449 | a crew the sort accepts has no cycle even though the sort ignores outside dependencies and the run does not |
| `CrewRunner.LogExactly` | rust-old/src/orchestrator/crew_runner.rs:494-536 | one start event per started task, one completion event unless it panicked, none twice |
| `CrewRunner.ResultsExactly` | rust-old/src/orchestrator/crew_runner.rs:520-547 | exactly one result per started task that did not panic |
| `CrewRunner.OutcomesShow` | rust-old/src/orchestrator/crew_runner.rs:520-547 | a started task succeeded, failed or panicked exactly if its result, its completion event and its final status say completed, failed, or nothing and queued |
| `CrewRunner.UnstartedShowsNothing` | rust-old/src/orchestrator/crew_runner.rs:485-547 | a task not started keeps its status and leaves neither result nor event |
| `CrewRunner.LogIsOrdered` | rust-old/src/orchestrator/crew_runner.rs:471-550 | every start is preceded in the event stream by the successful completion of all dependencies |
| `CrewRunner.StartedExactly` | rust-old/src/orchestrator/crew_runner.rs:440-568 | at whichever uncancelled exit, the tasks started are exactly those with no failed, panicked or foreign ancestor |
| `CrewRunner.CleanRunIsComplete` | rust-old/src/orchestrator/crew_runner.rs:440-568 | if all dependencies are in the crew and nothing fails, the deadlock error is never met and there is one result per task |
| `CrewRunner.DeadlockIsReachable` | rust-old/src/orchestrator/crew_runner.rs:478-483 | a concrete crew and outcomes that reach the deadlock error after a successful sort |
| `Waves.StartsOnce` | rust-old/src/orchestrator/crew_runner.rs:466-550 | no task is started in two waves |
| `Waves.DependencyRanEarlier` | rust-old/src/orchestrator/crew_runner.rs:471-476 | each dependency of a started task succeeded in a strictly earlier wave |
| `Waves.WaveIsDepth` | rust-old/src/orchestrator/crew_runner.rs:466-550 | the wave number of a task is the length of its longest dependency chain: no wave is wasted |
| `Waves.NeverStartedExactly` | rust-old/src/orchestrator/crew_runner.rs:550-564 | when nothing more can run, the tasks never started are exactly the blocked ones |
| `Waves.ExitIsQuiescent` | rust-old/src/orchestrator/crew_runner.rs:550-564 | every exit but cancellation leaves nothing runnable |
| `Waves.CleanRunFinishes` | rust-old/src/orchestrator/crew_runner.rs:466-568 | without failures every task runs and the loop ends normally |
| `Waves.DeadlockExactly` | rust-old/src/orchestrator/crew_runner.rs:478-564 | the deadlock error is returned exactly when some task is blocked and the last wave, if any, was clean: the flag reset per wave makes the difference to a halt |
| `Waves.CancellationExactly` | rust-old/src/orchestrator/crew_runner.rs:466-470 | no wave is made at or after a test that finds the run cancelled; the run is stopped only there and with tasks left, finished exactly if all have started |
| `Waves.RunIsDetermined` | rust-old/src/orchestrator/crew_runner.rs:466-568 | outcomes and cancellation determine the number of waves and the exit |
| `PubSub.MatcherExactly` | rust-old/src/orchestrator/pubsub.rs:156-205 | for all patterns and topics: the matcher answers yes exactly when the segments align (`*` one, `#` any number) and the pattern has at most 32 segments, or 33 ending in `#` |
| `PubSub.DenotesStep` | rust-old/src/orchestrator/pubsub.rs:166-203 | the meaning read off the first segment |
| `PubSub.SplitExactly` | rust-old/src/orchestrator/pubsub.rs:137-146 | segments hold no dot and join back to the string |
| `PubSub.FillBuffer` | rust-old/src/orchestrator/pubsub.rs:142-147 | the filled part of the fixed buffer is the segment list |
| `PubSub.MatchesPattern` | rust-old/src/orchestrator/pubsub.rs:131-154 | the buffer path and the heap path give the same, exact answer |
| `PubSub.DeepTopicIsMissed` | rust-old/src/orchestrator/pubsub.rs:156-165 | 33 plain segments mean their own topic and do not match it |
| `PubSub.MatchesUpTo32` | rust-old/src/orchestrator/pubsub.rs:156-165 | up to 32 segments the matcher answers exactly the meaning, at 33 only behind a trailing `#`, beyond never |
| `PubSub.WildcardsExactly` | rust-old/src/orchestrator/pubsub.rs:166-203 | plain segments match only themselves, with `*` behind exactly one more segment, with `#` behind every continuation |
| `PubSub.HashBetween` | rust-old/src/orchestrator/pubsub.rs:174-187 | a `#` between plain segments stands for any number of segments, none included |
| `OutputFilter.RedactPrefix` | rust-old/src/server/output_filter.rs:280-292 | the rewriting loop terminates and equals one left-to-right pass |
| `OutputFilter.KeyPassCleans` | rust-old/src/server/output_filter.rs:280-292 | no occurrence of the prefix survives |
| `OutputFilter.KeyPassKeepsFree` | rust-old/src/server/output_filter.rs:280-292 | a text free of another listed pattern stays free of it: the mark and the joined ends create no new hit |
| `KeyTokens.TokenIsWholeExactly` | rust-old/src/server/output_filter.rs:281-291 | a key is removed up to the next whitespace exactly unless its prefix holds whitespace and text follows directly, or no whitespace follows and more than 20 characters do |
| `KeyTokens.KeysGoWholeExactly` | rust-old/src/server/output_filter.rs:281-291 | for every text the pass equals the one that removes all keys whole exactly when no key in it is of that kind |
| `KeyTokens.ListedKeysGoWholeExactly` | rust-old/src/server/output_filter.rs:280-292 | the same for each of the ten prefixes |
| `KeyTokens.BearerTokenSurvives` | rust-old/src/server/output_filter.rs:282-288 | after `Bearer ` whatever follows is left as if the word had not been there: the search stops at the blank of the prefix itself |
| `KeyTokens.LongKeySurvives` | rust-old/src/server/output_filter.rs:282-287 | of a key with no whitespace behind it everything past 20 characters is left |
| `OutputFilter.RedactSsn` | rust-old/src/server/output_filter.rs:303-336 | the index loop computes the pass |
| `OutputFilter.SsnPassCleans` | rust-old/src/server/output_filter.rs:303-336 | no NNN-NN-NNNN run survives, not even one put together from the pieces |
| `OutputFilter.SsnPassKeepsFree` | rust-old/src/server/output_filter.rs:303-336 | the pass creates no key prefix |
| `Emails.RedactEmails` | rust-old/src/server/output_filter.rs:339-384 | the loop with its backward walk, forward walk and pops computes the scan |
| `Emails.EmailPassCleans` | rust-old/src/server/output_filter.rs:339-384 | no address, as the redactor itself recognises one, survives |
| `Emails.EmailPassKeepsFree` | rust-old/src/server/output_filter.rs:339-384 | the pass creates no key prefix and no NNN-NN-NNNN run |
| `Emails.MarksInPlaceExactly` | rust-old/src/server/output_filter.rs:366-376 | each address is replaced where it stands and all other text kept exactly when no two addresses are chained |
| `Emails.AddressFreeUnchanged` | rust-old/src/server/output_filter.rs:339-384 | a text without addresses comes back as it was |
| `Redaction.RedactKeys` | rust-old/src/server/output_filter.rs:280-292 | the passes for all ten prefixes, in order |
| `Redaction.Redact` | rust-old/src/server/output_filter.rs:276-300 | the three stages in sequence |
| `Redaction.KeyPassesClean` | rust-old/src/server/output_filter.rs:280-292 | no listed prefix is left: later prefixes do not bring back earlier ones |
| `Redaction.RedactedIsClean` | rust-old/src/server/output_filter.rs:276-300 | for every text the output holds no listed prefix, no NNN-NN-NNNN run and no address |
| `Redaction.UnchangedExactlyIfClean` | rust-old/src/server/output_filter.rs:276-300 | a text is left alone exactly when it is clean |
| `Redaction.RedactIsIdempotent` | rust-old/src/server/output_filter.rs:276-300 | redacting twice is redacting once |
| `Redaction.ChainedAddressExample` | rust-old/src/server/output_filter.rs:369-373 | `a@b.c@d.e` becomes `[REDACT[REDACTED]`: the second address eats into the mark of the first |
| `RedactionLaws.RedactedInPlainTerms` | rust-old/src/server/output_filter.rs:276-384 | with all characters written out: no redacted text has anywhere digits and dashes NNN-NN-NNNN, one of the ten key prefixes, or a local-part character, `@` and a dot behind domain characters |
| `RedactionLaws.ChangedExactly` | rust-old/src/server/output_filter.rs:276-300 | a text is changed exactly if one of these stands somewhere in it |
| `RedactionLaws.NumberExactly` | rust-old/src/server/output_filter.rs:314-325 | what counts as a number, position by position |
| `RedactionLaws.KeyExactly` | rust-old/src/server/output_filter.rs:34-45 | what counts as a key, prefix by prefix |
| `RedactionLaws.LocalCharExactly` | rust-old/src/server/output_filter.rs:349-363 | what counts as a local-part character: ASCII letters and digits, dot, underscore, plus, minus |
| `RedactionLaws.AddressExactly` | rust-old/src/server/output_filter.rs:346-368 | what counts as an address, character by character |
| `RedactionLaws.StagesInOrder` | rust-old/src/server/output_filter.rs:276-300 | keys go first, then numbers, then addresses: doing an earlier stage beforehand changes nothing |
| `RedactionLaws.FirstPrefixFirst` | rust-old/src/server/output_filter.rs:280-281 | the prefixes are looked for in list order |
| `RedactionLaws.NumberIsMarked` | rust-old/src/server/output_filter.rs:314-328 | a number becomes `[REDACTED]` and the scan goes on behind it |
| `RedactionLaws.KeyEndsAtWhitespace` | rust-old/src/server/output_filter.rs:282-289 | a key is replaced by `[REDACTED]` up to the blank, tab, line feed, vertical tab, form feed or carriage return behind it |
| `RedactionLaws.ShortKeyIsMarked` | rust-old/src/server/output_filter.rs:282-289 | a key at the end of the text with at most 20 characters behind its prefix is replaced whole |
| `RedactionLaws.AddressIsMarked` | rust-old/src/server/output_filter.rs:346-376 | a single address is replaced where it stands, local part and domain, and everything else is kept |
| `ActiveLines.ActiveLines` | scripts/check-lib-symbols.py:185-244 | the line count is kept; every line is itself or blank as the state machine says |
| `ActiveLines.ScanLine` | scripts/check-lib-symbols.py:225-243 | string state after a line, with escapes, character literals and comments |
| `ActiveLines.Apply` | scripts/check-lib-symbols.py:201-220 | the directive branches step the machine |
| `LineLaws.OpenExactly` | scripts/check-lib-symbols.py:225-243 | a line leaves a string open exactly if some reading, and then every one, of it as code, character literals, string pieces of plain characters and backslash pairs, and a comment ends in an unclosed string piece |
| `LineLaws.EveryLineReads` | scripts/check-lib-symbols.py:225-243 | every line has such a reading, from inside and from outside a string |
| `LineLaws.DirectiveExactly` | scripts/check-lib-symbols.py:182-183 | a line is a directive with an argument exactly if it is blanks, `#`, one of the ten keywords written out, blanks, the word, and a word boundary |
| `LineLaws.ClassifiedExactly` | scripts/check-lib-symbols.py:196-224 | a line is read as a directive exactly if it starts outside strings and has that shape; anything else is data |
| `LineLaws.EscapedQuoteDoesNotHide` | scripts/check-lib-symbols.py:225-243 | behind a line with an escaped quote in a string, a conditional on an undefined name still drops its line |
| `Preprocessor.MachineOnBlock` | scripts/check-lib-symbols.py:196-224 | on nested conditional blocks the machine keeps exactly the lines whose enclosing chains all select their arm, at most one arm per chain, and leaves the stack as it found it |
| `Preprocessor.ThreeArmsExactly` | scripts/check-lib-symbols.py:201-218 | of `#ifdef`, `#ifndef` or `#ifplat`, `#elif` and `#else` exactly the first arm whose condition holds is kept, of `#if` all, none in a dead surrounding, for all names |
| `Preprocessor.MacrosExactly` | scripts/check-lib-symbols.py:219-222 | `#define` and `#undef` count exactly where lines are live and a name is given |
| `Preprocessor.BalancedFileMeaning` | scripts/check-lib-symbols.py:196-224 | every balanced list of lines has such a block structure, so the meaning covers every balanced file |
| `Preprocessor.EveryFileMeaning` | scripts/check-lib-symbols.py:196-224 | every file, balanced or not, is kept as the meaning of a block says: stray arms and closings do nothing, chains left open end with the file |
| `Preprocessor.DeadBlock` | scripts/check-lib-symbols.py:201-220 | inside a dead arm nothing is live and nothing is defined |
| `Preprocessor.UnknownIsCovered` | scripts/check-lib-symbols.py:190-193 | with no definition under an `#if`, the live lines include those of every way to resolve the unknown conditions |
| `Preprocessor.PossibleExactly` | scripts/check-lib-symbols.py:190-193 | the arms a resolution may give an `#if` chain are exactly those some values of its conditions select: with an `#else` one arm up to it, without one any or none |
| `Preprocessor.NeverBlindExactly` | scripts/check-lib-symbols.py:190-193 | the live lines include those of every resolution, whatever follows, exactly when they do so far and every resolution leaves the same definitions behind |
| `Preprocessor.DefinedEitherWayIsSafe` | scripts/check-lib-symbols.py:190-193 | a name defined both under `#if` and under its `#else` meets that condition although it stands under an `#if`: nothing is ever missed |
| `Preprocessor.UnknownCanBeBlind` | scripts/check-lib-symbols.py:190-193 | a definition under an `#if` leaves resolutions apart, so a later `#ifndef` hides a line that one of them keeps: the documented "never blind" fails |
| `Preprocessor.DisagreementShows` | scripts/check-lib-symbols.py:190-193 | any name on which the checker disagrees with a resolution the conditions can produce makes such a line |
| `FleetState.CrewStateManager.EvictIfNeeded` | rust-old/src/fleet/state.rs:95-113 | at capacity exactly the terminal runs go, with their barriers |
| `FleetState.CrewStateManager.CreateRun` | rust-old/src/fleet/state.rs:116-151 | a new run after eviction, progress for exactly its nodes |
| `FleetState.CrewStateManager.ReportProgress` | rust-old/src/fleet/state.rs:159-183 | applied exactly for a known run and node |
| `FleetState.CrewStateManager.ReachBarrier` | rust-old/src/fleet/state.rs:186-216 | new state and answer, unknown run and node included |
| `FleetState.CrewStateManager.ForceBarrier` | rust-old/src/fleet/state.rs:223-234 | forgets the barrier and resumes the run |
| `FleetState.CrewStateManager.RemoveNode` | rust-old/src/fleet/state.rs:240-266 | drops the node, completes the satisfied barriers one by one, resumes the run if it waited at one |
| `FleetState.CrewStateManager.AddCheckpoint` | rust-old/src/fleet/state.rs:269-297 | records the name, starts an initializing run |
| `FleetState.CrewStateManager.FinishRun` | rust-old/src/fleet/state.rs:300-327 | complete, fail and cancel |
| `FleetState.AlwaysConsistent` | rust-old/src/fleet/state.rs:95-327 | no lost wakeup: in every reachable state a run waiting at a barrier has an entry for it and a participant still to arrive, and progress keys equal participants |
| `FleetState.PhaseAfterReach` | rust-old/src/fleet/state.rs:199-215 | after an arrival the run waits at that barrier exactly if the answer is to wait, and runs exactly if all are reached |
| `FleetState.WaitsExactly` | rust-old/src/fleet/state.rs:95-327 | in every reachable state a run waits at a barrier exactly if a participant arrived there while someone was missing and no arrival, force, finish or satisfying removal came since |
| `FleetState.WaitingIsReachable` | rust-old/src/fleet/state.rs:199-215 | a waiting state is reached by creating a run of two nodes and one arrival |
| `FleetState.RemoveExactly` | rust-old/src/fleet/state.rs:240-266 | who still takes part, which barriers are left with whom, and whether the run goes on |
| `FleetState.ForceExactly` | rust-old/src/fleet/state.rs:223-234 | nobody has arrived at a forced barrier any more and the run goes on |
| `FleetState.ReportExactly` | rust-old/src/fleet/state.rs:159-183 | the reported count and task are stored for that node, its total kept, an initializing run started |
| `FleetState.CheckpointExactly` | rust-old/src/fleet/state.rs:269-297 | checkpoint names add up in order |
| `FleetState.FinishExactly` | rust-old/src/fleet/state.rs:300-327 | a finished run has the phase it was finished with |
| `FleetState.CreateExactly` | rust-old/src/fleet/state.rs:116-151 | a fresh run has its nodes with nothing done, and nobody at any barrier |
| `FleetState.EvictionExactly` | rust-old/src/fleet/state.rs:95-113 | with 1000 runs or more a creation drops exactly the completed, failed and cancelled ones |
| `FleetState.OthersAreKept` | rust-old/src/fleet/state.rs:95-327 | no operation changes a run it does not name, unless it evicts it |
| `FleetState.ApplyKeepsConsistent` | rust-old/src/fleet/state.rs:95-327 | the same, operation by operation |
| `FleetState.ReachResultExactly` | rust-old/src/fleet/state.rs:205-215 | the length test compares departed arrivals with missing participants, and the count reported is their difference |
| `FleetState.AllReachedIsRightExactly` | rust-old/src/fleet/state.rs:205-209 | the answer "all reached" is right exactly when nobody is missing or fewer arrived nodes have departed than are missing |
| `FleetState.LengthTestWithoutDead` | rust-old/src/fleet/state.rs:205-215 | while arrived nodes are participants, length test and subset test agree and the count is exact |
| `FleetState.NoDeadKeptExactly` | rust-old/src/fleet/state.rs:95-327 | every operation keeps arrived nodes participants, except exactly the removal of one arrived at a barrier another participant has yet to reach |
| `FleetState.CarefulRunsAnswerRightly` | rust-old/src/fleet/state.rs:186-266 | in every run without such a removal the barrier answer is right and counts the missing |
| `FleetState.PrematureBarrier` | rust-old/src/fleet/state.rs:205-209 | a run with one in which a barrier is reported reached while a participant is missing |
| `FleetState.OpenIsLeftExactly` | rust-old/src/fleet/state.rs:199-266 | a barrier reached by all stays open through an operation exactly if that does not force it, remove a node of the run or evict the run |
| `FleetState.ReachedBarrierStaysOpen` | rust-old/src/fleet/state.rs:199-266 | over any operations it stays open throughout exactly if none of them closes it, and until then every arrival is told "all reached" |
| `FleetState.SecondUseDoesNotWait` | rust-old/src/fleet/state.rs:199-209 | a run from the empty manager whose first arrival waits on the first use of a barrier and not on the second |
| `FleetState.TerminalIsLeftExactly` | rust-old/src/fleet/state.rs:209-232 | a terminal run becomes live again exactly through `reach_barrier` by a participant or `force_barrier`, and disappears exactly by eviction |
| `FleetState.CompletedRunIsRevived` | rust-old/src/fleet/state.rs:223-234 | create, complete, force: the completed run is running |
| `Relays.Relay.Send` | rust-old/src/fleet/relay.rs:109-140 | numbers messages consecutively |
| `Relays.Relay.Receive` | rust-old/src/fleet/relay.rs:155-210 | new watermark and counters, and the message exactly if it is for this node and above the watermark |
| `Relays.SeenIsHighest` | rust-old/src/fleet/relay.rs:173-195 | a watermark is the highest number arrived from that sender, zero if none |
| `Relays.AcceptedExactly` | rust-old/src/fleet/relay.rs:174-195 | an arrival is accepted exactly when its number exceeds all earlier ones from its sender |
| `Relays.AcceptedAscends` | rust-old/src/fleet/relay.rs:155-210 | what is accepted from a sender ascends strictly, so nothing twice |
| `Relays.AlwaysSound` | rust-old/src/fleet/relay.rs:109-210 | in every run of a network of relays logs are gap-free and every relay's fields are determined by what it sent and received |
| `Relays.DeliveredInOrder` | rust-old/src/fleet/relay.rs:109-210 | over a network that drops, repeats and reorders, what a node accepts from another is an in-order, repeat-free subsequence of its messages, all addressed to it or broadcast |
| `Relays.BroadcastIsAccepted` | rust-old/src/fleet/relay.rs:157-199 | in every network run a broadcast delivered to another node above all earlier numbers of its sender is accepted and counted |
| `Relays.AcceptedIsHandedOn` | rust-old/src/fleet/relay.rs:157-210 | a message to the node or to all, numbered above everything its sender addressed to that node before, is handed on |
| `Relays.ForeignIsPassedOver` | rust-old/src/fleet/relay.rs:157-164 | a message to a third node, or one's own, leaves no trace |
| `Relays.CountersAreExact` | rust-old/src/fleet/relay.rs:135-199 | sent, received and dropped counters count exactly that |
| `Relays.WatermarkIsSeenSetExactly` | rust-old/src/fleet/relay.rs:173-195 | the watermark accepts what a full seen-set would exactly when first arrivals of each sender come in ascending order, numbered from one |
| `Relays.LateMessageIsLost` | rust-old/src/fleet/relay.rs:174-184 | message 1 arriving after message 2 is dropped, though a seen-set would accept it |
| `Federation.FederationManager.ReceiveHeartbeat` | rust-old/src/fleet/federation.rs:128-150 | a peer is online as of now; its role is kept, a new one follows |
| `Federation.FederationManager.CheckAll` | rust-old/src/fleet/federation.rs:153-167 | every peer gets the status its silence calls for |
| `Federation.FederationManager.BeginElection` | rust-old/src/fleet/federation.rs:172-185 | next term, candidate, no coordinator |
| `Federation.FederationManager.DeclareCoordinator` | rust-old/src/fleet/federation.rs:190-224 | accepted exactly if not of an older term; then one coordinator is recorded and marked |
| `Federation.FederationManager.ElectByLowestId` | rust-old/src/fleet/federation.rs:230-250 | elects the least id among itself and its online peers |
| `Federation.FederationManager.EvictOffline` | rust-old/src/fleet/federation.rs:291-309 | removes exactly the offline peers silent beyond the ttl and returns them |
| `Federation.AlwaysSound` | rust-old/src/fleet/federation.rs:128-309 | in every run with a monotone clock: role is coordinator iff the recorded coordinator is self, at most one peer is marked coordinator and, while a coordinator is recorded, no other, suspect and offline peers have been silent longer than their timeouts |
| `Federation.LivenessIsExact` | rust-old/src/fleet/federation.rs:128-167 | after a liveness check every peer's status is exactly what the time since the last heartbeat of the whole run calls for, whatever happened before |
| `Federation.EntriesFit` | rust-old/src/fleet/federation.rs:128-309 | at any point of a run a peer is known exactly if it was heard and not evicted since, and its status is the one the last check since its last heartbeat called for |
| `Federation.OnlineExactly` | rust-old/src/fleet/federation.rs:128-309 | a peer is held online exactly if its last heartbeat has outlived every check since, evictions included |
| `Federation.TermsNeverDecrease` | rust-old/src/fleet/federation.rs:172-224 | along every run |
| `Federation.EvictedWereSilent` | rust-old/src/fleet/federation.rs:291-309 | no heartbeat of an evicted peer in the whole run is within the offline timeout or the ttl |
| `Federation.ElectsItselfExactly` | rust-old/src/fleet/federation.rs:230-250 | an election makes a cluster coordinator exactly when it is the least it sees |
| `Federation.ElectionsAgree` | rust-old/src/fleet/federation.rs:230-250 | if the managers are a set and each sees that set, all name its least member and it alone is coordinator |
| `Federation.SeesExactly` | rust-old/src/fleet/federation.rs:234-245 | the candidates of an election after any run are the manager itself and exactly the peers it hears |
| `Federation.RunsElectOne` | rust-old/src/fleet/federation.rs:128-250 | over runs: if in the run of each member the other members and nobody else are heard, all elections name the least member and it alone becomes coordinator |
| `Federation.SplitViewsElectEach` | rust-old/src/fleet/federation.rs:230-250 | isolated managers each elect themselves |
| `Federation.SecondDeclarationWins` | rust-old/src/fleet/federation.rs:191-222 | a second declaration in the same term replaces the first entirely |
| `Federation.DeclarationIsAdopted` | rust-old/src/fleet/federation.rs:205-222 | after acceptance the declared term and coordinator stand, exactly that peer is marked, and nothing else about any peer changes |
| `Federation.OlderTermsAreRefused` | rust-old/src/fleet/federation.rs:191-198 | after an accepted declaration every declaration of a lower term changes nothing, at any later point of the run |
| `Federation.ElectionStarts` | rust-old/src/fleet/federation.rs:172-185 | a new term has a candidate and no coordinator |
| `Federation.HeartbeatExactly` | rust-old/src/fleet/federation.rs:128-150 | what a heartbeat sets for its sender, and that nothing else changes |
| `Federation.LivenessInPlainTerms` | rust-old/src/fleet/federation.rs:153-167 | offline exactly beyond the offline timeout, suspect exactly between the two, online exactly within both |
| `Federation.EvictionExactly` | rust-old/src/fleet/federation.rs:291-309 | removed exactly if offline and silent for longer than the ttl |
| `Federation.ElectedIsLowest` | rust-old/src/fleet/federation.rs:230-250 | the elected id is, against every candidate, a prefix or smaller at the first difference |
| `Replay.ReplayBuffer.Push` | rust-old/src/learning/replay.rs:57-74 | what is kept and what is discarded, at and below capacity |
| `Replay.ReplayBuffer.UpdatePriority` | rust-old/src/learning/replay.rs:146-150 | changes one priority, or nothing out of range |
| `Replay.IndexOfLowest` | rust-old/src/learning/replay.rs:60-64 | the first of the lowest priorities |
| `Replay.SwapRemoveContents` | rust-old/src/learning/replay.rs:66-69 | removal by swapping loses exactly the removed element |
| `Replay.NothingIsLost` | rust-old/src/learning/replay.rs:57-74 | after any pushes, kept and discarded together are what was pushed, and as many are kept as fit |
| `Replay.HighestAreKept` | rust-old/src/learning/replay.rs:57-74 | without priority updates every discarded priority is at most every kept one |
| `Replay.UpdateKeepsHighestExactly` | rust-old/src/learning/replay.rs:146-150 | a priority update keeps that exactly when the new priority is not below a discarded one |
| `Replay.Sample` | rust-old/src/learning/replay.rs:79-131 | for all draws: exactly min(batch, length) distinct experiences, every round picking the index whose weight interval holds its draw, or the first left when no weight remains |
| `Replay.Choose` | rust-old/src/learning/replay.rs:113-125 | the walk stops at the index whose cumulative unselected weight interval contains the scaled draw |
| `Replay.Fill` | rust-old/src/learning/replay.rs:99-111 | the fallback takes those left, in order |
| `Replay.DrawIsDetermined` | rust-old/src/learning/replay.rs:113-125 | the intervals are disjoint |
| `Replay.SampleIsDetermined` | rust-old/src/learning/replay.rs:79-131 | the draws determine the sample |
| `Replay.PickedExactly` | rust-old/src/learning/replay.rs:90-125 | a draw picks the index not taken at which the absolute priorities left, summed from the front, first reach draw times total |
| `Replay.PickedFirstExactly` | rust-old/src/learning/replay.rs:99-125 | with no priority left or a draw of zero the first one not taken is picked |
| `Optimizer.QLearner.Intern` | rust-old/src/learning/optimizer.rs:23-34 | an old string keeps its id, a new one gets the next |
| `Optimizer.QLearner.GetValue` | rust-old/src/learning/optimizer.rs:64-71 | zero for pairs never learned |
| `Optimizer.QLearner.Update` | rust-old/src/learning/optimizer.rs:74-95 | one learning step on the interned table |
| `Optimizer.QLearner.BestAction` | rust-old/src/learning/optimizer.rs:100-109 | none exactly for no actions; otherwise the last of the best |
| `Optimizer.InterningIsInvisible` | rust-old/src/learning/optimizer.rs:23-95 | after every run ids are unique per string and the interned table reads as a plain table keyed by string pairs |
| `Optimizer.UpdateExactly` | rust-old/src/learning/optimizer.rs:82-94 | a value q becomes q + rate (reward + discount m - q), m the highest next value and at least zero, and no other value changes |
| `Optimizer.ValuesStayInRange` | rust-old/src/learning/optimizer.rs:74-95 | rate in [0, 1], discount in [0, 1), rewards in [-r, r]: every value of every run is in [-r, r / (1 - discount)] |
| `Optimizer.LookupsStayInRange` | rust-old/src/learning/optimizer.rs:64-95 | the same for lookups in the interned table |
| `Optimizer.RepeatedUpdatesConverge` | rust-old/src/learning/optimizer.rs:82-88 | repeating n times a sample whose target does not depend on the pair it updates leaves exactly (1 - rate)^n of the distance to the target |
| `Optimizer.RepeatedChangesShrink` | rust-old/src/learning/optimizer.rs:82-88 | for every sample, also one that feeds on its own value, the n-th change is at most (1 - rate (1 - discount))^n of the first |
| `Optimizer.RepeatedUpdatesApproachLimit` | rust-old/src/learning/optimizer.rs:82-88 | for every sample the distance to its limit shrinks by the same factor each time |
| `Optimizer.LimitIsLimit` | rust-old/src/learning/optimizer.rs:82-88 | the limit is explicit: the target over the other pairs, or reward / (1 - discount) where the value outgrows them |
| `Gpu.ComputeScheduler.AddDevice` | rust-old/src/fleet/gpu.rs:87-99 | appends an unused device |
| `Gpu.ComputeScheduler.AllocateMemory` | rust-old/src/fleet/gpu.rs:170-198 | fails exactly when no wanted device has room; otherwise places on the last of those with most free memory |
| `Gpu.ComputeScheduler.ReleaseMemory` | rust-old/src/fleet/gpu.rs:202-214 | true exactly for a live id, whose memory goes back |
| `Gpu.ComputeScheduler.AvailableMemory` | rust-old/src/fleet/gpu.rs:148-154 | the free memory of the wanted devices |
| `Gpu.FindBest` | rust-old/src/fleet/gpu.rs:177-184 | none exactly if none fits; otherwise the last device with the most free memory |
| `Gpu.AlwaysSound` | rust-old/src/fleet/gpu.rs:87-214 | in every run each device has used at most total, its mirrored field equals total minus used, and used covers the live allocations on it |
| `Gpu.ReleaseChanges` | rust-old/src/fleet/gpu.rs:202-214 | a release never clips and takes off exactly its memory |
| `Gpu.ExactKeptExactly` | rust-old/src/fleet/gpu.rs:170-214 | from a pool whose used equals its live memory, an operation breaks the equality exactly if it is a successful allocation under a live id that holds memory |
| `Gpu.LeakIsPermanent` | rust-old/src/fleet/gpu.rs:170-214 | memory used but held by no live allocation is never given back |
| `Gpu.ExactUntilOverwritten` | rust-old/src/fleet/gpu.rs:87-214 | along every run used equals live memory after n operations exactly if none of them reused a live id that holds memory |
| `Gpu.ReusedIdLeaks` | rust-old/src/fleet/gpu.rs:170-214 | add, allocate, allocate under the same id, release: one megabyte stays used |
| `Gpu.AllocateThenRelease` | rust-old/src/fleet/gpu.rs:170-214 | restores the state exactly when the id was free |
| `Gpu.AllocateExactly` | rust-old/src/fleet/gpu.rs:170-198 | an allocation changes nothing exactly if no device of the wanted kind has that much unused; otherwise it takes it from one with the most unused, the last of several, and changes nothing else |
| `Gpu.ReleaseExactly` | rust-old/src/fleet/gpu.rs:202-214 | a release gives back exactly what the id holds and forgets the id |
| `Gpu.FreeIsConserved` | rust-old/src/fleet/gpu.rs:148-214 | for every accelerator filter, an allocation takes its size from the free total of exactly the kinds its device belongs to, and a release gives it back |
| `Versioning.VersionStore.SaveVersion` | rust-old/src/definitions/versioning.rs:41-57 | drains a full history, appends the next number |
| `Versioning.VersionStore.Get` | rust-old/src/definitions/versioning.rs:61-66 | the first entry with that number |
| `Versioning.VersionStore.Latest` | rust-old/src/definitions/versioning.rs:70-72 | the last entry |
| `Versioning.VersionStore.RollbackTo` | rust-old/src/definitions/versioning.rs:84-99 | nothing for a missing version; otherwise saves its definition again |
| `Versioning.LogIsNumbered` | rust-old/src/definitions/versioning.rs:49-55 | versions are numbered from one without gaps |
| `Versioning.StoreRefinesLog` | rust-old/src/definitions/versioning.rs:41-99 | after every run each history is the last 500 entries of the agent's unbounded save and rollback log |
| `Versioning.GetExactly` | rust-old/src/definitions/versioning.rs:61-66 | a version is found exactly while among the last 500, and reads as logged |
| `Versioning.RollbackReinstates` | rust-old/src/definitions/versioning.rs:84-99 | the definition is the latest again under the next number, even when its save evicts the version rolled back to |
| `Versioning.FiveHundredAreKept` | rust-old/src/definitions/versioning.rs:22-66 | a history is its log or the last 500 entries of it, and versions are found exactly among those |
| `Versioning.SavesAreLogged` | rust-old/src/definitions/versioning.rs:41-57 | a save is logged under the next number for its own agent only |
| `ConversationMemory.ConversationBuffer.Add` | rust-old/src/orchestrator/memory.rs:84-87 | append, then trim |
| `ConversationMemory.ConversationBuffer.Trim` | rust-old/src/orchestrator/memory.rs:119-156 | the strategy applied to the messages |
| `ConversationMemory.ConversationBuffer.Reset` | rust-old/src/orchestrator/memory.rs:114-116 | empties the buffer |
| `ConversationMemory.BufferRefinesLog` | rust-old/src/orchestrator/memory.rs:84-156 | after every run the buffer is all messages since the last clear, or the last n, or the first and the last n - 1 (n = 1: the last) |
| `ConversationMemory.OverflowExactly` | rust-old/src/orchestrator/memory.rs:119-156 | beyond the limit the window is the last n messages, head and tail the first and the last n - 1, the last alone for n = 1 |
| `ConversationMemory.EverythingIsKept` | rust-old/src/orchestrator/memory.rs:119-125 | within the limit, without one, or with the full strategy nothing is dropped |
| `ConversationMemory.SinceClearExactly` | rust-old/src/orchestrator/memory.rs:84-116 | a push adds its message, a clear leaves none |

## Left out

- CrewRunner.CrewRunner.RunDag: the outcome of executing a task (success, failure, panic) and the cancellation flag at each loop test are parameters; agent choice, LLM calls, caching and costs are not modelled; statuses are kept by task id instead of by list index.
- TaskSort.TopologicalSortTasks: the binary heap is a set from which the maximum is taken.
- Redaction.Redact: text is a sequence of characters as in ASCII; bytes of longer UTF-8 sequences are not modelled.
- ActiveLines.ActiveLines: the lines are given, not read from a file, and whitespace and word characters are those of ASCII.
- Federation.FederationManager.ElectByLowestId: the clock is a parameter; wall-clock timestamps, endpoints used for discovery and the election timeout are not modelled.
- Relays.Relay.Receive: recovery of a poisoned mutex, the local broadcast channel and the gap warning are not modelled.
- Replay.Sample: random numbers are a list of draws in [0, 1); priorities are reals, so neither NaN nor rounding is modelled.
- Optimizer.QLearner.Update: values are reals; exhaustion of the id space is not modelled.
- Gpu.ComputeScheduler.AllocateMemory: sizes are unbounded naturals.
- Versioning.VersionStore.SaveVersion: version numbers do not wrap around; creation times are left out.
- FleetState.CrewStateManager.CreateRun: run ids are handed in and fresh; timestamps and the states stored in checkpoints are left out.
- `Scheduler::enqueue` and `dequeue`, the publish/subscribe channels, the detection report of the output filter, device views and other accessors: easy members.
- HTTP server, authentication, sandboxes, prompt building, audit chain, model routing, placement scores, serialization, packaging and file loading: I/O or thin wrappers over libraries.
- The plan cache: its key omits dependencies and ids, so no agreement with recomputation holds.
