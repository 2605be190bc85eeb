# Verified model of the claw-pen orchestrator

A Dafny 4.11 model of the parts of the orchestrator that carry real algorithms or
protocols, with proofs of what they are for:

- the workflow registry, its cycle detector, the dependency-level scheduler and
  the executor (`DependencyGraph`, `Workflow`, `Levels`, `Executor`, `WorkflowRuns`, `Strategies`);
- the incremental reader of provider event streams, a subset of section 9.2.6 of
  the WHATWG HTML standard (`TextLines`, `EventStream`);
- the code index: line chunker, two-source ranking, TF-IDF, cosine similarity
  (`Chunker`, `Ranking`, `TfIdf`, `Similarity`);
- the shared task queue and the matching of RPC responses (`TaskQueue`, `Rpc`);
- the agent list: ports, the position index, the reconciler (`Agents`).

`dafny verify dfyconfig.toml` checks everything.

## How the code is modelled

Code that updates state in place is a class or a method with loops; a hash map's
iteration order is a nondeterministic choice, so results hold for every order.
A method is proved against a specification function or predicate, and lemmas then
say what that specification is worth.

The tasks of one parallel level are moved by a nondeterministic scheduler, each in
two moves (run the step, record its result), and before every move the rest of the
process may rewrite all other executions in the shared registry and register
workflows. Agents and task preparation are an `Oracle` with arbitrary outcomes;
an attempt may depend on the prepared task. `prepare_task`, which always fails at present
(`UnpreparedNeverCompletes`), and the retry loop, which drops the prepared task, are
instances of it. RPC is a state machine whose steps are what one task
does under the lock of the pending table.

Outcomes that are not as one might expect from the names or comments:

- The early `break` of the level loop does happen for cyclic or dangling
  workflows; `CompleteIffAcyclic` says it happens exactly for cyclic ones among
  those with distinct ids and no dangling dependency, so never after registration.
- `WorkflowExecutionRequest.strategy` is documented as an override
  (workflow.rs:237-238) but the executor never reads it.
- Sequential runs ignore `depends_on`. `SequentialFindsDependenciesIff` gives the exact
  condition under which steps still find their dependencies' outputs, and
  `SequentialMissesDependency` an accepted workflow that breaks it.
- The `api.rs:53` comment speaks of ten ports, but the fallback loop makes it 110; a
  create beyond those repeats a port (`PortsRunOut`).
- The agent index is not rebuilt by a delete, and the stale entry can be noticed
  (`StaleIndexNoticed`), though only for queries that two agents match.
- Concatenated chunks give back a file exactly under the condition of
  `ChunksGiveBackFileIff`; CR LF files and files without a final newline do not come back.
- The RPC table is cleaned reliably only for distinct request ids
  (`AbsentIffDistinct` shows both directions).

## Model

| member | source | states |
|---|---|---|
| DependencyGraph.CycleDetector.HasCycleUtil | orchestrator/src/workflow.rs:372-399 | true only if the graph has a cycle; otherwise the node is finished, the recursion stack is restored, finished nodes stay closed under successors and in an order that admits no cycle; terminates by unvisited nodes |
| DependencyGraph.DetectCycle | orchestrator/src/workflow.rs:359-369 | sound and complete for every iteration order of the keys: true exactly if some node has a non-empty path to itself |
| DependencyGraph.StuckIsCyclic | orchestrator/src/workflow.rs:351-369 | a non-empty set of nodes that no node can leave contains a cycle (pigeonhole on walks) |
| DependencyGraph.TopologicalIsAcyclic | orchestrator/src/workflow.rs:382-398 | an order with all successors earlier rules out every cycle |
| Workflows.HasCircularDependencies | orchestrator/src/workflow.rs:352-370 | decides cyclicity of the graph built from the steps, the last of equal ids winning |
| Workflows.GraphLookup | orchestrator/src/workflow.rs:354-356 | the successors of an id are the dependencies of the last step that bears it |
| Workflows.ValidateWorkflow | orchestrator/src/workflow.rs:324-349 | accepts exactly the workflows with distinct ids, existing dependencies and no cycle; an error names the first step, check and missing dependency that fails |
| Workflows.WorkflowRegistry.RegisterWorkflow | orchestrator/src/workflow.rs:256-266 | stores exactly new, well-formed workflows and keeps all stored ones well-formed; otherwise changes nothing |
| Workflows.WorkflowRegistry.StartExecution | orchestrator/src/workflow.rs:279-306 | a pending, empty execution for a known, enabled workflow; else the right error and no change |
| Levels.GetDependencyLevels | orchestrator/src/executor.rs:347-383 | for any list of steps terminates with the levels of ready steps in list order, stopped only when nothing is ready or enough is placed |
| Levels.LevelMembers | orchestrator/src/executor.rs:354-373 | for any list of steps a level names exactly the steps not placed before whose dependencies all are, and after a stop short of all steps there is none |
| Levels.LevelInListOrder | orchestrator/src/executor.rs:356-367 | within a level the steps stand in the order of the workflow's list |
| Levels.LevelingUnique | orchestrator/src/executor.rs:347-383 | these levels are determined by that property |
| Levels.CompleteIffAcyclic | orchestrator/src/executor.rs:370-373 | the level loop reaches every step exactly if the cycle detector finds no cycle, so the break never drops a step of an accepted workflow |
| Levels.ScheduledOnce | orchestrator/src/executor.rs:354-379 | no step appears twice in the levels |
| Levels.DependencyEarlier | orchestrator/src/executor.rs:359-367 | every dependency sits in a strictly earlier level |
| Levels.LevelIsLongestChain | orchestrator/src/executor.rs:347-383 | a step is in level k exactly if its longest dependency chain has k edges |
| Levels.NoLayeringIsEarlier | orchestrator/src/executor.rs:347-383 | no dependency-respecting layering puts a step earlier |
| Levels.FewestLevels | orchestrator/src/executor.rs:347-383 | the number of levels is minimal |
| Executor.RetryOutcome | orchestrator/src/executor.rs:237-285 | a step completes exactly if an attempt within max(1, max_attempts) succeeds, with the first success's output; else it fails with the last cause |
| Executor.FirstErrorIsFirst | orchestrator/src/executor.rs:194-203 | the error of a level is that of its first unsuccessful task in level order |
| Executor.ExecuteStep | orchestrator/src/executor.rs:221-286 | gives up naming the missing agent exactly if none resolves, and the failed preparation exactly if one does but preparation on the outputs handed in fails; else yields the result that the agent's answers to the prepared task earn |
| Executor.ResultIsDetermined | orchestrator/src/executor.rs:237-285 | the agent's answers leave one result: the first success within the budget, or the last failure |
| Executor.ExecuteLevel | orchestrator/src/executor.rs:164-192 | every interleaving of a level's tasks, with other executions acting in between, records the same results; only current_step may differ |
| Executor.JoinLevel | orchestrator/src/executor.rs:194-203 | reports the first unsuccessful task in level order, else collects all outputs |
| Executor.ExecuteParallel | orchestrator/src/executor.rs:152-207 | the run is level by level over the dependency levels, each level on the outputs of those before it |
| Executor.ExecuteSequential | orchestrator/src/executor.rs:112-149 | the run is step by step in list order, stopping at the first unsuccessful step |
| WorkflowRuns.ParallelRun | orchestrator/src/executor.rs:152-207 | no error means every step of the workflow completed; an error means the run stopped inside one level with all before it completed, exactly the finished steps of that level recorded, and the error of its first unsuccessful one; every result is what its step does on its level's snapshot |
| WorkflowRuns.ParallelCompletesIff | orchestrator/src/executor.rs:161-207 | told from the oracle alone, before the run: it completes exactly if every step succeeds on what the levels before its own would hand on |
| WorkflowRuns.WhereRunStops | orchestrator/src/executor.rs:161-204 | a run gets through the levels before some m, all of them exactly without an error; no level after m has results, and in every started level each step finds the output of every dependency in the shared snapshot |
| WorkflowRuns.StoppedByFirstInList | orchestrator/src/executor.rs:192-204 | a run that stops reports the step that comes first in the workflow's list among those of the level that cannot be resolved, prepared or brought to succeed, with the error that says which |
| WorkflowRuns.RecordedIsEarned | orchestrator/src/executor.rs:161-204 | every recorded result, also of a failed run, is what the step's agent makes of the task prepared from exactly the outputs recorded by earlier levels |
| WorkflowRuns.SequentialRun | orchestrator/src/executor.rs:112-149 | the sequential run is the layered run over one step per level, with the same guarantees |
| WorkflowRuns.SequentialCompletesIff | orchestrator/src/executor.rs:112-149 | likewise for sequential runs, told from the oracle alone |
| Strategies.HandedAsRun | orchestrator/src/executor.rs:118-146 | each executed step leaves the result earned on the outputs handed to it; the run stops at the first that cannot be resolved, prepared or brought to succeed, with the error that says which, and no other step leaves anything |
| Strategies.HandedIsRecorded | orchestrator/src/executor.rs:118-136 | each executed step is handed exactly the recorded outputs of the steps listed before it |
| Strategies.SequentialFindsDependenciesIff | orchestrator/src/executor.rs:118-128 | whatever the agents do, every step a sequential run executes is handed the outputs of its dependencies, exactly if the workflow lists dependencies first |
| Strategies.SequentialMissesDependency | orchestrator/src/executor.rs:118-128 | an accepted workflow whose first step is always run without its dependency's output |
| Strategies.LayeringsAgree | orchestrator/src/executor.rs:159-207 | any two dependency-respecting layerings complete on the same agents and with the same results, where preparation reads only declared dependencies and attempts may use what it prepared |
| Strategies.StrategiesAgree | orchestrator/src/executor.rs:87-97 | for workflows listed dependencies-first the strategies complete alike, with the same results |
| Strategies.UnpreparedNeverCompletes | orchestrator/src/executor.rs:324-331 | with the present stub every execution records nothing and fails naming its first step, in a parallel run the first in the list without dependencies: preparation failed, or no agent resolved |
| WorkflowRuns.RunWorkflow | orchestrator/src/executor.rs:72-109 | status, results and error after the run, per strategy |
| WorkflowRuns.ExecuteWorkflow | orchestrator/src/executor.rs:33-68 | for every oracle, strategy and interleaving: every recorded result is earned from the outputs recorded before; Completed means exactly the workflow's steps have results, all completed with output; otherwise Failed with an error |
| TextLines.LinesRoundTrip | orchestrator/src/direct_llm.rs:438-440 | splitting into lines and rest loses and invents nothing |
| TextLines.LinesUnique | orchestrator/src/direct_llm.rs:438-440 | the split is the only one into lines and a rest without line feeds |
| TextLines.LinesAppend | orchestrator/src/direct_llm.rs:436-440 | reading on from the buffered rest is the same as reading the whole |
| EventStream.PayloadIsFieldValue | orchestrator/src/direct_llm.rs:441-444 | the two prefixes and the trimming of carriage returns amount to one rule: the trimmed value after "data:" |
| EventStream.TrimMeaning | orchestrator/src/direct_llm.rs:442 | trimming cuts all whitespace from both ends and nothing else |
| EventStream.WhitespaceTable | orchestrator/src/direct_llm.rs:442 | whitespace is the 25 characters with the Unicode property White_Space |
| EventStream.DecodeChoices | orchestrator/src/direct_llm.rs:459-469 | texts of all choices concatenated in order; finished exactly if some choice has a finish reason |
| EventStream.EventMeaning | orchestrator/src/direct_llm.rs:450-497 | in the fields of the two wire formats: which payloads end an answer, and which give which text |
| EventStream.ReadStream | orchestrator/src/direct_llm.rs:424-520 | for any cutting into chunks, transport error and client behaviour: deltas sent, text and reason for stopping equal those of reading the text in one piece |
| EventStream.ReadTwoCuttings | orchestrator/src/direct_llm.rs:424-520 | the reader ends in the same state, deltas, text and reason for stopping alike, on any two cuttings of one text with the same transport error, if any |
| EventStream.ChunksUpToError | orchestrator/src/direct_llm.rs:428-435 | what is read is the chunks before the first transport error, in order |
| EventStream.SentUpToEnd | orchestrator/src/direct_llm.rs:445-519 | for every client: the deltas are the texts up to the first ending line or the first send that fails, whichever comes first, in order |
| EventStream.ReadMeaning | orchestrator/src/direct_llm.rs:424-520 | for every text, error and client: which of the four endings it is, and that the deltas are the non-empty texts of the content deltas (or of all choices of a chunk) up to the first stop event, stop or finish reason, end marker or failing send |
| EventStream.TextIsSentDeltas | orchestrator/src/direct_llm.rs:499-517 | the accumulated text is the concatenation of the deltas handed to the client, all of them delivered unless the client is gone |
| EventStream.MoreInputOnlyAdds | orchestrator/src/direct_llm.rs:428-520 | more input never takes back a delta, and changes nothing once the reader has halted |
| EventStream.LineEndingsIrrelevant | orchestrator/src/direct_llm.rs:438-440 | CR LF streams are read like LF streams |
| Chunker.ChunkLines | orchestrator/src/code_index.rs:1401-1436 | the chunks are the parts of a split whose parts fit and could not take one line more |
| Chunker.ChunkContent | orchestrator/src/code_index.rs:1393-1439 | every line once and in order, in the fewest consecutive parts that are single lines or within the chunk size, numbered from 0 with 1-based line ranges |
| Chunker.ChunkSizes | orchestrator/src/code_index.rs:1405-1436 | each chunk holds the lines of its range, is a single line or within the chunk size, and would exceed it with one line more |
| Chunker.SourceLinesMeaning | orchestrator/src/code_index.rs:1394 | the lines end in a line feed and lose one carriage return before it; what follows the last line feed is kept as it is |
| Chunker.GreedyStaysAhead | orchestrator/src/code_index.rs:1405-1425 | after as many parts the greedy split is never behind any other |
| Chunker.FewestChunks | orchestrator/src/code_index.rs:1393-1439 | no split into consecutive parts that are single lines or within the chunk size has fewer parts |
| Chunker.ChunksCoverFile | orchestrator/src/code_index.rs:1409-1436 | consecutive indices, contiguous line ranges covering 1..n, contents concatenating to every line plus newline |
| Chunker.RangeGivesChunk | orchestrator/src/code_index.rs:1666-1678 | a chunk's line range gives back its content but for the last newline |
| Chunker.FileLinesMeaning | orchestrator/src/code_index.rs:1666-1678 | any range gives the lines of the file with those numbers; it panics exactly if it begins in the file and ends more than one line before that |
| Chunker.ChunksGiveBackFileIff | orchestrator/src/code_index.rs:1393-1439 | the chunks concatenate to the file exactly if it ends in a newline or is empty and no line ends in CR |
| Ranking.StableSortIsUnique | orchestrator/src/code_index.rs:1474 | the modelled sort is the one falling order that keeps equal scores in place |
| Ranking.SortPositions | orchestrator/src/code_index.rs:1474 | every position of the list comes once, higher scores first and equal ones in list order |
| Ranking.TwoSourceTopK | orchestrator/src/code_index.rs:1463-1478 | truncating both sources before merging loses nothing of the overall top list |
| Ranking.SearchTable | orchestrator/src/code_index.rs:1501-1523 | the rows scoring more than 0.1, by falling score and then table order, as many as the limit allows |
| Ranking.Search | orchestrator/src/code_index.rs:1463-1478 | the same over both tables, chunks before symbols: truncating each table first loses nothing |
| Similarity.CauchySchwarz | orchestrator/src/code_index.rs:422-424 | the square of the dot product is at most the product of the squared norms, in any dimension |
| Similarity.DotSnoc | orchestrator/src/code_index.rs:422 | every further pair of coordinates adds its product |
| Similarity.CosineMeaning | orchestrator/src/code_index.rs:417-431 | the score times the lengths is the dot product; it is 0 for a zero vector or different dimensions |
| Similarity.CosineBounded | orchestrator/src/code_index.rs:417-431 | every score lies in [-1, 1] |
| Similarity.CosineSymmetric | orchestrator/src/code_index.rs:417-431 | the score is symmetric |
| Similarity.CosineSelf | orchestrator/src/code_index.rs:417-431 | a vector scores 1 against itself exactly if it is not zero, else 0 |
| Similarity.CosinesAgree | orchestrator/src/shared_memory.rs:1100-1114 | both implementations agree |
| Similarity.CosineIgnoresLength | orchestrator/src/code_index.rs:399-405 | scaling a vector, as L2 normalisation does, changes no score |
| TfIdf.TfIdfVectorizer.Fit | orchestrator/src/code_index.rs:359-379 | from any state: the table has the terms of the documents, each with the number of documents that contain it; indices are distinct and fill the range from the old vocabulary size up |
| TfIdf.TfIdfVectorizer.Transform | orchestrator/src/code_index.rs:382-408 | never out of range; at the index of each known term stands its share of the terms times the smoothed logarithm of its rarity plus one, and the vector is that scaled to length 1 if some term is known, else zero |
| TfIdf.IdfAtLeastOne | orchestrator/src/code_index.rs:393-394 | every idf is at least 1 |
| TfIdf.TfIdfVectorizer.SomeWeight | orchestrator/src/code_index.rs:391-401 | the norm is positive exactly if the document has a known term |
| TaskQueue.SharedMemory.PushTask | orchestrator/src/shared_memory.rs:805-834 | appends one pending task under a new id |
| TaskQueue.SharedMemory.PopTask | orchestrator/src/shared_memory.rs:837-889 | claims a pending task, for a named caller one addressed to it or to nobody, of the highest priority and earliest push among those, any that tie, and only it; nothing exactly if there is none |
| TaskQueue.SharedMemory.UpdateTaskStatus | orchestrator/src/shared_memory.rs:928-958 | sets the status of the rows with that id |
| TaskQueue.ClaimedAtMostOncePerReset | orchestrator/src/shared_memory.rs:873-879 | over every run a task is claimed at most once plus once per reset to pending |
| TaskQueue.PushedOnce | orchestrator/src/shared_memory.rs:805-834 | over every run exactly the ids below the next one have been pushed, each once |
| TaskQueue.RowsArePushes | orchestrator/src/shared_memory.rs:805-958 | over every run no task is lost, duplicated or altered but for its status |
| TaskQueue.DrainedInOrder | orchestrator/src/shared_memory.rs:843-864 | uninterrupted pops of one caller come with priorities that do not rise, and among equal ones by push time |
| TaskQueue.DrainedOnce | orchestrator/src/shared_memory.rs:873-879 | uninterrupted pops never return a task twice |
| TaskQueue.DrainedCompletely | orchestrator/src/shared_memory.rs:837-889 | popping until nothing comes has popped exactly the tasks pending at the start that the caller may take |
| Rpc.OwnResponseOnly | orchestrator/src/rpc.rs:144-246 | in every interleaving, also with repeated ids, a caller gets only a response with its own request id |
| Rpc.AnswersAreDeliveries | orchestrator/src/rpc.rs:144-246 | each answer is a whole response delivered under the call's id after it registered, and no delivery answers two calls |
| Rpc.FirstDeliveryCounts | orchestrator/src/rpc.rs:198-246 | with distinct ids a call gets the first response delivered for it since it registered, and a waiting call can receive one exactly if there was one |
| Rpc.AtMostOneResponse | orchestrator/src/rpc.rs:220-228 | each call takes at most one response, and takes one exactly if it returns with an answer |
| Rpc.HowCallsEnd | orchestrator/src/rpc.rs:220-246 | a call times out exactly if it expired and cleaned up, and ends in a closed channel or an answer exactly if it saw one |
| Rpc.DeliveryNeverWaits | orchestrator/src/rpc.rs:155-161 | the send under the table's lock always finds the buffer empty |
| Rpc.AliveIffInTable | orchestrator/src/rpc.rs:155-239 | a sender is alive exactly while the table holds it |
| Rpc.NothingLeaks | orchestrator/src/rpc.rs:198-246 | with distinct ids no call ends in a closed channel, and the table is empty once all calls have returned |
| Rpc.AbsentIffDistinct | orchestrator/src/rpc.rs:208-239 | returned calls are absent from the table in every run exactly if no two calls share an id |
| Agents.AllocatePort | orchestrator/src/api.rs:57-76 | the least free port of 18790..18899 if there is one; else 18800 although used |
| Agents.SomePortFree | orchestrator/src/api.rs:57-76 | with fewer than 110 agents some port is free |
| Agents.PortsRunOut | orchestrator/src/api.rs:57-76 | a history of creates after which two agents share a port |
| Agents.AppState.CreateAgent | orchestrator/src/api.rs:402-404 | appends the agent at its indexed position; distinct ports stay distinct exactly if some port was free, as below 110 agents one always is |
| Agents.AppState.DeleteAgent | orchestrator/src/api.rs:601-649 | removes the agent, leaves the index stale, keeps ports distinct |
| Agents.WithoutAppend | orchestrator/src/api.rs:641 | agents are kept or dropped one by one, in order |
| Agents.StaleIndexHarmlessIff | orchestrator/src/api.rs:1788-1811 | lookup equals the plain scan for every index exactly if only one agent matches the query |
| Agents.ScanFinds | orchestrator/src/api.rs:1798-1811 | the plain search finds the first agent with that id, without one the first with that name, and nothing exactly if there is neither |
| Agents.StaleIndexNoticed | orchestrator/src/api.rs:1788-1811 | a history of creates and a delete after which lookup and scan differ |
| Agents.StaleIndexHarmless | orchestrator/src/api.rs:1784-1811 | with unique ids and names and no name equal to another's id, any stale index is harmless |
| Agents.AppState.SyncContainerStates | orchestrator/src/main.rs:131-219 | every agent is reconciled; the index is rebuilt exactly if some agent changed |
| Agents.PositionIndexExact | orchestrator/src/main.rs:210-214 | the rebuilt index has exactly the ids of the list, each with the last position that holds it |
| Agents.ReconcileIdempotent | orchestrator/src/main.rs:131-206 | a second pass on the same observations changes nothing |
| Agents.ReconciledMeaning | orchestrator/src/main.rs:131-206 | only the status changes, exactly if what is observed contradicts it, and then to the observed status (Starting for Stopping, Stopped for an absent container) |
| Agents.ReconciledIsBorneOut | orchestrator/src/main.rs:134-205 | only the status changes, and an agent is left Running only where a runtime or gateway bears it out |

## Left out

- HTTP handlers, WebSocket proxying, container runtimes, persistence and logging: I/O around libraries not shown. In the name-scan branch of the chat lookup the log line slices the id to 16 characters and would panic on shorter ids; the model has no logging.
- Authentication, RBAC, validation and error sanitising: not this model's subject.
- Wall-clock timestamps, durations and back-off delays: not part of results.
- Executor.ExecuteLevel: a panicking task (join error) is not distinguished from one that gives up with an error.
- Agent resolution by id, pattern and status: an arbitrary outcome of the oracle.
- EventStream.ReadStream: works on decoded characters; the code decodes UTF-8 chunk by chunk and may damage characters that a chunk boundary splits.
- JSON decoding of stream payloads: an arbitrary partial function.
- Chunker.ChunkContent: line numbers are unbounded, where the code truncates them to 32 bits.
- Floating point: reals stand for floats, so rounding, NaN and infinities are not modelled; square root and logarithm enter by the two facts the proofs need.
- The memory search of the shared memory: the same sort and truncation as `Ranking.SearchTable` without the threshold.
- Tokenisation for TF-IDF: documents are given as term lists.
- SQL: tables are sequences of rows in insertion order; the vector-search extension never loads and is left out.
- Rpc.NothingLeaks: says nothing of liveness; the waiter registers only after its request is sent, so an early response is dropped, and dropped call futures are not modelled.
- Agents.AppState.CreateAgent: one create at a time; the code releases the lock between choosing the port and storing the agent. Imported agents keep their ports.
- Volume attachment, stored-agent statuses, teams, templates, snapshots and configuration: would add only easy members or have no such invariant.
