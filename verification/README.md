# SochDB Go client: verified models

Dafny models of the algorithms of the SochDB Go client, with proofs of what they promise. Each model
keeps the form of the code: objects that are updated in place are classes whose methods are proved
against specification functions, loops are loops with invariants, and the promises are lemmas about
the specifications and about whole runs.

| file | models |
|---|---|
| Bytes.dfy, Options.dfy, MapSums.dfy, Lists.dfy | byte order, fixed-width integers, sums over maps, `sort.Slice` as some sorted permutation |
| OrderedStore.dfy | the ordered key-value store: a finite map whose prefix scans ascend |
| QueueKey.dfy | the queue's key codec and its order |
| QueueModel.dfy, PriorityQueue.dfy | the queue as a state machine over one store, and the object that implements it |
| QueueRuns.dfy, QueueTheorems.dfy | the invariant of every run of the queue, and its consequences |
| QueueContents.dfy | what tasks carry over every run: the arguments of their Enqueue, and the stamps since |
| Traverse.dfy | graph traversal: the loop, and the recursion and the levels that it computes |
| Wire.dfy | the IPC frames and list responses |
| Similarity.dfy | the Newton square root, cosine similarity and `CacheGet` |
| Consolidation.dfy | canonical facts from raw assertions |
| Retrieval.dfy | BM25, ranking, rank fusion |
| SemanticCache.dfy | the cache with expiry |
| ContextBuilder.dfy | context truncation |

The queue's theorems are about histories (`Run`): the state, the latest time seen, every task that
ever arrived (purged ones included), the order of arrival, and the number of claims of each task.
`Initial` and `Possible` say what the environment owes the queue: a clock that does not run backwards
and starts at zero or later, fresh non-empty task identifiers, and a slash-free queue name. Under them
the order of service and the bound on claims hold, whatever is returned with `Nack`. The counters and
the exact account of retries need `Legal`, too: only claimed tasks are returned. The section below says
exactly what fails when a name contains a slash, when ready times cannot be trusted, and when an
unclaimed task is returned.

Prefix scans ascend in byte order, as line 8 of queue.go assumes. Every public method is one atomic
step; the clock and the drawn identifier are parameters. Stored JSON is modelled as typed values; a
value that does not decode is skipped by every reader, as in the code. All non-integer arithmetic is
exact.

## Where the code and its documentation part

The models follow the code.

- `Nack` does not look at the task's state. Nacking a task that is not claimed always breaks the
  counters, nacking a claimed one never does (`QueueTheorems.NackKeepsLedgerExactly`). The order of
  service and the limit on claims survive either (`EveryRunKeepsOrder`).
- Nothing stops a queue name from containing a slash. A scan for one name then also meets the keys of
  every name that continues it with a slash (`QueueKey.PrefixCoversExactly`), and `DecodeQueueKey`
  returns the encoded key exactly when the name has no slash and the task id is not empty
  (`QueueKey.DecodedExactly`).
- Keys write the priority with a sign flip but the timestamp without one, so byte order is the
  promised order exactly when compared timestamps have the same sign (`QueueKey.KeyOrder`).
- The IPC path of `Dequeue` ignores the ready time. It agrees with the iterator path in every
  reachable state, and in an arbitrary store exactly when the first pending key is due
  (`QueueTheorems.PathsAgree`, `PathsAgreeExactly`).
- The sequence counter wraps at 2^64. Within one millisecond arrivals of one priority are ordered by
  their place modulo 2^64, then by task id, which is the order of arrival as long as the counter does
  not wrap (`QueueTheorems.EarlierComesFirst`).
- A frame's length is cut to 32 bits, so a longer payload is not read back (`Wire.FrameRoundTrip`).
- `CacheGet` starts from a best similarity of -1, so it passes over a comparable entry that reaches the
  threshold exactly when it is the query's opposite and both have squared norm 4
  (`Similarity.PassedOverExactly`).
- Only the first contradiction that names an assertion is looked at. An aged one in front hides a
  fresh one behind it (`Consolidation.FirstContradictionDecides`).
- Indexing a second time adds to the document frequencies of the first, so the index describes its
  documents exactly when no term was counted before (`Retrieval.BM25Scorer.IndexDocuments`). Whatever
  was indexed before, no query scores a document negatively exactly when none of its terms is counted
  more often than there are documents (`NeverNegativeExactly`), and a query has no score (NaN) exactly
  when no document has a term but one of the query's terms is still counted (`UndefinedExactly`).
- "Assign max rank to missing IDs" never assigns anything; an id that a list does not contain gets rank 0,
  which beats every real rank whenever the list's weight is positive (`Retrieval.AbsenceOutranks`).
- `Clear` counts expired entries, unlike the other readers (`SemanticCache.ClearSeesPurge`).
- "Drop from beginning" drops whatever fits, so it can keep a big first section and drop a small later
  one; it drops a head exactly when nothing behind the first kept section still fits
  (`ContextBuilder.HeadDropIsSuffixExactly`). It keeps at least the budget.
- Depth-first order marks a node at whatever depth it first takes it, so with a small bound it can miss
  nodes within the bound. A bound is enough for every stored graph with n identifiers exactly when it is
  at most 1 or at least n - 1 (`Traverse.SufficesExactly`).
- The proportional cut gives every section at least one token, so it can end over the budget. It fits
  exactly when the remainders of the shares add up to a token for every section whose share is less
  than one (`ContextBuilder.ProportionalFitsExactly`). Under a budget of -b it panics exactly when the
  content of some section has at least total / b bytes (`ContextQueryBuilder.Execute`).
- A negative fusion constant can meet a rank, and a zero one an id that is missing from a list; the fused
  score is then not finite. `Retrieval.FiniteExactly` says when all scores are, and
  `Retrieval.DominanceExactly` for which constants a document that is better on both lists comes first.

## Model

| member | source | states |
|---|---|---|
| QueueKey.I64RoundTrip | queue.go:94-107 | the biased big-endian codec inverts both ways, over all of int64 and all 8-byte strings |
| QueueKey.I64Order | queue.go:94-101 | byte order of encoded priorities is signed order, negative numbers included; the encoding is injective |
| QueueKey.U64RoundTrip | queue.go:82-92 | the unsigned big-endian codec inverts both ways |
| QueueKey.U64Order | queue.go:82-87 | byte order of encoded unsigned numbers is numeric order |
| QueueKey.KeyOrderUnsigned | queue.go:122-150 | byte order of two keys of one queue, for all field values: signed priority, timestamp read as unsigned, sequence, task id |
| QueueKey.KeyOrder | queue.go:122-150 | byte order is the promised order (priority, time, sequence, id) if and only if timestamps that get compared have one sign |
| QueueKey.NegativeTimestampSortsLast | queue.go:130 | a concrete pair of keys that the encoding puts the wrong way round |
| QueueKey.KeyLayout | queue.go:389 | the documented positions of every field and separator of an encoded key, the fixed bytes spelled out |
| QueueKey.KeyBytesInjective | queue.go:122-150 | different canonical keys never share their bytes |
| QueueKey.PrefixCoversExactly | queue.go:286 | the scan prefix of a slash-free name covers a key if and only if the key's queue has that name or a name that continues it with a slash |
| QueueKey.PrefixIsolation | queue.go:286 | with slash-free names only, the scan prefix of a name covers a key if and only if the key is of that queue |
| QueueKey.Encode | queue.go:123-150 | the buffer filled part by part is the key's byte form |
| QueueKey.JoinInto | queue.go:137-149 | the length-counting and copying loops yield the concatenation of all parts |
| QueueKey.FindBoundary | queue.go:399-409 | the first slash with 28 bytes behind it, or -1 and there is none |
| QueueKey.DecodeQueueKey | queue.go:391-462 | accepts exactly the encodings of canonical keys, returns the key whose encoding the data is, and never takes a truncated-field exit |
| QueueKey.ParseFields | queue.go:391-462 | the positional parser: success means re-encoding gives the same bytes, failure means the data has no boundary with separated fields behind it |
| QueueKey.DecodedExactly | queue.go:388-462 | round trip: what the decoder promises about an encoded key makes it return that key if and only if the queue name is slash-free and the task id is not empty |
| OrderedStore.ScanPrefix | queue.go:268-280 | a scan lists every entry under the prefix, once, in ascending byte order |
| OrderedStore.FirstInListing | queue.go:298-338 | the first hit of a scan is the least key of the set looked for, and no hit means the set is empty |
| QueueModel.StatKeysDistinct | queue.go:731 | the six counters of a queue have six different keys |
| QueueModel.StatKeyIsNoTaskKey | queue.go:731 | no counter's key is under any queue's scan prefix |
| QueueModel.Incremented | queue.go:754-763 | an increment moves one counter by one, no other, and no task |
| QueueModel.Decremented | queue.go:765-776 | a decrement moves one counter, only if it was positive, and no task |
| QueueModel.ChoiceOnFields | queue.go:284-386 | an iterating database gives Dequeue the first pending task whose key decodes to a time not after now; where there is none, or no iterator, a scanning one gives the first pending task |
| QueueModel.EnqueueWrites | queue.go:222-266 | the task stored under the new key, all ten fields spelled out |
| QueueModel.ClaimWrites | queue.go:322-337 | the claimed task in the store, all ten fields: state, time and worker of the claim, the other seven as before |
| QueueModel.CompleteWrites | queue.go:478-489 | the acknowledged task in the store, all ten fields: state and completion time, the other eight as before |
| QueueModel.ReturnWrites | queue.go:504-524 | the nacked task in the store, all ten fields: one more retry; pending with the claim wiped out if retries are left, dead-lettered with the claim kept otherwise |
| QueueModel.PurgeRemoves | queue.go:542-606 | an entry is gone after a purge if and only if it is a completed or dead-lettered task under the queue's prefix; all others are unchanged |
| QueueModel.AckAnswers | queue.go:465-476 | not found if and only if no task under the prefix carries the id; otherwise done if the first such task is claimed and not claimed if it is not |
| PriorityQueue.PriorityQueue.constructor | queue.go:196-218 | sequence 0, the given name, and retry limit 3 unless a positive one is given |
| PriorityQueue.PriorityQueue.Enqueue | queue.go:222-266 | the new state is the Enqueue step of the state machine, the stored task has the given id, priority, payload, metadata and time, and the id is returned |
| PriorityQueue.PriorityQueue.Dequeue | queue.go:284-386 | the new state is the Dequeue step; a task comes back if and only if one can be chosen, and it is the chosen one with its own id, priority, payload, metadata and times, claimed by the worker now |
| PriorityQueue.PriorityQueue.FindReady | queue.go:294-338 | the iterator path finds the least key that is pending, decodable and due |
| PriorityQueue.PriorityQueue.FindPending | queue.go:351-383 | the IPC path finds the least pending key |
| PriorityQueue.PriorityQueue.ClaimTask | queue.go:322-337 | claims the task under its old key and moves the three counters |
| PriorityQueue.IsDue | queue.go:313-320 | true if and only if the bytes are the encoding of some canonical key that is due |
| PriorityQueue.PriorityQueue.FindTask | queue.go:622-672 | the least key whose task carries the id |
| PriorityQueue.PriorityQueue.GetTask | queue.go:622-672 | the task at that key, or nothing |
| PriorityQueue.PriorityQueue.UpdateTask | queue.go:674-728 | rewrites the task under the key it was found at and changes nothing else |
| PriorityQueue.PriorityQueue.Ack | queue.go:465-492 | answers not found, not claimed or done; the new state is the Ack step, and a task that is done is completed at the given time with its other fields unchanged |
| PriorityQueue.PriorityQueue.Nack | queue.go:495-527 | answers not found or done; the new state is the Nack step, whatever state the task was in: one more retry, and pending without claim or dead-lettered |
| PriorityQueue.PriorityQueue.Purge | queue.go:542-606 | removes exactly the completed and dead-lettered tasks, leaves every other entry as it was, and counts them |
| PriorityQueue.CollectFinished | queue.go:553-570 | the keys to delete are those of the finished tasks, each once |
| PriorityQueue.FinishedAreTerminal | queue.go:564-568 | the finished tasks of a scan are all finished tasks of the queue |
| PriorityQueue.PriorityQueue.Stats | queue.go:530-539 | reports the six stored counters |
| PriorityQueue.PriorityQueue.ReadStat | queue.go:730-752 | a missing or unreadable counter reads as 0 |
| PriorityQueue.PriorityQueue.IncrementStat | queue.go:754-763 | the store's new value, all other entries unchanged |
| PriorityQueue.PriorityQueue.DecrementStat | queue.go:765-776 | the same for a decrement, which leaves a counter that is not positive alone |
| QueueRuns.EnqueueEffect | queue.go:222-266 | an enqueue adds one task and moves two counters, seen through a scan |
| QueueRuns.ClaimEffect | queue.go:322-337 | a claim rewrites one task and, unless the pending counter is zero, moves pending, claimed and totalDequeued |
| QueueRuns.CompleteEffect | queue.go:478-489 | an acknowledgement rewrites one task and, unless the claimed counter is zero, moves claimed and completed |
| QueueRuns.ReturnEffect | queue.go:504-524 | a return rewrites one task and moves claimed and one other counter, with the guard spelled out |
| QueueRuns.PurgeEffect | queue.go:542-606 | a purge loses only finished tasks and touches no counter |
| QueueRuns.LedgerWrite | queue.go:261-263 | when one task is written, the ledger stays exact if and only if each counter moves by exactly the change in what it counts |
| QueueRuns.EnqueueKeepsOrder | queue.go:222-266 | Enqueue keeps the store's agreement with the history and the order of arrival, and its key is new |
| QueueRuns.DequeueKeepsOrder | queue.go:284-386 | Dequeue keeps them |
| QueueRuns.AckKeepsOrder | queue.go:465-492 | Ack keeps them |
| QueueRuns.NackKeepsOrder | queue.go:495-527 | Nack keeps them, whatever state the task is in |
| QueueRuns.StepKeepsOrder | queue.go:222-606 | every possible operation keeps them and changes the history in one known place |
| QueueRuns.StepKeepsClaims | queue.go:222-606 | every possible operation keeps the bound on claims |
| QueueRuns.EnqueueKeepsInv | queue.go:222-266 | Enqueue keeps the ledger and the exact account of retries as well |
| QueueRuns.DequeueKeepsInv | queue.go:284-386 | Dequeue keeps them |
| QueueRuns.AckKeepsInv | queue.go:465-492 | Ack keeps them |
| QueueRuns.NackKeepsInv | queue.go:495-527 | Nack on a claimed task keeps them |
| QueueRuns.StepKeepsInv | queue.go:222-606 | every legal operation keeps the invariant and changes the history in one known place |
| QueueTheorems.EveryRunKeepsInv | queue.go:222-606 | the invariant holds after every legal run of a fresh queue |
| QueueTheorems.EveryRunKeepsOrder | queue.go:222-606 | after every run of a fresh queue, with Nack in any state, the store agrees with the history, keys are in order of arrival, and claims are bounded |
| QueueTheorems.LedgerIsExact | queue.go:530-539 | pending and claimed are the numbers of such tasks in the store, completed and deadLettered count the purged ones too, totalEnqueued is the number of tasks that ever arrived, totalDequeued the number of claims ever made |
| QueueTheorems.ClaimsTotal | queue.go:333-335 | the claims ever made are the claimed tasks, the completed ones and all retries together |
| QueueTheorems.NoDecrementIsSkipped | queue.go:765-776 | in a legal step the guard of decrementStat never suppresses a decrement |
| QueueTheorems.NackKeepsLedgerExactly | queue.go:495-527 | in a reachable state, Nack keeps the ledger exact if and only if the task is claimed |
| QueueTheorems.ClaimsBounded | queue.go:504-517 | whatever is nacked, no task is claimed more than MaxRetries times, a task is dead-lettered if and only if its retries have reached MaxRetries, and no other task is claimed more than once per retry and once more |
| QueueTheorems.ClaimsExact | queue.go:504-517 | while only claimed tasks are nacked, retries stop at MaxRetries, claims are exactly the retries and one more if claimed or completed, and a dead-lettered task was claimed MaxRetries times |
| QueueTheorems.StepSpendsBudget | queue.go:284-527 | the sum over tasks of 2(M - r), less 1 if claimed and 0 if finished, drops with every Dequeue, every Ack and every Nack of an unfinished task that succeeds, and grows by at most 2M with an Enqueue; when completed tasks may be nacked, the same holds with 2(M - r) - 2 for a completed task |
| QueueTheorems.RunsAreBounded | queue.go:284-527 | over any run the successful claims, acknowledgements and returns of unfinished tasks are bounded by the starting budget and the arrivals |
| QueueTheorems.LegalRunsReopenNothing | queue.go:495-527 | a run that nacks claimed tasks only nacks no completed one |
| QueueTheorems.PendingIsReady | queue.go:313-320 | with an honest clock every pending task is due, whatever was nacked |
| QueueTheorems.PathsAgree | queue.go:284-386 | in every reachable state the iterator path, the IPC path and both together choose the same task |
| QueueTheorems.PathsAgreeExactly | queue.go:284-386 | in an arbitrary store they agree if and only if nothing is pending or the first pending key is due |
| QueueTheorems.ArrivalOrder | queue.go:122-150 | the keys of a reachable state compare as promised |
| QueueTheorems.EarlierComesFirst | queue.go:226-233 | of two arrivals of one priority the earlier has the smaller key if and only if its time is smaller, or its place modulo 2^64 is, or that is equal and its task id is smaller |
| QueueTheorems.ServedFirst | queue.go:282-386 | Dequeue claims the pending task with the smallest priority number and, within it, the earliest arrival; nothing is claimed only when nothing is pending |
| QueueTheorems.QuietRun | queue.go:282-606 | over a run without Enqueue and Nack the order of arrival stands still and no task becomes pending |
| QueueTheorems.ServedInOrder | queue.go:282-386 | of two successful Dequeues with no Enqueue and no Nack between them, the first claims the more urgent task or, of equal urgency, the earlier one |
| QueueTheorems.NoOvertaking | queue.go:284-338 | a smaller key never belongs to a less urgent or later task |
| QueueTheorems.ReturnedKeepsPlace | queue.go:504-523 | a nacked task, whatever its state, is pending afterwards at its old place if and only if it has retries left, and every other task keeps its place and state |
| QueueTheorems.PrefixesDisjoint | queue.go:286 | two slash-free names whose prefixes cover one key are the same name |
| QueueTheorems.StepStaysHome | queue.go:222-606 | every operation leaves all keys alone that are neither under its queue's prefix nor its counters |
| QueueTheorems.QueuesDoNotInterfere | queue.go:222-606 | a step of one queue changes no task and no counter of another queue in the same store |
| QueueContents.StepKeepsOrigins | queue.go:222-606 | no operation changes a task's id, priority, payload, metadata or time of arrival, and a new key and its task are made of the arguments of the Enqueue |
| QueueContents.EveryRunCarriesArrivals | queue.go:222-606 | after every run of a fresh queue there are as many keys as Enqueues, and the i-th key and the task under it carry the id, priority, payload, metadata and time of the i-th Enqueue, whatever followed |
| QueueContents.PlaceOfChosen | queue.go:284-386 | in a reachable state the task that Dequeue claims is one of the arrivals; its five fields stay, and it is claimed by the worker at the time of the call |
| QueueContents.HandedOut | queue.go:222-386 | after every run, a successful Dequeue hands out exactly what one Enqueue of the run was given, claimed by this worker at this time |
| QueueContents.StepKeepsStamps | queue.go:222-606 | every possible operation keeps the order of the stamps, Nack in any state included |
| QueueContents.EveryRunStampsTasks | queue.go:222-606 | after every run, pending tasks have neither claim time nor worker, claimed ones a claim time not before their arrival, completed ones a completion time not before their claim, and no stamp is ahead of the clock |
| Traverse.Traverse | client.go:706-762 | nodes and edges are exactly the records and outgoing edges of the visited nodes, in this order: for "bfs" level by level, for any other order the recursive descent that takes a node's targets from the last to the first; a record is returned if and only if it is that of a visited node, and for "bfs" if and only if it is that of a node within maxDepth, and so for edges; it terminates on every graph |
| Traverse.PushedChildren | client.go:748-757 | pushing a node's unvisited targets on the stack leads to the same visits as descending into all of them |
| Traverse.StackStep | client.go:725-757 | one turn of the loop in depth-first order leaves the result of unwinding the stack unchanged |
| Traverse.TakenHead | client.go:722-757 | one visit in breadth-first order leaves the result of draining the queue level by level unchanged |
| Traverse.SearchIsRight | client.go:720-759 | every search: the start first, every node once and within maxDepth, every target of a node above maxDepth visited; breadth first all nodes within maxDepth at their distances, nearest first; with a bound of all nodes but one exactly the reachable nodes, in either order |
| Traverse.LoopEnds | client.go:720-759 | an empty frontier means that the search is complete in this sense |
| Traverse.AnswersArePermutations | client.go:720-761 | where depth-first order finds all nodes within the bound, both orders return the same records and edges, each as often |
| Traverse.AnswerInOrder | client.go:733-746 | the answer cut up by visits: the share of a visited node is its one stored record, or nothing, and all its stored edges in their order |
| Traverse.AnswerMembers | client.go:733-746 | a record or edge is in the answer if and only if some visited node has it |
| Traverse.BfsAnswer | client.go:720-759 | breadth first, visited means within maxDepth steps of the start |
| Traverse.DeeperFirst | client.go:725-757 | depth first, a node above the bound that has targets not yet visited is followed by the last of them, one deeper |
| Traverse.BoundIsEnough | client.go:720-759 | a bound of at most 1, or of all nodes but one, makes depth-first order visit exactly the nodes within it |
| Traverse.SufficesExactly | client.go:679-759 | a bound is enough for depth-first order on every graph with n identifiers that the store can yield if and only if it is at most 1 or at least n - 1 |
| Traverse.DepthFirstCanMiss | client.go:725-732 | for every n and every bound from 2 to n - 2, a graph with n identifiers, its edges in the order of their keys, and a node within the bound that depth-first order does not visit |
| Traverse.ChainIsStored | client.go:679-746 | that graph is one the store can yield: slash-free non-empty identifiers, and the edges of a node ascend by type, separator and target |
| Traverse.Expand | client.go:748-757 | the inner loop reports every outgoing edge and pushes the targets not yet visited, in order |
| Traverse.NearerIsVisited | client.go:720-756 | breadth first, everything nearer than the whole frontier has been visited |
| Traverse.BfsVisit | client.go:722-735 | breadth first, the depth at which a node is taken is its distance, and depths never go down |
| Traverse.BfsIsComplete | client.go:720-759 | when the frontier is empty, visited means within the bound |
| Traverse.Drop | client.go:730-732 | skipping an item that is too deep or visited loses nothing when the bound is large enough |
| Traverse.Visit | client.go:733-757 | a visit keeps every unvisited neighbour on the frontier |
| Traverse.DeepSearchIsComplete | client.go:720-759 | either order visits exactly the reachable nodes when maxDepth is at least the node count less one |
| Wire.FrameRoundTrip | client.go:283-323 | a frame followed by anything is read back as sent if and only if its payload is shorter than 2^32 |
| Wire.FrameBytes | client.go:285-296 | the header bytes of a frame one by one: opcode, then the payload length with its lowest byte first, then the payload |
| Wire.UnframeIsFrame | client.go:300-323 | whatever is read is the frame at the front of the stream |
| Wire.FramesRoundTrip | client.go:283-323 | a sequence of frames is read back as the same sequence if and only if every payload fits |
| Wire.Connection.SendMessage | client.go:285-296 | appends exactly the message's frame to the stream |
| Wire.Connection.ReadMessage | client.go:300-323 | takes the first frame off the stream, or fails when the stream is too short |
| Wire.ReadListResponse | client.go:469-581 | for opcode 0x81 an error with the payload, for any but 0x80 and 0x82 the unexpected-opcode error, and nothing for a payload of less than four bytes; otherwise the one list laid out in the payload, or Truncated if no list is |
| Wire.ParseList | client.go:492-524 | the parsing loop computes the recursive parser, with every slice in bounds |
| Wire.ParseOne | client.go:553-577 | one turn of the loop, with the offset moved behind the entry |
| Wire.ParseIsExact | client.go:527-581 | the parser answers with a list if and only if that list is laid out in the documented format |
| Wire.ParsedEntries | client.go:527-581 | parsing an encoded list followed by anything gives the list |
| Wire.EntryLayout | client.go:553-577 | the bytes of a list entry one by one: key length, key, value length, value, lengths with their lowest byte first |
| Wire.OneEntryList | client.go:527-581 | the thirteen bytes of a concrete list response |
| Bytes.LittleEndianByte | client.go:289 | byte i of a little-endian number is its digit of weight 256 to the power i |
| Wire.StrictPrefixRejected | client.go:554-571 | no strict prefix of a valid payload parses as any list |
| Similarity.Sqrt | client.go:856-865 | the loop computes ten Newton steps from x/2, and 0 for x at most 0 |
| Similarity.RootBounds | client.go:856-865 | for x > 0 the result z has z² at least x, and z² - x at most (x/4 - 1)²/4⁹ |
| Similarity.NewtonContracts | client.go:861-863 | from above the root, n steps shrink z² - x by 4ⁿ and stay above |
| Similarity.RootExactly | client.go:856-865 | 4 is the only positive number whose root comes out exact |
| Similarity.NewtonClosedForm | client.go:861-863 | n steps raise the ratio of the distances to the true root and to its negative to the power 2ⁿ |
| Similarity.RootClosedForm | client.go:856-865 | the result is determined: its distances to the true root and to its negative are in the ratio of those of x/2, raised to the power 1024 |
| Similarity.CauchySchwarz | client.go:843-847 | Dot(a, b)² is at most Dot(a, a) Dot(b, b) |
| Similarity.DotRaised | client.go:843-847 | the dot product is linear in each coordinate |
| Similarity.CosineScaled | client.go:841-854 | the similarity times both roots is the dot product, and it is 0 if one vector is zero |
| Similarity.CosineBounded | client.go:841-854 | the similarity lies in [-1, 1] although the norms are approximate |
| Similarity.OppositeExactly | client.go:841-854 | two vectors have similarity -1 if and only if they are opposite and of squared norm 4 |
| Similarity.SelfSimilarity | client.go:841-854 | how far below 1 the similarity of a vector to itself can be |
| Similarity.SelfSimilarityExactly | client.go:841-865 | a non-zero vector has similarity 1 to itself if and only if its squared norm is 4 |
| Similarity.CosineSimilarity | client.go:841-854 | the loop computes the dot product over both approximate norms, 0 for a zero vector, and the result is in [-1, 1] |
| Similarity.CacheGet | client.go:803-839 | found if and only if an entry qualifies, and then the value is that of the first of the most similar qualifying entries, which is unexpired, as long as the query and at least as similar as the threshold |
| Similarity.QualifiesExactly | client.go:812-828 | an entry qualifies if and only if it decodes, its expiresAt is not positive or not before now, its length is the query's, and its similarity reaches the threshold and exceeds -1 |
| Similarity.LookupIsBest | client.go:815-833 | if any entry qualifies by its fields, something is found, and it is at least as similar |
| Similarity.BestIsUnique | client.go:815-833 | only one entry can be the answer |
| Similarity.ExpiredIsInvisible | client.go:820-822 | an expired entry, put into the scan anywhere or taken out of it, changes neither the value nor whether one is found |
| Similarity.PassedOverExactly | client.go:812-828 | a comparable entry that reaches the threshold is passed over if and only if it is the query's opposite and both have squared norm 4 |
| Similarity.OppositeIsPassedOver | client.go:812-828 | a concrete such entry |
| Consolidation.MergeConfidence | memory_consolidation.go:303-322 | the loop computes the average with weights 1/(i+1); 0 for no assertion, the confidence itself for one |
| Consolidation.MergeBetween | memory_consolidation.go:311-321 | in any order the merged confidence is between the smallest and the largest |
| Consolidation.ChebyshevHolds | memory_consolidation.go:311-321 | Chebyshev's sum inequality for descending confidences and these weights |
| Consolidation.MergeAboveAverage | memory_consolidation.go:127-133 | in descending order it is never below the plain average |
| Consolidation.MergeRaised | memory_consolidation.go:311-321 | with h the harmonic numbers, raising the i-th of n confidences by d raises the result by d / ((i + 1) h(n)) |
| Consolidation.MergeOfZeros | memory_consolidation.go:303-321 | confidences of zero merge to zero, which together with the increments determines the result |
| Consolidation.ChebyshevStrict | memory_consolidation.go:311-321 | for descending confidences that are not all equal the inequality is strict |
| Consolidation.MergeIsAverageExactly | memory_consolidation.go:127-133 | in descending order the result is the plain average if and only if all confidences are equal |
| Consolidation.IsContradicted | memory_consolidation.go:138-152 | the loop decides by the first contradiction that names the assertion |
| Consolidation.FirstContradictionDecides | memory_consolidation.go:139-151 | an assertion is contradicted if and only if some contradiction names it and the first that does is not both subject to temporal updates and strictly older than the limit; this differs from "some contradiction is in force" if and only if the first one has aged and a later one has not |
| Consolidation.OldContradictionShadowsNew | memory_consolidation.go:139-151 | a concrete case |
| Consolidation.SurvivesExactly | memory_consolidation.go:135-156 | an assertion survives if and only if no contradiction names its id, or the first that does is strictly older than the limit with temporal updates on |
| Consolidation.EachSurvivorCountsOnce | memory_consolidation.go:112-156 | each surviving assertion contributes, with its multiplicity, to its own fact and to no other; a fact is live if and only if some assertion of it survives |
| Consolidation.CanonicalIsUnique | memory_consolidation.go:127-176 | tie-breaking in the unstable sort shows only in the order of the sources |
| Consolidation.CanonicalConfidence | memory_consolidation.go:173 | a canonical fact's confidence is within its assertions' range and at least their average |
| Consolidation.CanonicalOnFields | memory_consolidation.go:127-176 | a canonical fact field by field: the assertions' fact and its hash, their earliest time, and their sources in order of falling confidence and, at equal confidence, of falling time |
| Consolidation.Consolidator.Consolidate | memory_consolidation.go:101-192 | writes one canonical fact for every fact with a surviving assertion, under the hash of the fact, keeps all others as they were, writes nothing else, and counts them |
| Consolidation.ConsolidateGroup | memory_consolidation.go:126-176 | a group yields a canonical fact if and only if some assertion survives, built from exactly the survivors |
| Consolidation.GroupByFact | memory_consolidation.go:112-121 | the groups are the facts, each with its assertions in order |
| Consolidation.DropContradicted | memory_consolidation.go:135-156 | keeps exactly the assertions that are not contradicted, in order |
| Consolidation.Canonicalize | memory_consolidation.go:159-176 | sources in order, earliest timestamp, merged confidence, id and fact of the strongest assertion |
| Consolidation.OrderDoesNotMatter | memory_consolidation.go:126-189 | two runs on one input write the same facts, whatever the map order and the tie-breaking |
| Consolidation.SecondRunChangesNothing | memory_consolidation.go:101-192 | a second run at the same time changes nothing |
| Retrieval.BM25Scorer.IndexDocuments | memory_retrieval.go:51-75 | every term's count grows by the number of documents containing it; the index is right if and only if no term was counted before |
| Retrieval.BM25Scorer.IndexAll | memory_retrieval.go:54-70 | the loop's counts and total length, for any iteration order of the map |
| Retrieval.BM25Scorer.CountTerms | memory_retrieval.go:62-69 | a document counts once for each term it contains |
| Retrieval.DocFreqBounded | memory_retrieval.go:53-70 | no document frequency exceeds the document count |
| Retrieval.IdfSign | memory_retrieval.go:103-104 | the logarithm's argument is positive; it exceeds 1 if and only if the frequency is at most the document count, and is below 1 otherwise |
| Retrieval.TermScoreSign | memory_retrieval.go:103-109 | a term in the document contributes more than zero if its frequency is at most the document count and less than zero otherwise; any other term contributes zero |
| Retrieval.TermScoreFormula | memory_retrieval.go:103-109 | one term's score satisfies the published formula, both its quotients multiplied out |
| Retrieval.LongerScoresLess | memory_retrieval.go:106-108 | at equal frequency a greater relative length means a strictly smaller score, for 0 < b < 1 and a frequency at most the document count |
| Retrieval.MoreOftenScoresMore | memory_retrieval.go:106-109 | the score grows strictly with the term's frequency in the document and stays below the logarithm times k1 + 1 |
| Retrieval.BM25Scorer.Score | memory_retrieval.go:78-113 | after any number of indexings: the loop computes the BM25 sum, or NaN when it divides zero by zero; 0 for an unknown document; on a right index always a number, never negative, and positive if and only if the document contains a query term |
| Retrieval.BM25Scorer.ScoreSign | memory_retrieval.go:92-112 | as long as no term of the document is counted more often than there are documents, no score is negative, and a score is positive if and only if the document contains a query term |
| Retrieval.BM25Scorer.NeverNegativeExactly | memory_retrieval.go:53-70 | no query scores a document negatively if and only if none of its terms is counted more often than there are documents |
| Retrieval.BM25Scorer.AverageIsZeroExactly | memory_retrieval.go:72-74 | the average length is zero if and only if no document has a term |
| Retrieval.BM25Scorer.AverageBetween | memory_retrieval.go:72-74 | the average length lies between the lengths of the shortest and the longest document |
| Retrieval.BM25Scorer.LongerDocumentScoresLess | memory_retrieval.go:103-109 | of two documents that contain a term equally often the one with more terms scores strictly less for it |
| Retrieval.BM25Scorer.ScoreAdds | memory_retrieval.go:92-112 | the score of a query is the sum of the scores of its parts, repeated terms included |
| Retrieval.BM25Scorer.OneTermScore | memory_retrieval.go:84-112 | the score for one term by the published formula, in terms of the documents and the stored counts |
| Retrieval.BM25Scorer.UndefinedExactly | memory_retrieval.go:95-108 | some query has no score if and only if no document has a term and yet some term is counted; on a right index there is none |
| Retrieval.ScoreAfterReindexing | memory_retrieval.go:51-113 | a concrete pair of indexings after which a query scores below zero |
| Retrieval.BM25Scorer.ScoreTerm | memory_retrieval.go:103-109 | one term's share, its denominator positive, or NaN for an average of zero |
| Retrieval.RankScores | memory_retrieval.go:297-325 | ranks are a bijection onto 1..n that gives strictly higher scores strictly smaller ranks |
| Retrieval.ReciprocalRankFusion | memory_retrieval.go:267-293 | for the ids of either list and any constant, the sum of both contributions under some ranking of each list, infinities and NaN included |
| Retrieval.FiniteExactly | memory_retrieval.go:284-290 | all fused scores are finite if and only if the constant is the negative of no rank and, if it is zero, both lists have the same ids |
| Retrieval.DominanceWins | memory_retrieval.go:284-290 | a document that beats another on both lists gets a higher fused score under every tie-breaking, for constants that meet no rank, and for -1 with positive weights |
| Retrieval.DominanceExactly | memory_retrieval.go:284-290 | with positive weights this holds for every two lists of n documents if and only if the constant is at least -1 or below -n |
| Retrieval.LastBeatsFirst | memory_retrieval.go:284-290 | for any other constant, lists in which the last document beats the first |
| Retrieval.AbsenceOutranks | memory_retrieval.go:285-289 | a list gives an absent id strictly more than any present one if and only if the list's weight is positive |
| Retrieval.AbsenceCanWin | memory_retrieval.go:285-289 | a concrete pair of score maps, one document without text, in which absence wins the fusion |
| Retrieval.RankDocuments | memory_retrieval.go:199-228 | the results are `limit` documents, none lost or repeated, each with the lexical weight over constant plus lexical rank and the semantic weight over constant plus semantic rank as its score; unless scores may be NaN they are the best ones in descending order, dominance is respected, and of two documents at opposite places the list with the greater weight decides |
| Retrieval.FusionRankings | memory_retrieval.go:267-290 | every fusion comes from a ranking of each list, and each finite score is the sum of the two quotients |
| Retrieval.WeightDecides | memory_retrieval.go:284-290 | of two documents at the same two ranks in opposite order, the one that is first on the list with the greater weight scores strictly higher, for every constant of at least zero |
| SemanticCache.SemanticCache.Put | semantic_cache.go:85-102 | the Put step: the key's entry is replaced and stamped with the time |
| SemanticCache.SemanticCache.Get | semantic_cache.go:105-162 | the Get step: an unexpired entry above the threshold and as high as any, the first such in key order, or a miss when there is none; one hit or one miss is counted |
| SemanticCache.SemanticCache.Lookup | semantic_cache.go:118-151 | a live entry of maximal score strictly above the threshold, the first such in key order, or a miss when there is none |
| SemanticCache.AnswerIsUnique | semantic_cache.go:118-151 | there is only one right answer |
| SemanticCache.AnswerOnFields | semantic_cache.go:118-151 | the right answer in terms of times, lifetimes and scores of the stored entries |
| SemanticCache.LiveOnFields | semantic_cache.go:129-135 | an entry is seen if and only if its lifetime or its time is not positive or now is at most their sum |
| SemanticCache.PutIsFound | semantic_cache.go:85-162 | where nothing else scores above the threshold, Get finds an entry put at time t > 0 if and only if its lifetime is not positive or now is at most t plus it |
| SemanticCache.PutAddsSize | semantic_cache.go:212-262 | a new entry adds one to the count and its size to the memory in every report while it lasts |
| SemanticCache.SemanticCache.Delete | semantic_cache.go:165-168 | the Delete step |
| SemanticCache.SemanticCache.Clear | semantic_cache.go:171-209 | removes and counts all entries, expired ones too, and resets the counters |
| SemanticCache.SemanticCache.Stats | semantic_cache.go:212-262 | count and size of the unexpired entries, hits, misses, and a rate that times all lookups gives the hits |
| SemanticCache.SemanticCache.PurgeExpired | semantic_cache.go:265-310 | removes exactly the expired entries and counts them |
| SemanticCache.StepAlike | semantic_cache.go:85-310 | two caches with the same live entries give the same answers and stay alike |
| SemanticCache.PurgeAlike | semantic_cache.go:265-310 | a purge leaves a cache alike |
| SemanticCache.PurgingIsInvisible | semantic_cache.go:105-310 | over any run, purges at arbitrary points change no result of Get or Stats |
| SemanticCache.ClearSeesPurge | semantic_cache.go:171-209 | a purge before Clear changes Clear's count if and only if something had expired |
| ContextBuilder.TailDropTruncation | context_builder.go:183-197 | the loop with its early exit computes the kept prefix |
| ContextBuilder.TailKeptIsLongestPrefix | context_builder.go:183-197 | what is kept is the longest prefix that fits the budget |
| ContextBuilder.HeadDropTruncation | context_builder.go:200-224 | unchanged within the budget, otherwise what the greedy drop leaves |
| ContextBuilder.HeadKeptIsMaximalDrop | context_builder.go:206-221 | at most the overflow is dropped, and no kept section could have been dropped as well |
| ContextBuilder.HeadDropKeepsBudget | context_builder.go:206-221 | at least the budget is kept, and removing any one kept section as well would leave less |
| ContextBuilder.HeadDropIsSuffixExactly | context_builder.go:199-221 | the result is a suffix that starts behind the longest fitting head if and only if no later section still fits |
| ContextBuilder.HeadDropCanSkipTheHead | context_builder.go:199-221 | a concrete case, as Literal builds it, in which the head stays and a later section goes |
| ContextBuilder.ProportionalTruncation | context_builder.go:227-262 | each section scaled by the factor with its content cut within its string; for a negative budget one token and no content for each, or a panic if and only if some cut would be negative |
| ContextBuilder.ProportionalBounds | context_builder.go:238-262 | over budget, n sections end above budget - n and at most at the budget plus the number of shares that round to zero |
| ContextBuilder.ProportionalFitsExactly | context_builder.go:238-245 | it fits if and only if the number of sections with tokenCount * budget < total, times the total, is at most the sum of the remainders of tokenCount * budget by the total |
| ContextBuilder.LargeSectionsFit | context_builder.go:238-245 | it fits when every tokenCount * budget is at least the total |
| ContextBuilder.FittingNeedsRoom | context_builder.go:243-245 | it never fits with more sections than tokens in the budget |
| ContextBuilder.NegativeShare | context_builder.go:238-251 | under a negative budget a share is never positive, and negative if and only if the amount times the negated budget is at least the total |
| ContextBuilder.ScaleIsScaled | context_builder.go:238-256 | a scaled section keeps its name and priority, a prefix of its content of length the whole part of length times budget over total, and the whole part of its tokens times that, but at least one |
| ContextBuilder.CutOnFields | context_builder.go:227-262 | so every section of a proportional cut, in order; under a negative budget only name and priority are left, with one token |
| ContextBuilder.ProportionalCanOverrun | context_builder.go:242-245 | a concrete context, as Literal builds it, that ends at three times its budget |
| ContextBuilder.TotalOfPermutation | context_builder.go:119-129 | sorting does not change the token total |
| ContextBuilder.ContextQueryBuilder.Execute | context_builder.go:117-166 | sorts by ascending priority number, truncates if and only if the total exceeds the budget, makes of each section its proportional part under that strategy, reports the resulting total and how it relates to the budget, and panics if and only if a negative budget makes a proportional cut negative |

## Left out

- Traverse.Traverse: the store is one fixed graph during the call, Get and Scan do not fail, identifiers are slash-free.
- Retrieval.DominanceWins: for a negative constant nothing is claimed when it meets a rank of only one of two lists of different lengths, or when a weight is zero.
- Retrieval.BM25Scorer.Score: is stated for k1 > 0 and 0 <= b < 1 (the source uses 1.5 and 0.75).
- Retrieval.RankDocuments: starts from given score maps, one entry for every allowed document and semantic scores for those with text. A negative limit, on which the source panics, is excluded. When scores may be NaN (a constant of at most zero and a weight that is not positive) only a permutation is promised, since Go's sort promises no more.
- ContextBuilder.ContextQueryBuilder.Execute: a negative budget with the proportional strategy and sections that have no token at all makes the source convert a NaN to an integer, which Go leaves open; that case is excluded. The three text formats are not modelled.
- Similarity.CosineSimilarity: needs the second vector to be at least as long as the first, as the source's indexing does.
- Consolidation.OrderDoesNotMatter: and SecondRunChangesNothing assume that the truncated SHA-256 digest does not collide on the facts at hand.
- QueueTheorems.ServedFirst: assumes that the sequence counter does not wrap within one millisecond; EarlierComesFirst says what happens when it does.
- Wire.ReadListResponse: merges the two response readers, which differ in the key-length width (2 or 4) and in the wording of the truncation errors; the failure of a huge up-front allocation and 32-bit `int` are not modelled; error payloads are returned as bytes.
- Consolidation.Canonicalize: `sort.Slice` returns a new sequence here instead of permuting in place.
- PriorityQueue.PriorityQueue.FindTask: stands for the scans of getTask and updateTask, and for their iterator and IPC variants, which run the same loop; the variants of Purge are merged in the same way.
- Visibility timeout, dead-letter queue routing and the atomic multi-worker claim: named in comments or configuration, not implemented.
- JSON encoding, including values that decode as more than one kind of record, and marshalling errors.
- Store operations that fail, half-finished operations, and processes that interleave inside one method.
- Overflow of the six counters and of retries beyond the machine integer.
- Floating-point rounding; of the natural logarithm only its sign is used, positive above 1 and negative between 0 and 1.
- Task identifiers, random strings and clocks: parameters.
- `Add`, `AddWithContradiction`, `GetCanonicalFacts`, `Explain`: single store accesses.
- The tokenizer and the term-overlap cosine of the retriever, the allowed-set filters, and the storage of documents are not modelled: scores and tokens are inputs.
- The semantic cache's own cosine, which uses the library square root: a parameter. Cache names that contain a colon, whose prefixes can cover each other, are not modelled.
- The embedded database as the queue's store: its ScanPrefix has another result type than the one queue.go tests for.
- Sockets, gRPC, the foreign-function database, generated code, enum tables, error types, formats, extraction, traces and namespaces.
