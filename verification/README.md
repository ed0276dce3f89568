# A verified model of the hz_mq message broker

The broker keeps queues of messages, routes publishes to them through exchanges and bindings, mirrors each
durable queue in an append-only file, hands messages to consumers in turn, and runs its work on a pool of
threads. This project models that code in Dafny and proves what it keeps over whole runs, and, where the
code falls short of what its documents promise, exactly when the promise holds.

Each component has a state as a value, functions saying what each operation does to it, lemmas about
single steps and whole runs of those functions, and a class whose methods, loops included, are proved to do
what the functions say.

| file | component |
|---|---|
| `bytes.dfy` | byte strings, `find`, decimal numbers |
| `wire_codec.dfy` | the stored payload and its protobuf form |
| `deque.dfy` | the in-memory side of a queue |
| `log_file.dfy` | the file: frames, scanning, and the effect of each log operation |
| `log_refinement.dfy` | the log invariant, kept by every operation |
| `log_theorems.dfy` | refinement over runs, crashes, restarts, compaction |
| `log_limits.dfy` | how a removal destroys other messages, with a run for each way |
| `log_removals.dfy` | when a removal keeps the other messages, and the states around it |
| `queue_message.dfy` | the class `QueueMessage` over an in-place file stream |
| `route.dfy`, `route_amqp.dfy`, `topic_promise.dfy` | the topic matcher, its exact meaning, AMQP's, and where they agree |
| `host.dfy`, `broker.dfy`, `virtual_host.dfy` | the broker's operations, their properties, the class |
| `broker_limits.dfy` | states the broker reaches in which it breaks what its documents promise |
| `operations.dfy` | each broker operation's outcome, stated from exchange types, keys and messages alone |
| `delivery.dfy`, `message_ids.dfy` | FIFO order, conservation and generated ids over broker runs |
| `durability.dfy` | broker and log together |
| `consumers.dfy`, `channel.dfy` | round-robin choice and the delivery task |
| `queue_args.dfy` | the `k=v&k2=v2` form of queue arguments |
| `thread_pool.dfy`, `pool_monitor.dfy` | the worker pool as a step system, and as an object |

## How the model reads the code

* Strings are byte strings. `unordered_map` loops run in an arbitrary order: a parameter `order` where the
  outcome can depend on it, a free choice in the loop where it cannot.
* The stream of a message file is its bytes, one position and a state flag. Seeks and writes on a failed
  stream do nothing, `tellp` on one stores 2^64 - 1, and a short read fails the stream.
* A log is `Consistent` when its stream is good, its file is the gap-free list of frames of live and removed
  messages, and the live ones are the queue's stored messages at their recorded places. A log is
  `FullyStored` when in addition every message of the queue is stored. `Admissible` and `SizedRun` state the
  sizes the formats can express (payloads under 2^32 bytes, since the length prefix is cut to 32 bits, and
  files up to 2^63 - 1) and, for `Admissible`, compaction only while every message is marked valid.
* The matcher's words (`Words`) leave out an empty word after a final dot, as its loop does; AMQP's words
  (`Split`) are the parts between all dots, none for the empty string, whatever characters they hold.
* In the pool, what happens while the mutex is held is one step; each notification is a later step, and
  waits may end unasked. A publish, consume, ack or nack of the broker is one step.

## Where code and documents differ

The model follows the code.

* A durable message is promised to be on disk once written (`docs/requirements.md:27`,
  `docs/requirements.md:107`). `recovery` runs into end-of-file and leaves the stream failed, so after it no
  insert reaches the file until `get_stats` or `compact` resets the stream: `DurableInsertNeedsAGoodStream`,
  `FailedStreamFreezesTheFile`, `UnhealedQueuesGoBack`. One compaction anywhere heals a durable queue
  (`CompactionHealsTheRun`), statistics do if nothing was inserted or removed before
  (`StatsHealsUntouchedQueues`, `StatsHealTheRun`).
* A removal is promised to invalidate one message in the file (`docs/requirements.md:113`). From a restart on,
  over inserts, statistics, failed streams and compactions of marked messages, it does exactly if the message
  does not have the stale offset 2^64 - 1 that an insert on the failed stream leaves behind
  (`RemovalKeepsOthersIff`, `PlacedMessagesAreFound`); removing a stale one destroys the whole file, if it is
  under 160 megabytes (`StaleRemovalLosesTheFile`). After a compaction it does exactly if the message was marked
  or no marked one is behind it (`CompactedRemovalIff`), with under 3 megabytes behind an unmarked one.
* Deleting a queue is promised to delete its message file (`docs/requirements.md:101`). The file stays, and a
  durable queue of the same name starts with the messages in it (`DeletedMessagesComeBack`).
* `#` and `*` are promised their AMQP meaning (`docs/requirements.md:26`). For routing keys without a trailing
  dot, `PlainKeysIff` says which binding keys keep it; for all routing keys `AcceptsOnlyAmqpIff`,
  `AcceptsAllAmqpIff` and `TopicMatchIsAmqpIff` do. Even without wildcards a trailing dot on one side only
  makes a difference: binding key `a` takes routing key `a.`, and `a.` takes `a`.
* A publish is promised to reach every matching queue (`docs/requirements.md:89`). `publish_to_exchange` with
  properties writes the first queue's name into the routing key and so reaches one queue:
  `PublishReachesOneQueue`, `PublishReachesAllIff`, and `FanoutWithPropertiesMissesAQueue` for a state in which
  it misses one. `publish_ex` does reach them all.
* A rejected message is promised to be kept as a dead letter (`docs/requirements.md:119`).
  `DeadLetterIsKeptIff` says when it is; otherwise it is removed all the same (`DeadLetterIsLost`). Rejecting by
  the empty id dead-letters one message and removes another unless the front has no id
  (`EmptyIdNackTakesTheFront`, `EmptyIdNackLosesTheFront`).
* The acknowledgement sent after an automatic delivery finds its message gone already and can remove another
  one (`AutoAckRemovesNothingIff`, `AutoAckRemovesAnother`); with ids left to the broker it never does
  (`GeneratedIdsMakeAutoAckSafe`).

## Model

| member | source | states |
|---|---|---|
| LogTheorems.LogRefinesQueue | src/server/queue_message.hpp:91-256 | for every admissible run of inserts, removes, statistics and compactions from a consistent log, the deque is what the same run does to a plain queue, scanning the file as recovery does yields exactly the stored messages in deque order, and each stored offset and length cut out that message's own frame |
| LogTheorems.DurableQueueIsItsFile | src/server/queue_message.hpp:112-126 | when all inserts are durable, after every run, compactions included, recovery from the file returns the whole deque with its offsets |
| LogTheorems.RunRefines | src/server/queue_message.hpp:146-164 | for every run, good stream or failed, and any file, the deque is the one of a plain queue: the file never influences what is queued |
| LogRefinement.RunKeeps | src/server/queue_message.hpp:91-256 | consistency of file and deque is kept by every admissible run |
| LogRefinement.StepKeeps | src/server/queue_message.hpp:91-256 | each single operation keeps it |
| LogRefinement.InsertKeeps | src/server/queue_message.hpp:91-110 | a durable insert adds one live frame at the end of the file, any other insert leaves the frames as they were |
| LogRefinement.InvalidateKeeps | src/server/queue_message.hpp:128-144 | invalidating a stored message and erasing it from the deque leaves a file that mirrors the deque |
| LogRefinement.OverwriteInPlace | src/server/queue_message.hpp:135-143 | the in-place overwrite turns one frame's valid from "1" to "0", keeps that frame's length and leaves all bytes before and after it as they were |
| LogRefinement.OffsetsNameFrames | src/server/queue_message.hpp:107-108 | in a consistent log each stored message's offset and length delimit its own frame |
| LogRefinement.RecoveryFindsTheStored | src/server/queue_message.hpp:166-192 | recovery of a mirrored file returns exactly the stored messages with their places and never ends on a payload that does not parse |
| Deque.RemoveByEmptyId | src/server/queue_message.hpp:150-155 | removing by the empty id takes the front, whatever ids the messages have |
| Deque.RemoveById | src/server/queue_message.hpp:157-163 | removing by any other id takes the first message that has it, or none |
| LogRemovals.InsertAppends | src/server/queue_message.hpp:112-126 | an insert adds the message it is given behind the others, marked "1" exactly if it is durable and the file is open |
| LogRemovals.EmptyIdRemovesTheFront | src/server/queue_message.hpp:150-155 | in the log too the empty id takes the front and invalidates the front's frame; on a mirrored file recovery then finds the stored messages of the rest |
| LogRemovals.RemovalRewritesOneFrame | src/server/queue_message.hpp:128-164 | on a mirrored file a removal replaces the bytes of that message's frame by its frame with valid "0", changes no other byte, and recovery finds the stored messages of the rest |
| LogRemovals.GarbageEndsRecovery | src/server/queue_message.hpp:173-191 | a frame whose payload does not parse ends recovery with the live messages before it and the stream usable; the end of the file leaves it failed |
| LogRemovals.ClosedFileIsMemoryOnly | src/server/queue_message.hpp:94-133 | without an open file every operation changes the queue alone, inserts unmarked |
| LogTheorems.CrashAtomicity | src/server/queue_message.hpp:101-143 | stopping after any number of bytes of an append or of an in-place invalidation leaves a file that recovers to the list before the operation, or once the last byte is written, to the list after it |
| LogTheorems.PendingWriteIsTheStep | src/server/queue_message.hpp:101-143 | the write whose prefixes crash atomicity considers is the one the operation does |
| LogTheorems.TornAppend | src/server/queue_message.hpp:173-180 | a torn frame at the tail is ignored by the scan |
| LogTheorems.TornOverwrite | src/server/queue_message.hpp:135-143 | all but the last byte of an in-place invalidation are the bytes already in the file |
| LogTheorems.CrashRestartCompact | src/server/queue_message.hpp:166-256 | crash inside any write, restart and compact: the log is whole again and holds the stored messages from before the operation or from after it |
| LogTheorems.RestartResumes | src/server/queue_message.hpp:166-227 | a restart returns exactly the stored messages and leaves the stream failed; get_stats or compact before the next insert makes the log fully stored |
| LogTheorems.DurableInsertNeedsAGoodStream | src/server/queue_message.hpp:91-126 | a durable insert appends its message to what recovery finds if and only if the stream is good |
| LogTheorems.FailedStreamFreezesTheFile | src/server/queue_message.hpp:101-143 | on a failed stream no run of inserts, removes and refused compactions changes a byte of the file |
| LogTheorems.StatsHealsUntouchedQueues | src/server/queue_message.hpp:194-227 | after a restart and any such run, get_stats makes the log consistent if and only if the stored messages are still the recovered ones |
| LogTheorems.CompactionHeals | src/server/queue_message.hpp:229-256 | from any file and offsets compaction makes the file the gap-free frames of the deque with prefix sums as offsets; recovery returns the deque, and the log is consistent, if and only if every message is marked valid |
| LogTheorems.CompactionHealsTheRun | src/server/queue_message.hpp:166-256 | from any file, offsets and stream state, a run of durable inserts and removes with one successful compaction anywhere ends with file and queue the same list |
| LogTheorems.StatsHealTheRun | src/server/queue_message.hpp:194-227 | so does one that asks for statistics before the first insert or remove, if the file held the queue |
| LogTheorems.StatsCountTheStored | src/server/queue_message.hpp:209-220 | in a consistent log the frames counted minus the invalid ones are the stored messages |
| LogTheorems.EmptyFileIsFullyStored | src/server/queue_message.hpp:69-84 | a new queue with an empty file satisfies the premise of the run theorems |
| LogRemovals.RemovalKeepsOthersIff | src/server/queue_message.hpp:128-164 | in a state where the file is whole frames and every marked message of the queue stands in it or has the stale offset 2^64 - 1: recovery after removing a stored message on a good stream is recovery before without that message if and only if its offset is not stale or there was nothing to recover; under 167772160 bytes in the stale case |
| LogRemovals.RestartIsWhole | src/server/queue_message.hpp:166-192 | a restart from a file of whole frames is such a state |
| LogRemovals.WholeStep | src/server/queue_message.hpp:91-256 | inserts on a good or failed stream, statistics, compactions of marked messages and every removal except that of a stale message on a good stream keep it one |
| LogRemovals.PlacedMessagesAreFound | src/server/queue_message.hpp:91-256 | so from the restart of a consistent log, over every run of those, each marked message of the queue without a stale offset is found by recovery at its recorded place |
| LogLimits.StaleRemovalLosesTheFile | src/server/queue_message.hpp:101-143 | the failing half: removing on a good stream a message that kept the offset 2^64 - 1 makes recovery find nothing, whatever the file held, as long as it stays under 167772160 bytes |
| LogLimits.StaleOffsetLosesALaterInsert | src/server/queue_message.hpp:101-108 | a run from an empty file in which that happens through get_stats, and a later durable insert on the good stream is lost too |
| LogRemovals.CompactedRemovalIff | src/server/queue_message.hpp:128-251 | after a compaction, recovery after a removal is exactly the live messages before and behind the one removed if and only if that was marked or no marked one is behind it; with fewer than 3146014 bytes of frames behind an unmarked one |
| LogRemovals.MarkedRemovalKeepsTheRest | src/server/queue_message.hpp:128-251 | the holding half: removing a marked message from a compacted queue, unmarked ones among the others or not, keeps all others |
| LogLimits.UnmarkedRemovalLosesTheRest | src/server/queue_message.hpp:128-251 | the failing half: removing an unmarked one leaves recovery exactly the live messages in front of it |
| LogLimits.MixedCompactionLosesTheNextMessage | src/server/queue_message.hpp:240-251 | a run from an empty queue in which a durable message is lost so |
| WireCodec.PayloadRoundTrip | src/common/msg.proto:34-38 | parsing a serialised payload gives it back |
| WireCodec.PropertiesRoundTrip | src/common/msg.proto:11-31 | the fields of the properties read back to the properties, defaults left out included |
| WireCodec.SerializedForm | src/common/msg.proto:11-38 | the bytes of a payload are its fields under the tags of their numbers in the proto file, in order, empty ones left out |
| WireCodec.ValidIsTheLastByte | src/server/queue_message.hpp:135-139 | serialising with valid "0" instead of "1" changes the last byte only and keeps the length |
| WireCodec.Le32RoundTrip | src/server/queue_message.hpp:99-103 | the four header bytes read back to the length modulo 2^32 |
| LogRefinement.ScanFrames | src/server/queue_message.hpp:173-191 | scanning whole frames and then any tail yields the framed messages at their positions and then the scan of the tail |
| QueueMessage.QueueMessage.WritePersistent | src/server/queue_message.hpp:91-110 | the method marks the message valid, appends its frame if the stream is good, and records the offset and length, 2^64 - 1 on a failed stream |
| QueueMessage.QueueMessage.Insert | src/server/queue_message.hpp:112-126 | the method's new deque, bytes and stream state are the specified ones |
| QueueMessage.QueueMessage.InvalidatePersistent | src/server/queue_message.hpp:128-144 | the same for the in-place overwrite |
| QueueMessage.QueueMessage.Remove | src/server/queue_message.hpp:146-164 | the search loop removes the first message with the id, or the front for an empty id, and invalidates its frame |
| QueueMessage.QueueMessage.Recovery | src/server/queue_message.hpp:166-192 | the scan loop appends the valid messages of the file to the deque and leaves the stream failed unless it stopped at a payload that does not parse |
| QueueMessage.QueueMessage.GetStats | src/server/queue_message.hpp:194-227 | the scan loop counts all and invalid frames and resets the stream, changing neither deque nor file |
| QueueMessage.QueueMessage.Compact | src/server/queue_message.hpp:229-256 | the loop rewrites the file as the frames of the deque and re-offsets every message |
| Route.WordMatchExact | src/server/route.hpp:32-67 | for every key and pattern the loop's verdict is the existence of a match of the key's words where a `#` with a later other word takes exactly one word and a trailing `#` any number, or at most one before a trailing dot |
| Route.MatchSegments | src/server/route.hpp:32-67 | the two-index loop over raw strings returns that verdict on the words of key and pattern |
| Route.MatchRoute | src/server/route.hpp:17-74 | the result for each exchange type; headers exchanges fall to the default |
| Operations.TargetIff | src/server/virtual_host.cpp:212-245 | publish_to_exchange tries exactly the bound queues whose binding fits by the exchange's type: equal keys for direct, every one for fanout, the topic rule, or the header predicate on the message's own headers; key and headers are empty without properties |
| RouteAmqp.TrailingDots | src/server/route.hpp:36-44 | what AMQP says, in terms of the matcher's words: a trailing dot in the binding key asks for one in the routing key and both can be dropped, in the routing key alone it is one empty word more |
| RouteAmqp.TopicMatchIsSound | src/server/route.hpp:46-66 | an accept of the matcher is an accept under the AMQP 0-9-1 rule when both keys or neither end in a dot, and never when only the binding key does |
| TopicPromise.PlainKeysIff | src/server/route.hpp:32-67 | on all routing keys without a trailing dot matcher and AMQP agree if and only if each `#` of the binding key is followed only by `#`, or the binding key ends in a dot behind an empty word |
| TopicPromise.AcceptsOnlyAmqpIff | src/server/route.hpp:46-66 | over all routing keys the matcher accepts nothing AMQP rejects if and only if the binding key is empty or has only wildcards behind its last `#`, or ends in a dot behind an empty word |
| TopicPromise.AcceptsAllAmqpIff | src/server/route.hpp:46-66 | it rejects nothing AMQP accepts if and only if each `#` is followed only by `#` and the last other word, unless it is the only one, is neither `*` nor empty; for a binding key with a trailing dot, if and only if it has no `#` |
| TopicPromise.TopicMatchIsAmqpIff | src/server/route.hpp:32-67 | a binding key has its AMQP meaning for all routing keys if and only if both hold |
| RouteAmqp.SeparatorSeparates | src/server/route.hpp:46-66 | for a binding key with another word behind a `#`, the words, computed from it, of a routing key without trailing dot that AMQP accepts and the matcher rejects |
| RouteAmqp.DottedSeparatorSeparates | src/server/route.hpp:46-66 | the same for a binding key with a trailing dot and any `#` |
| RouteAmqp.StiffEndTakesNoMore | src/server/route.hpp:46-66 | a binding key with a word behind its last `#`, or without `#`, read as a routing key with one word more is rejected by AMQP |
| RouteAmqp.AcceptedKeysAreLongEnough | src/server/route.hpp:46-66 | an accepted key has a word for each pattern word up to the last that is not `#`, and before a trailing dot no more words than the pattern |
| RouteAmqp.WordsOfJoin | src/server/route.hpp:36-44 | splitting at dots undoes joining with dots when the last word is not empty |
| ThreadPool.NoLostWakeup | src/common/thread_pool.cpp:9-54 | in every reachable state with a queued task some worker is awake or a notification is due; while anyone sleeps there are no more tasks than awake checkers and due notifications; after stop nobody sleeps unless notify_all is due |
| ThreadPool.PushedAreAccepted | src/common/thread_pool.cpp:46-54 | over every run the tasks a pool accepts are exactly those of the run's pushes before its first stop, in order: a function of the steps alone |
| ThreadPool.TasksRunOnceInOrder | src/common/thread_pool.cpp:18-28 | in every reachable state the tasks taken are a prefix, in order, of the tasks pushed before stop, the queue is the rest, and pushed = queued + running + finished as multisets |
| ThreadPool.WorkIsBounded | src/common/thread_pool.cpp:15-31 | a pool left alone, stopping or not, takes at most a number of notification, check and finish steps fixed by its state |
| ThreadPool.QuietPoolIsDone | src/common/thread_pool.cpp:15-31 | a running pool in which none of these steps is possible has an empty queue and has finished each accepted task exactly once |
| ThreadPool.PoolGetsDone | src/common/thread_pool.cpp:15-31 | from every reachable state of a running pool some of them within the bound lead to an empty queue and each task pushed so far run exactly once |
| ThreadPool.StopIsFinal | src/common/thread_pool.cpp:46-54 | after stop no run accepts a task or takes stop back |
| ThreadPool.ShutdownStep | src/common/thread_pool.cpp:15-44 | after stop a measure falls with every step except ignored pushes, which change nothing |
| ThreadPool.ShutdownIsBounded | src/common/thread_pool.cpp:15-44 | however steps interleave, a stopping pool takes at most that many |
| ThreadPool.ShutdownNeverSticks | src/common/thread_pool.cpp:15-44 | a stopping pool with a worker left always has an enabled step that is not a push |
| ThreadPool.ExitMeansDrained | src/common/thread_pool.cpp:24-44 | once all workers of a pool that has any are gone, the queue is empty and each accepted task has finished exactly once |
| ThreadPool.AllPushedHaveRun | src/common/thread_pool.cpp:15-54 | in every reachable state in which all workers have left, each task pushed before stop has run exactly once |
| ThreadPool.ShutdownDrains | src/common/thread_pool.cpp:34-44 | from every reachable stopping state some steps within the bound end with all workers gone and each task pushed before stop run exactly once |
| ThreadPool.RunInv | src/common/thread_pool.cpp:9-54 | the invariant behind these is kept by every run |
| PoolMonitor.Monitor.constructor | src/common/thread_pool.cpp:6-32 | a new pool has the requested number of workers, else the hardware's, else one, all checking, and satisfies the invariant |
| PoolMonitor.Monitor.Push | src/common/thread_pool.cpp:46-54 | the locked part of push is the push step and a notification follows exactly if the pool was not stopping |
| PoolMonitor.Monitor.NotifyOne | src/common/thread_pool.cpp:53 | one sleeper, any one, is woken if there is one |
| PoolMonitor.Monitor.SetStop | src/common/thread_pool.cpp:36-39 | the pool is stopping and notify_all is due |
| PoolMonitor.Monitor.NotifyAll | src/common/thread_pool.cpp:40 | every sleeper and nobody else is woken |
| PoolMonitor.Monitor.Check | src/common/thread_pool.cpp:18-27 | the locked part of a worker's turn is the check step: sleep, leave or take the front task |
| PoolMonitor.Monitor.Finish | src/common/thread_pool.cpp:28 | the task has finished and its worker checks again |
| PoolMonitor.Monitor.Move | src/common/thread_pool.cpp:15-31 | any worker, whatever its state, or any push still to notify may be the next to move, each by its step |
| PoolMonitor.Monitor.Destroy | src/common/thread_pool.cpp:34-44 | the destructor returns with all workers gone and every accepted task run exactly once, however workers, pending notifications and unasked wake-ups interleave before notify_all and during the joins |
| Broker.RunInv | src/server/virtual_host.cpp:48-152 | over every run the message stores are exactly those of the declared queues, and every binding sits under its own exchange and queue, both existing |
| Broker.ReachableInv | src/server/virtual_host.cpp:23-43 | so in every state reachable from a broker without queues |
| Broker.StepInv | src/server/virtual_host.cpp:48-409 | each operation keeps that invariant, for every iteration order |
| Broker.DeclaredQueueIsReached | src/server/virtual_host.cpp:69-84 | a queue just declared matches its own name on the default exchange, where nothing else changes, and holds what its file held if it is durable and nothing if not |
| Broker.RedeclaringKeepsTheQueue | src/common/queue.cpp:72-87 | declaring an existing queue again changes neither its settings nor its messages |
| Broker.DeleteUndoesDeclare | src/server/virtual_host.cpp:69-110 | deleting a queue just declared restores exchanges, queues, messages and the bindings of every exchange |
| Broker.UnbindUndoesBind | src/server/virtual_host.cpp:125-152 | unbinding a new binding restores the bindings of every exchange |
| Operations.BindDecides | src/server/virtual_host.cpp:125-146 | a bind succeeds if and only if exchange and queue exist; afterwards its last key and arguments decide what fits that queue there, and no other pair is affected |
| Operations.UnbindDecides | src/server/virtual_host.cpp:148-152 | unbinding ends exactly what that binding let through |
| Operations.DeclaredExchangeIs | src/server/virtual_host.cpp:48-53 | declaring adds the exchange with its type, or changes nothing if the name is taken, and routes nothing new |
| Operations.DeletedExchangeIsGone | src/server/virtual_host.cpp:55-59 | a deleted exchange routes nothing, not even declared again with any type; all other routing stays |
| Operations.DeclaredDlqQueueIs | src/server/virtual_host.cpp:86-100 | a new queue with dead letters has the given settings, what its file held if durable and nothing if not, and no binding |
| Operations.DeletedQueueIsGone | src/server/virtual_host.cpp:102-110 | a deleted queue is gone from settings, stores and the routing of every exchange, and no other is affected |
| Broker.PublishReachesOneQueue | src/server/virtual_host.cpp:195-256 | with properties, the queues that gain a message are matching ones, each gains one addressed to it and no other queue changes; there is at most one of them, or two when no key is given and the first has the empty name; the final routing key names the last and the result says whether there is any |
| Operations.BasicPublishStores | src/server/virtual_host.cpp:163-193 | a message is stored if and only if the queue exists and its key is empty or names the queue; what is stored, the caller's properties and the id counter afterwards, field by field |
| Operations.PublishWithProperties | src/server/virtual_host.cpp:195-256 | with properties a queue gains a message if and only if its binding fits and the routing key names it, or there is no key and no named fitting queue comes before it; the message has the given fields, an id, and the queue's name as key; also what the caller's properties and the id counter become, delivered or not |
| Operations.PublishWithoutProperties | src/server/virtual_host.cpp:195-256 | without properties every queue whose binding fits an empty key and no headers gains a message with its name as key and no other field |
| Broker.SecondCopyIff | src/server/virtual_host.cpp:174-184 | two queues gain a message from it if and only if no key is given and the first match is a queue named by the empty string |
| Broker.PublishIgnoresTheOrder | src/server/virtual_host.cpp:226-255 | with a routing key given the outcome is the same for all iteration orders |
| Broker.PublishReachesAllIff | src/server/virtual_host.cpp:195-256 | every matching queue gains a message if and only if there are no properties, or the given key names every match, or no key is given and there is one match at most, or two of which the first has the empty name |
| Broker.PublishExReachesAll | src/server/virtual_host.cpp:258-290 | publish_ex adds exactly one copy at the tail of each matching bound queue, leaves every other queue as it is and assigns no id |
| Broker.PublishExSucceedsIff | src/server/virtual_host.cpp:275-289 | it reports success if and only if some bound queue matches |
| Operations.PublishExDelivers | src/server/virtual_host.cpp:258-290 | the key in the properties, or the argument if they have none, decides and is stored, the other fields are the caller's or empty; each bound queue whose binding fits it gains one copy, headers exchanges reach nobody, and the answer says whether any did |
| Broker.ConsumeIsRemoveByFrontId | src/server/virtual_host.cpp:293-305 | removing by the id of the front takes the front, whether ids are empty or repeated |
| Operations.AckByEmptyId | src/server/virtual_host.cpp:327-335 | an acknowledgement by the empty id takes the front of the queue, whatever the ids |
| Operations.AckById | src/server/virtual_host.cpp:327-335 | by another id it takes the first message with that id, or none |
| Operations.NackWithoutDeadLetters | src/server/virtual_host.cpp:337-357 | a requeueing nack and one for an unknown queue change nothing; without a dead-letter exchange a nack is an acknowledgement, of the front for the empty id |
| Operations.NackSendsLetters | src/server/virtual_host.cpp:359-397 | with one, the first message of the id leaves, or the front for the empty id, and letters with the next id, delivery mode 1, no headers and the body of the first message of the id go where a publish by the dead-letter key goes |
| Operations.NackOfUnknownId | src/server/virtual_host.cpp:373-375 | with one and no message of that id nothing changes |
| Broker.NackRejects | src/server/virtual_host.cpp:337-397 | for every id and a dead-letter exchange: without a message of that id nothing changes, else the letters carry the body of the first message with the id and a new id, the message that leaves is the one remove takes, and no other queue changes |
| Broker.DeadLetterConserves | src/server/virtual_host.cpp:337-397 | for a non-empty id exactly the first message with it leaves and a letter with its body and a new id goes to at most one matching queue, possibly the same, or to two when there is no key and the first has the empty name |
| Broker.DeadLetterIsKeptIff | src/server/virtual_host.cpp:337-397 | after rejecting a message of a queue with a dead-letter exchange some queue has gained a letter with the body of the first message of that id if and only if the exchange routes the dead-letter key to a queue of that name, or the key is empty and to any queue |
| Broker.LetterReceiversIff | src/server/virtual_host.cpp:385-393 | the answer of the letter's publish, which the code discards, and whether the letter has a receiver, are both that condition |
| Broker.EmptyIdNackTakesTheFront | src/server/virtual_host.cpp:363-396 | rejecting by the empty id removes the front while the letters carry the body of the first message without an id, wherever they go; that is the rejection of one message if and only if the front has no id |
| BrokerLimits.FanoutWithPropertiesMissesAQueue | src/server/virtual_host.cpp:174-256 | a reachable state with two queues on a fanout exchange in which every publish with properties, in every order, misses one |
| BrokerLimits.NamelessQueueGetsASecondCopy | src/server/virtual_host.cpp:174-256 | a reachable state in which a publish without a key reaches two queues, the first with the empty name |
| BrokerLimits.DeadLetterIsLost | src/server/virtual_host.cpp:385-396 | a reachable state in which the dead-letter exchange routes to two queues, the key names neither, and the rejected message is in no queue afterwards |
| BrokerLimits.AutoAckRemovesAnother | src/server/channel.cpp:50-70 | a reachable state with two messages of one id in which delivering the first and acknowledging it removes the second |
| BrokerLimits.EmptyIdNackLosesTheFront | src/server/virtual_host.cpp:363-396 | a reachable state, left by a publish and a publish_ex, in which rejecting by the empty id dead-letters the second message and leaves the first in no queue |
| VirtualHost.VirtualHost.BasicPublishTo | src/server/virtual_host.cpp:163-193 | id and routing key filled in on the caller's properties, another key refused, the message stored with the queue's durability |
| VirtualHost.VirtualHost.PublishOn | src/server/virtual_host.cpp:195-256 | the loop over the bindings, which changes the caller's properties as it goes, has the closed-form outcome the theorems are about |
| VirtualHost.VirtualHost.CopyToMatching | src/server/virtual_host.cpp:275-289 | the loop of publish_ex, in any order, gives each reached queue one copy |
| VirtualHost.VirtualHost.PublishExTo | src/server/virtual_host.cpp:258-290 | publish_ex as a set-based routing, and what becomes of the caller's properties |
| VirtualHost.VirtualHost.BindQueue | src/server/virtual_host.cpp:125-146 | a binding is added or replaced only if exchange and queue exist, the invariant is kept |
| VirtualHost.VirtualHost.DeclareQueueNamed | src/server/virtual_host.cpp:69-84 | a new queue gets its store and its default binding, an existing one keeps its data and is bound again |
| VirtualHost.VirtualHost.DeclareDlqQueueNamed | src/server/virtual_host.cpp:86-100 | the same with dead-letter data and without a default binding |
| VirtualHost.VirtualHost.DeleteQueueNamed | src/server/virtual_host.cpp:102-110 | store, data and all bindings of the queue go, nothing else |
| VirtualHost.VirtualHost.DeleteExchangeNamed | src/server/virtual_host.cpp:55-59 | the exchange goes together with its bindings |
| VirtualHost.VirtualHost.UnbindQueue | src/server/virtual_host.cpp:148-152 | that one binding goes, if it exists |
| VirtualHost.VirtualHost.BasicConsume | src/server/virtual_host.cpp:293-305 | the front message is returned and removed, whatever its id |
| VirtualHost.VirtualHost.BasicNack | src/server/virtual_host.cpp:337-397 | the search, the dead letter and the removal have the specified outcome |
| VirtualHost.VirtualHost.BasicQuery | src/server/virtual_host.cpp:399-409 | the first queue in iteration order that has messages loses its front, whose body is returned |
| Delivery.StepIsQueueRun | src/server/virtual_host.cpp:163-409 | what any broker operation does to any queue that stays declared is a run of puts, takes and drops |
| Delivery.FifoAtMostOnce | src/server/queue_message.hpp:112-164 | for every such run the messages taken come out in the order put, none twice and none still queued, and put = queued + taken + dropped as multisets of occurrences |
| Delivery.HandedIsDelivered | src/server/virtual_host.cpp:293-409 | what consume and query hand out of a queue is exactly what the operation's takes deliver |
| Delivery.QueryAnswers | src/server/virtual_host.cpp:399-409 | a query answers with the body of the one front message it hands out, or with nothing and no change |
| Delivery.AllHandedIsDelivered | src/server/virtual_host.cpp:293-409 | the same over every run, in order |
| Delivery.BrokerQueuesAreFifo | src/server/virtual_host.cpp:163-409 | so over every broker run the messages of a queue that consume and query hand out come in the order they were put, none twice and none still queued, and put = queued + handed out + dropped |
| MessageIds.RunKeepsGenerated | src/server/virtual_host.cpp:13-18 | over every run in which publishers leave ids to the broker, the ids in each queue are pairwise distinct numbers already generated |
| MessageIds.GeneratedIdsMakeAutoAckSafe | src/server/channel.cpp:50-70 | in those runs the automatic acknowledgement after a consume removes nothing |
| Channel.ConsumeTask | src/server/channel.cpp:50-70 | the delivery task takes the front, advances the queue's round, hands the message over and acknowledges it if asked to; without a consumer the message is lost |
| Channel.DeliverHandsOver | src/server/channel.cpp:50-70 | with a consumer the one whose turn it is gets the front, the turn passes on, and its id is acknowledged on the rest of the queue if the consumer asks for it |
| Channel.UndeliveredIsLost | src/server/channel.cpp:58-63 | without a consumer the front is taken and nobody gets it |
| Channel.NothingToDeliver | src/server/channel.cpp:52-57 | with an empty or unknown queue nothing changes and no turn passes |
| Channel.DeliveriesAreInOrder | src/server/channel.cpp:50-70 | with unique ids and consumers subscribed, k delivery tasks hand the first k messages, in queue order and each once, to the consumers in round-robin order, and leave the rest of the queue in place |
| Channel.AutoAckRemovesNothingIff | src/server/channel.cpp:66-69 | the automatic acknowledgement removes nothing if and only if the queue has become empty, or the message's id is non-empty and no other message has it |
| Durability.DurableQueuesSurvive | src/server/virtual_host.cpp:186-192 | for every broker run that keeps a durable queue, with statistics and compactions of its log at any points between, a restart recovers exactly the messages the broker had in that queue, in order, if the log starts fully stored or, from any file and stream state, is compacted at some point |
| Durability.RestartedQueuesSurvive | src/server/virtual_host.cpp:76-98 | the same for the log as declare_queue leaves it, recovered with its stream failed, if it is compacted at some point or asked for statistics before the first insert or remove |
| Durability.MaintenanceIsInvisible | src/server/queue_message.hpp:194-256 | statistics and compactions never change what a run does to the queue |
| Durability.UnhealedQueuesGoBack | src/server/virtual_host.cpp:76-98 | without either, whatever the run, the file does not change and the next restart brings back the messages of the last one |
| Durability.DeletedMessagesComeBack | src/server/virtual_host.cpp:69-110 | a queue deleted and declared again starts with all messages its file held if it is durable, and so empty if and only if it is not durable or nothing was stored |
| Consumers.RoundRobinIsFair | src/server/consumer.cpp:48-55 | from any index, in any number of consecutive choices, no consumer is served more than once more than another |
| Consumers.EveryRoundIsFair | src/server/consumer.cpp:48-55 | n consecutive choices among n consumers pick each once, from any index |
| Consumers.RoundIsARotation | src/server/consumer.cpp:52-53 | a round is the list rotated to the index, and returns to the index |
| Consumers.StaleIndex | src/server/consumer.cpp:36-54 | an index left past the end by a removal chooses like its remainder |
| Consumers.TagsStayDistinct | src/server/consumer.cpp:19-46 | tags stay pairwise distinct over every run of create, remove, choose and clear |
| Consumers.SubscribeAppends | src/server/consumer.cpp:19-34 | a tag in use is refused without change, a new one is added behind the others |
| Consumers.UnsubscribeTakes | src/server/consumer.cpp:36-46 | the first consumer with the tag goes, the others and the index stay |
| Consumers.UnsubscribeUndoesSubscribe | src/server/consumer.cpp:19-46 | removing a new consumer restores the ring |
| Consumers.QueueConsumer.Create | src/server/consumer.cpp:19-34 | a new tag is appended, a tag in use is refused without change |
| Consumers.QueueConsumer.Remove | src/server/consumer.cpp:36-46 | the consumer with the tag goes, the index stays |
| Consumers.QueueConsumer.RrChoose | src/server/consumer.cpp:48-55 | the chosen consumer and the index after it |
| Consumers.QueueConsumer.Exists | src/server/consumer.cpp:63-70 | true if and only if a consumer has the tag |
| Consumers.ConsumerManager.Create | src/server/consumer.cpp:94-110 | the request changes the ring of the named queue only, and nothing if there is none |
| Consumers.ConsumerManager.ChooseFrom | src/server/consumer.cpp:127-136 | the choice advances the ring of the named queue only |
| QueueArgs.RoundTripIff | src/common/queue.cpp:16-41 | parsing the printed arguments into an empty map gives them back, for every print order, if and only if no key holds '=' or '&' and no value '&' |
| QueueArgs.PrintJoins | src/common/queue.cpp:33-41 | one pair prints as key, '=' and value, none as nothing, and two lists of pairs with one '&' between them |
| QueueArgs.PrintParses | src/common/queue.cpp:16-41 | parsing them into any map adds exactly the printed entries, overriding |
| QueueArgs.ParsedIsPlain | src/common/queue.cpp:18-30 | parsing any string leaves a map without separators in keys and without '&' in values |
| QueueArgs.ParseConcat | src/common/queue.cpp:18-30 | parsing "a&b" is parsing a and then b, for all strings a and b |
| QueueArgs.ParsePiece | src/common/queue.cpp:21-27 | a piece without '&' sets the key before its first '=' to all behind it, or is ignored if it has no '=' |
| QueueArgs.MsgQueue.SetArgs | src/common/queue.cpp:16-31 | the loop terminates on every string and updates the map as specified |
| QueueArgs.MsgQueue.GetArgs | src/common/queue.cpp:33-41 | the loop prints the entries in iteration order, joined by '&' |

## Left out

- LogTheorems.LogRefinesQueue: runs that compact a queue holding messages not marked valid are shut out, because the code breaks the property there (`MixedCompactionLosesTheNextMessage`).
- LogTheorems.CrashAtomicity: a compaction is not a partial write of the open file but a rename, taken as one step; the operating system is taken to write the bytes of one operation in order.
- LogTheorems.CrashAtomicity: header maps are taken to serialise in the same order each time; protobuf does not promise that for two copies of a message, and then an in-place overwrite could differ in more than its last byte.
- Durability.DurableQueuesSurvive: the queue is not deleted during the run; deleting leaves the file behind, and what a later declaration finds in it is the parameter `onDisk`.
- LogRemovals.RemovalKeepsOthersIff: in the stale case says nothing of larger files, where the overwritten header announces a frame that may fit and the outcome depends on the bytes. The same holds for `CompactedRemovalIff` and the failing halves of both.
- MessageIds.GeneratedIdsMakeAutoAckSafe: the counter does not wrap at 2^64 and is not reset by a restart; queues start without recovered messages.
- Broker stores are values in the broker's class, with the file side in `QueueMessage` and joined in `Durability`; sharing of one message object between deque and caller is not modelled.
- Protobuf beyond these messages: repeated sub-messages are replaced rather than merged, fixed-width and group wire types, UTF-8 checks and limits on varint length are not modelled; properties fields 4 to 18 are carried along uninterpreted.
- Opening, re-opening and renaming files always succeeds except for `isOpen` and `tmpOpens`; full disks and a big-endian host are not modelled.
- The ratio in `get_stats` is a floating-point quotient of the two counts, which are modelled.
- `match_headers` is any predicate; exchange.hpp, exchange.cpp and message.hpp are not part of this model, the exchange manager is a map from name to type.
- The metadata store of queues is a stub in the code that accepts everything and remembers nothing, so a start-up finds no queues.
- Queue flags exclusive and auto_delete, arguments other than their text form, retries, expiry, priorities and clustering: stored or documented, but no code acts on them.
- `basic_consume_and_remove` repeats `basic_consume`; `basic_publish_queue` is declared without a body.
- Interleavings inside a broker call, and data races on the deque outside its mutex.
- Exceptions thrown by pool tasks, and tasks that never return: every task is taken to finish.
- Network, request handling, sockets, HTTP management, client, connection and channel maps, logging and the consumer's callback.
