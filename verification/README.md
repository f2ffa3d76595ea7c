# oekafka-wrapper: a verified model

A C wrapper around librdkafka, libserdes and Avro-C for OpenEdge programs. Two
parts of it are modelled and proved here.

**The shared reference counter of Avro-C** (`avro/refcount.h`). One 32-bit cell is
updated by `set`, `inc` and `dec`; -1 is a sticky value. The header offers several
implementations that are meant to be interchangeable. They are modelled as
interleaving transition systems over any number of threads (`machine.dfy`): a thread
has a program counter, an access of the cell is one atomic step, and a map says which
thread holds each live reference. The callers' discipline is part of the model: a call
is made by a thread that holds a reference and is in no other call, `inc` adds a
reference when it takes effect, `dec` gives one up, and `set` happens before sharing
(it is the same plain store in every backend, and is where a run starts).

* `counter.dfy`: the sequential counter that all backends promise.
* `refinement.dfy`: what it takes for a backend to be that counter, and what follows.
* `load_linked.dfy`, `progress.dfy`: the load-linked/store-conditional backend is the
  counter under every interleaving, saturates exactly, reports zero once, and any number
  of calls takes a bounded number of accesses.
* `check_then_add.dfy`, `check_then_add_account.dfy`, `sentinel_escape.dfy`: the backends
  that test the cell and then add (OS X, GCC and clang, x86, Windows: the same two accesses)
  are the counter exactly when nobody adds to a cell holding -1; then they saturate and
  report zero as promised. Without any condition, the cell is accounted for in every run,
  which says exactly when zero is reported. Callers that never have more than 2^32 - 2
  references get no false zero, and with one reference more there is a run that does.
* `plain.dfy`, `plain_overlap.dfy`: the backend without atomics is the counter for calls that
  do not overlap; any two calls that do can go wrong, unless the cell holds -1.
* `refcount_calls.dfy`, `calls_in_runs.dfy`: the code of one call, with its retry loop, run
  on the cell while other threads store to it; and every call of a run is such an execution,
  with the stores of that run.

**The static handles of the wrapper** (`oekafka-wrapper.c`). Each group of entry points
is a class with the static variables as fields and the C functions as methods. The
libraries are values that follow the contracts in their headers and record in `clean`
whether they were used as those contracts demand. Their answers are parameters: any
answer that the header allows, at any call, in any sequence of calls.

* `kafka_config.dfy`: the pending configuration and the two create functions.
* `schemas.dfy`, `serdes_handles.dfy`, `schema_ownership.dfy`, `value_classes.dfy`,
  `serdes_wrapper.dfy`: schema handles, value classes, the serdes and its configuration.
* `send.dfy`: the two functions that serialize and send.
* `last_message.dfy`: reading the last entry of a partition.

Where the code does not always meet its promise, the code is kept, the exact condition is
proved, and an input that the condition rules out is given:

| condition | failing input |
|---|---|
| `SentinelEscape.TruthfulExactlyUpToSlack`, `CheckThenAddAccount.TruthfulExactlyWhen` | `SentinelEscape.FreedJustAboveSlack` |
| `CheckThenAddBackend.RefinesCounterExactlyWhen` | `SentinelEscape.FreedWhileReferenced` |
| `PlainBackend.RefinesCounterWhenSerial` and its converse `PlainOverlap.OverlapHarmlessExactlyAtSentinel` | `PlainOverlap.OverlapBreaks`, `PlainBackend.OverlapReportsZeroTwice` |
| `KafkaConfig.CleanExactlyWhen` | `KafkaConfig.RefusedConfIsUsedAgain` |
| `SchemaOwnership.CleanExactlyWhenCareful` | `SchemaOwnership.SharedSchemaIsDestroyedTwice`, `SchemaOwnership.SecondCreateReusesConf` |
| `SerdesHandles.NoSerdesLeftExactlyWhen` | `SchemaOwnership.SecondCreateReusesConf`, whose first serdes is never destroyed |
| `ValueClasses.NothingLostExactlyWhen` | `ValueClasses.SecondRegistrationLosesClass` |
| `SendPaths.SendsAmountTo` | `SendPaths.UnmadeKeyIsSent`, `SendPaths.SendWithoutProducer` |
| `LastMessage.ReadsCleanExactlyWhen`, `LastMessage.SessionCleanExactlyWhen` | `LastMessage.FailedStopBreaksSession`, `LastMessage.FailedStartBreaksSession` |
| `LastMessage.LastEntryExactlyWhenFits`, `LastMessage.EmptyExactlyWhenNeverFilled` | inside their proofs, a partition with one entry appended after the query |

Assumptions: memory is sequentially consistent; 32-bit arithmetic wraps (also where C
leaves signed overflow undefined); a store-conditional fails only when another thread
stored since the load-linked. The PPC assembly is read as its comments and its return
contract intend: the operands literally name the address of the pointer parameter
(`avro/refcount.h:210` and `226`), and the comment at line 220 has the sense of the
result reversed. `serdes_schema_add` returns an identical cached schema again
(`serdes/serdes.h:182`); what "identical" compares is left open as an opaque identity.
A fresh object may be placed where a dead one was. `serdes_new` takes the conf it is given
in any case (`serdes/serdes.h:270-271` does not exempt a failed call). A session of reads
starts with the client handle that an earlier create left in `rkc`, which may be NULL.

## Model

| member | source | states |
|---|---|---|
| PlainBackend.PlainRefcount.Set | avro/refcount.h:61-65 | the cell holds the given value |
| PlainBackend.PlainRefcount.Inc | avro/refcount.h:67-73 | one increment of the sequential counter, sticky at -1 |
| PlainBackend.PlainRefcount.Dec | avro/refcount.h:75-83 | one decrement, and whether the decremented value is 0 |
| PlainBackend.RefinesCounterWhenSerial | avro/refcount.h:60-83 | access by access, calls of any threads that do not overlap leave the cell and return values of the sequential counter |
| PlainBackend.PlaySerialRun | avro/refcount.h:60-83 | the code, run alone on the calls that such a run logged, ends with the cell of that run and makes the same reports |
| PlainBackend.OverlapReportsZeroTwice | avro/refcount.h:75-83 | a run of two overlapping releases that both report zero, which is why this backend is not for threads |
| PlainOverlap.OverlapBreaks | avro/refcount.h:60-83 | from any idle state with a cell other than -1, any two calls of two threads that hold references have a schedule, of these two calls alone, after which the cell or a report is not the sequential one |
| PlainOverlap.OverlapHarmlessExactlyAtSentinel | avro/refcount.h:60-83 | every continuation of such a run agrees with the sequential counter when idle if and only if the cell holds -1 |
| Machine.OwnedAlways | avro/refcount.h:40-54 | in every state of every run each thread inside a call works on its own live reference |
| Machine.ProgramOrder | avro/refcount.h:40-54 | no call is lost, doubled or reordered: a thread's calls are those that took effect, in order, then the one in progress |
| Machine.NeedsReference | avro/refcount.h:236-260 | no step, not even one of a retry, happens without a live reference |
| Machine.ImmortalAlways | avro/refcount.h:67-260 | set to -1, the cell stays -1 in every backend under every interleaving, and no `dec` reports zero |
| Refinement.AtomicStepsRefine | avro/refcount.h:67-83 | if every step shows nothing or exactly one sequential operation, the cell and all return values are those of the sequential counter |
| Refinement.ZeroIsTheLastRelease | avro/refcount.h:48-54 | for a counter that counts: zero is reported by the release of the last reference, by no other call, and no thread takes a step after it |
| LoadLinkedBackend.ReservedAlways | avro/refcount.h:204-246 | in every state a thread with a reservation has read the current value, so a successful store loses no update |
| LoadLinkedBackend.EveryStepIsAtomic | avro/refcount.h:236-260 | every step is nothing or one sequential operation, and a call takes effect exactly at its successful store-conditional or at the load that reads -1; `prev == 1` agrees with "the decremented value is 0" |
| LoadLinkedBackend.RefinesCounter | avro/refcount.h:204-260 | any run, of any number of threads, has the cell and the return values of the sequential counter |
| LoadLinkedBackend.SaturatesExactly | avro/refcount.h:236-260 | the cell is the number of live references until that first reaches 2^32 - 1, and -1 for ever after; both directions |
| LoadLinkedBackend.ReportsZeroOnce | avro/refcount.h:249-260 | zero is reported if and only if all references are gone and the cell never saturated, by one last `dec`, after which no thread is in a call and the run is over |
| Progress.DoomedStep | avro/refcount.h:241-246 | a successful store takes the reservation of every other thread that has one, a failed one releases its own thread to retry, and nothing else changes whose store is bound to fail |
| Progress.RetriesBounded | avro/refcount.h:236-260 | failed stores are at most successful stores times the number of other threads |
| Progress.AccessDecreasesWeight | avro/refcount.h:236-260 | an explicit measure that every access of the cell decreases |
| Progress.AccessesBounded | avro/refcount.h:236-260 | over any run of any number of calls, whatever the schedule: accesses made plus the work left are at most 2 * threads for each call made |
| Progress.CallsFinish | avro/refcount.h:236-260 | n calls in progress take at most n*n + 2n accesses in any stretch without new calls, handing references on or not |
| Progress.CanAlwaysFinish | avro/refcount.h:236-260 | from any state of a run all calls in progress can be completed, by accesses alone and within the measure |
| CheckThenAddBackend.AtomicUnlessStale | avro/refcount.h:130-145 | a step is one sequential operation if and only if it does not add to a cell holding -1 |
| CheckThenAddBackend.RefinesCounterExactlyWhen | avro/refcount.h:130-145 | a whole run agrees with the sequential counter in every state if and only if no thread adds to a cell holding -1 |
| CheckThenAddBackend.SaturatesExactly | avro/refcount.h:130-145 | as long as no thread adds to -1: the cell is the number of live references until that first reaches 2^32 - 1, and -1 for ever after; both directions |
| CheckThenAddBackend.ReportsZeroOnce | avro/refcount.h:138-145 | as long as no thread adds to -1: zero is reported if and only if all references are gone and the cell never saturated, once, and nothing follows |
| CheckThenAddBackend.CountsWithinSlack | avro/refcount.h:172-193 | while at most 2^32 - 2 references are live the cell is their exact number, is never -1, and the run is one of the sequential counter |
| CheckThenAddBackend.CountsExactlyWithinSlack | avro/refcount.h:281-296 | that room is also necessary for an exact count |
| CheckThenAddBackend.CautionKeepsSlack | avro/refcount.h:99-105 | callers that start an `inc` only while live references plus increments in progress leave room never exceed the bound |
| CheckThenAddBackend.ReportsZeroOnceWithinSlack | avro/refcount.h:107-114 | within the bound, zero is reported if and only if all references are gone, once, and nothing follows |
| CheckThenAddAccount.CellIsAccountedFor | avro/refcount.h:130-145 | in every run, without a condition: the cell, read as unsigned, is the number of live references less those that calls at -1 did not count, less 2^32 for each time it went round |
| CheckThenAddAccount.ReportsZeroExactlyWhen | avro/refcount.h:138-145 | in every run, a step reports zero if and only if it is the addition of a `dec` that leaves just as many references live as the cell does not show |
| CheckThenAddAccount.TruthfulExactlyWhen | avro/refcount.h:138-145 | a run reports no zero while references are live if and only if the cell shows all of them at each such step |
| SentinelEscape.TruthfulExactlyUpToSlack | avro/refcount.h:130-145 | for every bound n on the live references: all runs within it report zero only when none is live, if and only if n <= 2^32 - 2 |
| SentinelEscape.FreedJustAboveSlack | avro/refcount.h:130-145 | a run from one reference that never has more than 2^32 - 1 live, in which a `dec` reports zero with 2^32 - 2 live |
| SentinelEscape.FreedWhileReferenced | avro/refcount.h:130-145 | a run from one reference, obeying the ownership discipline, in which two increments carry the cell past -1 and a `dec` reports zero with 2^32 references live |
| RefcountCalls.Cell.LoadLinkedInt | avro/refcount.h:204-214 | reads the cell and takes the reservation |
| RefcountCalls.Cell.StoreConditionalInt | avro/refcount.h:216-229 | stores and returns non-zero exactly when the reservation still stands |
| RefcountCalls.Cell.IncLoadLinked | avro/refcount.h:237-247 | the retry loop ends, retries only after another thread's store, and performs one increment of the value it settles on |
| RefcountCalls.Cell.DecLoadLinked | avro/refcount.h:249-260 | the same for one decrement, reported truthfully |
| CallsInRuns.CallRunsTheLoop | avro/refcount.h:236-260 | every call of every load-linked run is an execution of that loop: the stores made meanwhile, split over its rounds, settle it in one round, and the run gets the operation and the report of the value found there |
| RefcountCalls.Cell.IncCheckThenAdd | avro/refcount.h:130-136 | with other threads' stores in between, one sequential increment exactly when the cell is not -1 at the addition |
| RefcountCalls.Cell.DecCheckThenAdd | avro/refcount.h:138-145 | the same for one decrement; the report is the sequential one in either case |
| CallsInRuns.CallTestsThenAdds | avro/refcount.h:130-145 | every call of every check-then-add run is an execution of these two: with the values that others put in the cell in that run before the test and before the addition, the run gets the new cell and the report that the code gives |
| KafkaConfig.Wrapper.AddToConfig | oekafka-wrapper.c:87-102 | allocates a conf if there is none, sets the property, destroys the conf but keeps the pointer on refusal; returns 0 if it was accepted, -1 if the value and -2 if the name was refused |
| KafkaConfig.Wrapper.CreateConsumer | oekafka-wrapper.c:105-120 | hands the conf with its settings over on success, keeps it on failure; returns 0 exactly on success |
| KafkaConfig.Wrapper.CreateProducer | oekafka-wrapper.c:122-135 | the same for a producer |
| KafkaConfig.Isolation | oekafka-wrapper.c:87-135 | over any calls that stop at a refused setting, each client is configured by exactly the settings added since the previous successful create, in order; a failed create keeps them; no conf is used twice or leaked |
| KafkaConfig.CleanExactlyWhen | oekafka-wrapper.c:97-99 | librdkafka is never given a dead conf if and only if no configuration call follows a refused setting |
| KafkaConfig.RefusedConfIsUsedAgain | oekafka-wrapper.c:97-99 | a possible run that fails: a refused setting, then any call |
| KafkaConfig.HandlesFollowCreates | oekafka-wrapper.c:105-135 | each client variable holds the result of the latest create of its kind, NULL after a failed one |
| KafkaConfig.Wrapper.Play | oekafka-wrapper.c:87-135 | for any sequence of the three methods above: clean if and only if the caller calls nothing after a setting that returned something else than 0, then the isolation property, and the client variables in any case |
| SerdesWrapper.Wrapper.CreateSerdesConf | oekafka-wrapper.c:368-382 | stores the new conf or NULL; 0 exactly on success |
| SerdesWrapper.Wrapper.AddToSerdesConfig | oekafka-wrapper.c:449-467 | 1 without a library call if there is no conf; otherwise the library's code, and a refused setting gives the conf back and clears the pointer |
| SerdesWrapper.Wrapper.CreateSerdes | oekafka-wrapper.c:384-394 | gives the conf to the library but keeps the pointer; stores the new serdes or NULL; 0 exactly on success |
| SerdesWrapper.Wrapper.DestroySerdes | oekafka-wrapper.c:396-447 | releases key, value and offset slots in that order, each class before its schema, then destroys the serdes; all seven variables are NULL, the serdes is not live, and the class references are given back |
| SerdesWrapper.Wrapper.RegisterValueSchema | oekafka-wrapper.c:470-501 | destroys the old schema, adds the new one, replaces the class; the cache, the class references and the codes 0, 1 and 2 after it |
| SerdesWrapper.Wrapper.RegisterKeySchema | oekafka-wrapper.c:504-528 | the same without a class |
| SerdesWrapper.Wrapper.RegisterOffsetSchema | oekafka-wrapper.c:530-560 | the same for the offset slot |
| SchemaOwnership.CarefulRunsBalance | oekafka-wrapper.c:396-560 | in every state of a careful run the live schemas are exactly the contents of the slots, each in one slot |
| SerdesHandles.SerdesAccountedFor | oekafka-wrapper.c:384-438 | with any library answers, the live serdes handles are the one in the variable and those that a later create overwrote, said from the calls |
| SerdesHandles.NoSerdesLeftExactlyWhen | oekafka-wrapper.c:384-438 | no serdes is live after `wrapper_destroy_serdes` if and only if each create found its variable NULL |
| SerdesHandles.ConfsAccountedFor | oekafka-wrapper.c:368-467 | with any library answers, the live confs are the one in `sconf`, unless it is NULL or a serdes took it, and those that a second create or a destroy dropped before; a refused setting gives its conf back |
| SerdesHandles.LeftAfterDestroy | oekafka-wrapper.c:396-447 | what is live after any calls and a destroy: the overwritten serdes, and the confs that no serdes took |
| SerdesHandles.ConfLiveUnlessSpent | oekafka-wrapper.c:368-467 | the conf in `sconf` is still owned exactly unless a serdes was created with it |
| SchemaOwnership.CleanExactlyWhenCareful | oekafka-wrapper.c:368-560 | any calls closed by `wrapper_destroy_serdes` use only live handles if and only if no conf was used after it was given to a serdes, each registration had a serdes and none succeeded while another slot held an identical schema; then no schema is left live |
| SchemaOwnership.SecondCreateReusesConf | oekafka-wrapper.c:384-394 | a possible run that fails: one conf, two creates |
| SchemaOwnership.SharedSchemaIsDestroyedTwice | oekafka-wrapper.c:400-418 | a possible run that fails: one schema registered for keys and for values, then destroyed |
| SchemaOwnership.DestroyIsIdempotent | oekafka-wrapper.c:396-447 | destroying twice is destroying once, from any state |
| ValueClasses.ClassesAccountedFor | oekafka-wrapper.c:407-425 | with any library answers, the outstanding class references are those of the two variables plus those a later registration overwrote |
| ValueClasses.NothingLostExactlyWhen | oekafka-wrapper.c:490-549 | no class reference is outstanding after the destroy if and only if no registration replaced a class that an earlier one had obtained for its slot since the last destroy |
| ValueClasses.SecondRegistrationLosesClass | oekafka-wrapper.c:490 | a possible run that fails: a value schema registered again, whose first class stays outstanding |
| ValueClasses.NothingLostWhenRegisteredOnce | oekafka-wrapper.c:490-549 | in particular none is, if each slot is registered at most once per destroy |
| SerdesWrapper.Wrapper.Play | oekafka-wrapper.c:368-560 | the results (`CleanExactlyWhenCareful`, `ClassesAccountedFor`, `LeftAfterDestroy`) for any sequence of the methods above, closed by a destroy |
| SendPaths.SendAmountsTo | oekafka-wrapper.c:697-869 | with any library answers and variables: every buffer is freed once, the key value is given back once, the message is accepted exactly when 0 is returned and there is a producer, and nothing is misused if and only if the key was made and each step found the schema, instance and producer it needs |
| SendPaths.SendsAmountTo | oekafka-wrapper.c:697-869 | over any sequence of sends the heap is conserved, the producer accepted exactly the messages of the calls that returned 0 while there was one, in order, as serialized in that call, and nothing is misused if and only if every send found what it needs |
| SendPaths.UnmadeKeyIsSent | oekafka-wrapper.c:708-718 | a possible call that fails: the key value could not be made, is serialized all the same, and 0 is returned |
| SendPaths.SendWithoutProducer | oekafka-wrapper.c:759-764 | a possible call that fails: there is no producer |
| SendPaths.Wrapper.SerialiseAndSendMessage | oekafka-wrapper.c:697-796 | the code is 1 or 2 for the step that failed and otherwise the producer's; a message is accepted exactly on 0 with a producer, made of the topic, the key as given under the key schema, and the value instance under the value schema; nothing else is left behind; and when nothing is misused |
| SendPaths.Wrapper.SerialiseAndSendOffset | oekafka-wrapper.c:798-869 | the same with the offset schema and instance |
| SendPaths.Wrapper.Play | oekafka-wrapper.c:697-869 | the result over sequences carried to the two methods |
| LastMessage.Wrapper.GetLastMessage | oekafka-wrapper.c:172-293 | by the answers: what is returned on each path, in particular the last entry when nothing fails and it can be read; what is left in `rkt` and in the library; and when the contract is kept |
| LastMessage.LastEntryIsReturned | oekafka-wrapper.c:221-293 | if nothing fails, the library delivers, high <= 2^31 and the last entry as of the query did not expire, then that entry is returned |
| LastMessage.ReturnsByOutcome | oekafka-wrapper.c:194-292 | NULL, the local error, an error message or an entry: which one, for every combination of answers |
| LastMessage.LeavesByOutcome | oekafka-wrapper.c:194-292 | `rkt`, the topic references, the topics being consumed and the contract, for every combination of answers |
| LastMessage.ResultIsLastEntry | oekafka-wrapper.c:221-293 | with low < high <= 2^31, a returned message is the entry at offset high-1 as of the query, whatever is appended before the consume, if that entry did not expire |
| LastMessage.LastEntryExactlyWhenFits | oekafka-wrapper.c:240-244 | that holds for all later states of the partition if and only if high-1 fits the 32-bit `seek_offset` |
| LastMessage.TruncationReadsOlder | oekafka-wrapper.c:240-244 | if it does not fit and the truncated offset is retained, the entry read is older by a positive multiple of 2^32 |
| LastMessage.EmptyExactlyWhenNeverFilled | oekafka-wrapper.c:231-238 | for an empty partition no message is sure to be returned if and only if its high watermark is 0 |
| LastMessage.CallAmountsTo | oekafka-wrapper.c:208-290 | a started consumer is stopped unless the stop fails, the topic handle is given back unless the query failed, and exactly when a call breaks the contract: no client, no topic handle, or a start on a topic that is still being consumed |
| LastMessage.ReadsCleanExactlyWhen | oekafka-wrapper.c:172-293 | over any reads: the contract is kept if and only if there is a client, topic handles were obtained, and no read started on a topic where an earlier stop had failed; which references remain and which topics are still being consumed |
| LastMessage.SessionCleanExactlyWhen | oekafka-wrapper.c:54-69 | over any reads followed by `wrapper_destroy_consumer`: the contract is kept if and only if there is a client, topic handles were obtained, no stop failed, and the last read did not fail to start, unless a failed query had kept the same handle; and which references remain |
| LastMessage.FailedStopBreaksSession | oekafka-wrapper.c:277-286 | a possible session that fails: after a failed stop another topic can be read, the same one cannot, and the destroy comes with a consumer running |
| LastMessage.FailedStartBreaksSession | oekafka-wrapper.c:246-254 | a possible session that fails: after a failed start `rkt` dangles and the destroy uses it |
| LastMessage.Wrapper.DestroyConsumer | oekafka-wrapper.c:54-69 | gives the topic handle back if there is one, destroys the client, clears both |
| LastMessage.Wrapper.PlaySession | oekafka-wrapper.c:172-293 | the session result for any sequence of the two methods above |
| Int32s.WrapDropsMultiples | oekafka-wrapper.c:240 | the conversion to `int` differs from the 64-bit offset by a multiple of 2^32 |
| Int32s.StepsWrap | avro/refcount.h:67-83 | adding and subtracting one are that conversion of the exact result, and undo each other |

## Left out

- Weak memory, spurious failures of a store-conditional, 64-bit `int` targets and the text of the inline assembly.
- The internals of librdkafka, libserdes and Avro-C: only what their headers promise is used.
- A conf, serdes or client handle overwritten by a second create, or a conf forgotten by `wrapper_destroy_serdes` before a serdes took it: the object stays live in the library, which is not counted as a misuse (for confs and serdes, `SerdesHandles` says which ones).
- The topic conf that `wrapper_get_last_message` leaves allocated when a setting of it is refused (`oekafka-wrapper.c:194-199`).
- That `rkc` is used with both consumer interfaces of librdkafka (`rd_kafka_consume_start` here, `rd_kafka_poll_set_consumer` and `rd_kafka_consumer_close` at the create and the destroy), although `rdkafka/rdkafka.h:2660-2661` allows one for a handle.
- Subscribing, polling, seeking, flushing, the plain produce functions and the deserializing getters: they forward to one library call.
- The statement `wrapper_get_last_message` returns the address of its own local on every error path (`oekafka-wrapper.c:195-197`); the model returns `LocalError` for it and says nothing about reading it.
- A message that was consumed before a failed stop is dropped by the code and not tracked further.
- The missing final return of `wrapper_extract_key_and_value`, error strings, printing and timeouts.
- PlainBackend.RefinesCounterWhenSerial: covers calls that do not overlap, because overlapping calls of this backend do lose updates (`PlainOverlap.OverlapBreaks`).
- Creating, filling and destroying the two value instances (`oekafka-wrapper.c:562-695`): they are inputs of the send paths, and whether the one in the variable was destroyed or overwritten is not tracked. The account would be that of the value classes once more.
- SerdesWrapper.Wrapper.DestroySerdes: the body is split into one method per slot and one for the handles; the C function has them inline.
- LastMessage.Wrapper.GetLastMessage: the part from the start of the consumer on is a method of its own; the C function has it inline.
