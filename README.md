# Password-cracking coordinator (`Master`) in Dafny

This project models the coordinator actor of a distributed password cracker. The
coordinator reads password records in batches and breaks each record's hints into
cracking tasks, one per candidate alphabet. It hands those tasks to a pool of workers,
collects the decrypted hints, and once a record's hints are all decrypted it queues the
record itself for cracking. At the end of a hint reply or a password reply, when both
task queues are empty and no sweep raised, it asks the reader for the next batch.

The actor runs one message at a time, so it is modelled as a sequential state machine.
A class `Master` holds the actor's fields, and there is one method per message handler.
Each handler is proved against pure functions that describe one step: a sweep, a flag
release, the tasks of a batch, the records of a batch. The lemmas about those functions
carry the properties.

| file | module | what it holds |
|---|---|---|
| `lists.dfy` | `Lists` | `List.indexOf`-style first match and `List.remove(Object)` |
| `combinations.dfy` | `CharacterCombinations` | the candidate-alphabet generator and its properties |
| `password.dfy` | `Passwords` | the `Password` record class (hint arrays, shallow clone) |
| `dispatch.dfy` | `Dispatching` | messages, tasks, the worker lists, the dispatch sweep and its properties |
| `master.dfy` | `MasterActor` | the `Master` class and its handlers |

Behaviour the model keeps as the code has it:

- **Worker lists.** The worker list and the flag list are kept in parallel. `Terminated`
  shrinks only the worker list, so the lists can drift apart. After that:
  - a busy worker can be handed a task;
  - a sweep can take a task off the queue and then fail on `workers.get(i)`, losing the task.
- **Replies.** A hint or password reply that is recorded leaves the worker's flag set.
  Only the other paths free it.
- **Clone.** `clone` is shallow. A queued password task shares both hint arrays with the
  live record.
- **Re-queueing.** Every hint reply that finds a record resolved queues one more password
  task for it.
- **Map put.** `put` replaces an earlier record with the same ID.
- **Exceptions.** Each exception ends its handler and is reported as the handler's
  outcome, with the state as it was at the throw. The cases are:
  - the generator on a length it cannot reach raises `NegativeArraySizeException`;
  - a sweep past the end of `workers` raises `IndexOutOfBoundsException`;
  - an unknown hint raises `ArrayIndexOutOfBoundsException` when the ID is known and the
    sender is a listed worker;
  - a hint reply with an unknown ID raises `NullPointerException`.

## Model

| member | source | states |
|---|---|---|
| `Lists.IndexOf` | ddm-pc/src/main/java/de/hpi/ddm/actors/Master.java:240-247 | -1 exactly when the value is absent; otherwise a position holding the value with no earlier occurrence |
| `Lists.RemoveFirst` | ddm-pc/src/main/java/de/hpi/ddm/actors/Master.java:362 | `List.remove(Object)`. Nothing changes when the value is absent. Otherwise the list is one shorter, earlier elements stay, later ones move down one place, and exactly one copy leaves the multiset |
| `CharacterCombinations.Drop` | ddm-pc/src/main/java/de/hpi/ddm/actors/Master.java:371-377 | the copy loop's result: one character shorter, positions before `i` kept, later ones shifted down |
| `CharacterCombinations.GetCharacterCombinations` | ddm-pc/src/main/java/de/hpi/ddm/actors/Master.java:369-385 | fails exactly when the length is outside [0, \|alphabet\|). The list is the caller's list followed by `Combinations`, the recursive reference definition the lemmas below are about, so earlier entries are never altered |
| `CharacterCombinations.CombinationsOutOfRange` | ddm-pc/src/main/java/de/hpi/ddm/actors/Master.java:369-385 | for an unreachable length the generator appends nothing before it fails |
| `CharacterCombinations.CombinationLengths` | ddm-pc/src/main/java/de/hpi/ddm/actors/Master.java:378-383 | every appended candidate has exactly the password length |
| `CharacterCombinations.CombinationsAreSubsequences` | ddm-pc/src/main/java/de/hpi/ddm/actors/Master.java:371-383 | every appended candidate is an order-preserving subsequence of the alphabet |
| `CharacterCombinations.CombinationCount` | ddm-pc/src/main/java/de/hpi/ddm/actors/Master.java:371-384 | \|alphabet\|·(\|alphabet\|−1)···(length+1) candidates are appended, duplicates included |
| `CharacterCombinations.CombinationsDropOne` | ddm-pc/src/main/java/de/hpi/ddm/actors/Master.java:378-380 | with length \|alphabet\|−1 the i-th candidate is the alphabet without position i |
| `CharacterCombinations.CombinationsOfABCD` | ddm-pc/src/main/java/de/hpi/ddm/actors/Master.java:369-385 | ABCD with length 3 yields BCD, ACD, ABD, ABC in that order |
| `CharacterCombinations.CombinationsOfABCKeepDuplicates` | ddm-pc/src/main/java/de/hpi/ddm/actors/Master.java:369-385 | ABC with length 1 yields C, B, C, A, B, A: duplicates are not filtered |
| `Passwords.WithHint` | ddm-pc/src/main/java/de/hpi/ddm/actors/Master.java:443-446 | the first slot whose encrypted hint matches gets the value; every other slot and the length are unchanged |
| `Passwords.WithHintIdempotent` | ddm-pc/src/main/java/de/hpi/ddm/actors/Master.java:443-446 | recording the same hint twice equals recording it once |
| `Passwords.ResolvedPersists` | ddm-pc/src/main/java/de/hpi/ddm/actors/Master.java:443-456 | a resolved record stays resolved under further non-empty hint writes |
| `Passwords.NoHintsResolved` | ddm-pc/src/main/java/de/hpi/ddm/actors/Master.java:449-456 | a record without hints is resolved |
| `Passwords.TwoHintsResolveOnSecond` | ddm-pc/src/main/java/de/hpi/ddm/actors/Master.java:443-456 | with two hints the record becomes resolved exactly at the second write |
| `Passwords.Password.constructor` | ddm-pc/src/main/java/de/hpi/ddm/actors/Master.java:402-412 | fresh copied hint array, decrypted slots of the same length all "", decrypted password "" |
| `Passwords.Password.Clone` | ddm-pc/src/main/java/de/hpi/ddm/actors/Master.java:414-420 | equal field values, and both hint arrays shared with the original |
| `Passwords.Password.IndexOfEncryptedHint` | ddm-pc/src/main/java/de/hpi/ddm/actors/Master.java:434-441 | the first slot holding the hint, or -1 exactly when it is absent |
| `Passwords.Password.SetDecryptedHintAt` | ddm-pc/src/main/java/de/hpi/ddm/actors/Master.java:422-424 | writes one slot in bounds; out of bounds it fails and writes nothing |
| `Passwords.Password.AddDecryptedHint` | ddm-pc/src/main/java/de/hpi/ddm/actors/Master.java:443-446 | fails exactly when the hint is absent; the decrypted slots become `WithHint` of the old ones |
| `Passwords.Password.AllHintsDecrypted` | ddm-pc/src/main/java/de/hpi/ddm/actors/Master.java:449-456 | true exactly when no decrypted slot is "" |
| `Dispatching.SweepFrom` | ddm-pc/src/main/java/de/hpi/ddm/actors/Master.java:208-236 | the sweep keeps the flag list's length |
| `Dispatching.FreeFrom` | ddm-pc/src/main/java/de/hpi/ddm/actors/Master.java:211-212 | the free indices from `i` on, ascending, each really free |
| `Dispatching.Newly` | ddm-pc/src/main/java/de/hpi/ddm/actors/Master.java:216 | the indices a sweep turned from free to busy, ascending |
| `Dispatching.NewlyComplete` | ddm-pc/src/main/java/de/hpi/ddm/actors/Master.java:216 | every index a sweep turned from free to busy is listed by `Newly` |
| `Dispatching.Deliveries` | ddm-pc/src/main/java/de/hpi/ddm/actors/Master.java:214-215 | the t-th served worker receives the t-th task of the queue |
| `Dispatching.SweepFlags` | ddm-pc/src/main/java/de/hpi/ddm/actors/Master.java:211-219 | a sweep never frees a flag and leaves the flags before its start alone |
| `Dispatching.SweepAccounting` | ddm-pc/src/main/java/de/hpi/ddm/actors/Master.java:208-236 | on any lists: every flag set comes with one task, sent to the worker beside that flag. Tasks leave the queue front-first and go to ascending indices. An exception loses exactly one more task |
| `Dispatching.SweepAligned` | ddm-pc/src/main/java/de/hpi/ddm/actors/Master.java:208-236 | on aligned lists: no exception, and k = min(#free, \|queue\|). The first k tasks go in order to the first k free indices, exactly those k flags are set, and the rest of the queue stays |
| `Dispatching.SweepSaturates` | ddm-pc/src/main/java/de/hpi/ddm/actors/Master.java:208-236 | after an aligned sweep the queue is empty or every flag is set |
| `Dispatching.RequestBatchIfDrained` | ddm-pc/src/main/java/de/hpi/ddm/actors/Master.java:291-293 | a `ReadMessage` is appended exactly when no sweep raised and both queues are empty; nothing else changes |
| `Dispatching.Released` | ddm-pc/src/main/java/de/hpi/ddm/actors/Master.java:331-347 | exactly the flags below `n` whose worker is the sender are cleared |
| `Dispatching.SweepIdleWhenFull` | ddm-pc/src/main/java/de/hpi/ddm/actors/Master.java:211-212 | with no free flag a sweep changes nothing |
| `Dispatching.PasswordsFirst` | ddm-pc/src/main/java/de/hpi/ddm/actors/Master.java:349-350 | on aligned lists, password tasks still waiting mean the hint sweep sent nothing |
| `Dispatching.AlignedSweepNeverRaises` | ddm-pc/src/main/java/de/hpi/ddm/actors/Master.java:215 | `workers.get(i)` cannot fail while the worker list is at least as long as the flag list |
| `Dispatching.TerminationShiftsWorkers` | ddm-pc/src/main/java/de/hpi/ddm/actors/Master.java:362 | removing worker 1 from [1, 2] leaves worker 2 at index 0 |
| `Dispatching.TerminationHandsTaskToBusyWorker` | ddm-pc/src/main/java/de/hpi/ddm/actors/Master.java:208-220 | worker 2, though busy, now sits beside the free flag 0 and receives the next hint task |
| `Dispatching.TerminationLosesTask` | ddm-pc/src/main/java/de/hpi/ddm/actors/Master.java:213-217 | with one worker and two free flags, the second task leaves the queue and the sweep raises, so that task is lost |
| `MasterActor.HintTaskCount` | ddm-pc/src/main/java/de/hpi/ddm/actors/Master.java:172-177 | a record yields \|hints\|·\|combinations\| tasks |
| `MasterActor.HintTaskAt` | ddm-pc/src/main/java/de/hpi/ddm/actors/Master.java:172-177 | task h·\|combinations\|+c is hint h with candidate alphabet c (hint-major order) |
| `MasterActor.BatchTasksAppend` | ddm-pc/src/main/java/de/hpi/ddm/actors/Master.java:160-178 | each line's tasks go behind everything enqueued before it |
| `MasterActor.OneLineBatch` | ddm-pc/src/main/java/de/hpi/ddm/actors/Master.java:160-178 | one line enqueues its \|hints\|·\|combinations\| tasks |
| `MasterActor.BatchRegistry` | ddm-pc/src/main/java/de/hpi/ddm/actors/Master.java:160-171 | the IDs afterwards are the old IDs plus the lines' IDs; records under other IDs are untouched |
| `MasterActor.LastLineWins` | ddm-pc/src/main/java/de/hpi/ddm/actors/Master.java:168-171 | the last line with an ID decides that ID's record, which is new and has nothing decrypted |
| `MasterActor.PutRecord` | ddm-pc/src/main/java/de/hpi/ddm/actors/Master.java:171 | putting a fresh record changes the map's value under its ID only and keeps the records separate |
| `MasterActor.Master.constructor` | ddm-pc/src/main/java/de/hpi/ddm/actors/Master.java:46-57 | empty lists, queues and map; password length -1 |
| `MasterActor.Master.Sweep` | ddm-pc/src/main/java/de/hpi/ddm/actors/Master.java:211-219 | the loop's queue, flags, messages and exception are those of `SweepFrom` |
| `MasterActor.Master.SendDecryptHintMessage` | ddm-pc/src/main/java/de/hpi/ddm/actors/Master.java:208-220 | the new state is `SendHints` of the old one, that is, the sweep `SweepFrom` over the hint queue; the password queue is untouched |
| `MasterActor.Master.SendDecryptPasswordMessage` | ddm-pc/src/main/java/de/hpi/ddm/actors/Master.java:222-236 | the new state is `SendPasswords` of the old one, that is, the sweep `SweepFrom` over the password queue; the hint queue is untouched |
| `MasterActor.Master.AllWorkersAreFree` | ddm-pc/src/main/java/de/hpi/ddm/actors/Master.java:198-205 | true exactly when every flag is set, that is, when no worker is free |
| `MasterActor.Master.HandleRegistration` | ddm-pc/src/main/java/de/hpi/ddm/actors/Master.java:318-324 | the sender and a free flag are appended |
| `MasterActor.Master.HandleTerminated` | ddm-pc/src/main/java/de/hpi/ddm/actors/Master.java:360-364 | the first occurrence leaves `workers`; the flags are untouched |
| `MasterActor.Master.HandleWorkerAvailable` | ddm-pc/src/main/java/de/hpi/ddm/actors/Master.java:238-249 | an unknown sender changes nothing. Otherwise the first matching flag is freed, then the password sweep runs, then the hint sweep |
| `MasterActor.Master.EnqueueHintTasks` | ddm-pc/src/main/java/de/hpi/ddm/actors/Master.java:172-177 | the record's tasks `HintTasks` are appended, in the hint-major order `HintTaskAt` states |
| `MasterActor.Master.AddLine` | ddm-pc/src/main/java/de/hpi/ddm/actors/Master.java:163-177 | a new record built from the line is put under its ID, and nothing else in the map changes. The record and both of its hint arrays are fresh objects. Its tasks are appended |
| `MasterActor.Master.PutNewRecord` | ddm-pc/src/main/java/de/hpi/ddm/actors/Master.java:168-171 | the map gains the fresh record, with fresh hint arrays, under the line's ID; its value is `NewRecord` of the line |
| `MasterActor.Master.AddLines` | ddm-pc/src/main/java/de/hpi/ddm/actors/Master.java:160-178 | the records become `BatchRegistry` of the old ones. Every record in the map afterwards is either the old one under its ID or a fresh object with fresh hint arrays, and an ID no line carries keeps the very same object. The hint queue gains `BatchTasks`, the lines' tasks in order |
| `MasterActor.Master.Configure` | ddm-pc/src/main/java/de/hpi/ddm/actors/Master.java:150-157 | the length and alphabet come from the first line, and the generator's output is appended |
| `MasterActor.Master.DispatchBatch` | ddm-pc/src/main/java/de/hpi/ddm/actors/Master.java:183-194 | exactly one sweep runs, the password sweep if password tasks wait. Then the batch size and a print request go to the collector |
| `MasterActor.Master.HandleBatch` | ddm-pc/src/main/java/de/hpi/ddm/actors/Master.java:134-196 | An empty batch prints and terminates, leaving records, length, alphabet and combinations as they were. While the password length is still -1, the batch configures length and alphabet from its first line and appends the generator's output; an unreachable length fails. Otherwise the records become `BatchRegistry` and every new record is a fresh object. In every case an ID no line carries keeps the very same object. The tasks `BatchTasks` go behind the old ones, one sweep runs, then the collector messages |
| `MasterActor.Master.SendPasswordThenHintMessages` | ddm-pc/src/main/java/de/hpi/ddm/actors/Master.java:283-284 | `SendPasswordsThenHints`: the password sweep, then the hint sweep unless the first raised |
| `MasterActor.Master.RequestBatchIfIdle` | ddm-pc/src/main/java/de/hpi/ddm/actors/Master.java:291-293 | `RequestBatchIfDrained`: `ReadMessage` exactly when both queues are empty |
| `MasterActor.Master.RecordHint` | ddm-pc/src/main/java/de/hpi/ddm/actors/Master.java:260-273 | An unknown ID frees every flag of the sender. A known ID frees nothing, and when the sender is listed the hint is written into that record only; `ok` is false exactly when the sender is listed and the hint is absent. No other record changes |
| `MasterActor.Master.EnqueueClone` | ddm-pc/src/main/java/de/hpi/ddm/actors/Master.java:279-280 | a fresh clone with the record's value and both of its hint arrays is appended to the password queue |
| `MasterActor.Master.ScanWorkers` | ddm-pc/src/main/java/de/hpi/ddm/actors/Master.java:260-273 | the loop both reply handlers share. Without the stop condition every flag of the sender is freed (`Released`). With it, no flag changes, and the scan stops exactly when the sender is listed |
| `MasterActor.Master.StoreHint` | ddm-pc/src/main/java/de/hpi/ddm/actors/Master.java:264 | `addDecryptedHint` seen on the whole map: only that record's decrypted hints change, and they become `WithHint` of the old ones; fails exactly when the hint is absent |
| `MasterActor.Master.DispatchAfterHint` | ddm-pc/src/main/java/de/hpi/ddm/actors/Master.java:276-293 | A resolved record gets a fresh clone queued that shares both hint arrays, then both sweeps run. Otherwise only the hint sweep runs. Then comes the read request |
| `MasterActor.Master.HandleDecryptedHint` | ddm-pc/src/main/java/de/hpi/ddm/actors/Master.java:251-296 | An unknown ID frees the sender's flags, then fails with a null dereference. A listed sender with an absent hint fails, changing nothing. Otherwise the hint is written when the sender is listed. A resolved record gets a fresh, consistent clone queued that shares both hint arrays with it; then the sweeps and the read request follow |
| `MasterActor.Master.RecordPassword` | ddm-pc/src/main/java/de/hpi/ddm/actors/Master.java:331-347 | A known ID with a non-empty password from a listed sender is stored in that record only and reported to the collector, and frees nothing. Otherwise every flag of the sender is freed and no record changes |
| `MasterActor.Master.StorePassword` | ddm-pc/src/main/java/de/hpi/ddm/actors/Master.java:335 | `setDecryptedPassword` seen on the whole map: only that record's decrypted password changes |
| `MasterActor.Master.ReportPassword` | ddm-pc/src/main/java/de/hpi/ddm/actors/Master.java:335-340 | the password is stored in that record only, and the collector gets the report and a print request |
| `MasterActor.Master.HandlePasswordComplete` | ddm-pc/src/main/java/de/hpi/ddm/actors/Master.java:327-356 | the loop above, then the password sweep, the hint sweep and the read request |

## Left out

- Akka plumbing: the receive builder, `Props`, `watch`/`unwatch`, the reaper, supervision
  and restart after an exception. A `tell` becomes an entry in the `outbox`, and the
  receiver is implied by the message kind.
- `terminate`: one `Terminate` entry stands for the poison pills and the final hash-map
  dump.
- The `StartMessage` handler, `startTime`, elapsed-time reporting and every log call.
- Parsing: an input line arrives as a parsed `Line`. `Integer.parseInt` failures and lines
  with fewer than five fields are not modelled.
- The collector's message texts: `CollectBatchProcessed(size)` and
  `CollectDecryptedPassword(name, id, password)` carry the values that the formatted
  strings contain.
- The character arrays are values. The generator's `combination.clone()` copies, and the
  alphabet and candidate arrays are never written after creation, so no aliasing is lost.
- Actor references are natural numbers compared by equality. Java `int` overflow does not
  arise on the values the handlers compute.
- Both queues hold the one `Task` type. The model does not state as an invariant that the
  hint queue holds only hint tasks and the password queue only password tasks.
- `MasterActor.Master.HandleDecryptedHint` names the queued clone only through a ghost
  out-parameter. The clone's later observations of writes to the shared arrays follow from
  the array identity it states.
