# TaskMultiplexer in Dafny

A model of `TaskMultiplexer<TKey, T>`, the request coalescer of the
TaskMultiplexer library, and proofs about it. The multiplexer keeps a
registry (`Tasks`) from each key to the shared in-flight computation for
that key. A single-key request joins the computation already registered for
its key or installs a new one. A batch request installs one new computation
for all of its keys that nobody owns yet, joins the owners of the others,
and merges the results. A computation evicts the keys it owns when it
settles, on success and on failure alike, so nothing is cached.

The model is a sequential state machine. The class
`TaskMultiplexing.TaskMultiplexer` holds three fields:

- the registry, a `map` from key to entry identity;
- the table of entries, where an entry is one `Lazy<Task<...>>` of the
  source and its identity is its index;
- the log of factory calls, which plays the part of the tests' invocation
  counters.

Every public call is split into the atomic steps other callers can
interleave with:

- `BeginSingle` and `BeginBatch` are the install steps. `BeginBatch` is
  made of `CreateBatch`, the install loop `InstallKeys` with its per-key
  step `Offer`, and the `SetResult` step `Arm`, which closes the loop;
- `SettleSingle` and `SettleBatch` run a factory and evict the owned keys;
- `FinishSingle` and `FinishBatch` are the awaiting caller reading the
  settled outcome.

The invariant `Consistent` ties the three fields together. It says:

- a key is registered exactly when a pending entry owns it, and then to
  that entry;
- only an armed entry settles, and a batch entry is armed only with some
  key and only once it is closed, that is once its install loop has ended
  and its key list is final. A closed entry is never offered keys again;
- the factory log holds at most one call per entry, only for a settled
  entry, and with that entry's own argument.

Every step method (`BeginSingle`, `SettleSingle`, `CreateBatch`, `Offer`,
`InstallKeys`, `Arm`, `BeginBatch`, `SettleBatch`) preserves it. `Remove` and `RemoveKeys`
are the bare registry removals the settle steps use; they do not keep the
invariant on their own.

Files:

- `wrappers.dfy`: `Option` (None is the source's `default`) and `Result`
  (Failure is a propagated exception).
- `registry.dfy`: the registry primitives as functions, and the fold that
  specifies the batch install loop.
- `task_multiplexer.dfy`: entries, the invariant and the multiplexer class.
- `scenarios.dfy`: the repository's test scenarios and other behaviours,
  each one concrete interleaving with its outcome proved.

A batch request does not deduplicate its keys (TaskMultiplexer.cs:23-43).
On a repeated key that the call won, the second `GetOrAdd` returns the
call's own entry, so the key is appended to `newKeys` again. The batch
factory then receives it as often as it was requested.
`Registry.UnregisteredAllFresh` and `Scenarios.RepeatedKeyReachesFactoryTwice`
state this. A repeated key registered to another entry is joined each time,
is recorded once in `existingValuesTasks` (TaskMultiplexer.cs:51), and never
reaches this call's factory.

## Model

| member | source | states |
|---|---|---|
| Registry.GetOrAdd | src/TaskMultiplexer/TaskMultiplexer/TaskMultiplexer.cs:15 | insert-if-absent: the key ends up registered to the returned entry; a registered key returns its entry and leaves the registry unchanged; an absent key gets the candidate, adding only that key; no existing mapping changes |
| Registry.TryRemove | src/TaskMultiplexer/TaskMultiplexer/TaskMultiplexer.cs:117-120 | the key is gone afterwards, every other mapping is kept, and removing an absent key is a no-op |
| Registry.UnregisteredMembers | src/TaskMultiplexer/TaskMultiplexer/TaskMultiplexer.cs:34-44 | a key is among the won keys exactly when it was requested and was not registered |
| Registry.UnregisteredAllFresh | src/TaskMultiplexer/TaskMultiplexer/TaskMultiplexer.cs:34-44 | when no requested key is registered, the won keys are the whole request in order, with repetitions kept |
| Registry.UnregisteredEmpty | src/TaskMultiplexer/TaskMultiplexer/TaskMultiplexer.cs:34-57 | a batch call wins nothing exactly when every requested key is already registered |
| Registry.PartitionIsExact | src/TaskMultiplexer/TaskMultiplexer/TaskMultiplexer.cs:34-53 | after the install loop: `newKeys` is the unregistered requested keys in order with repetitions; a requested key is won exactly when it is not in `existingValuesTasks`; that map holds exactly the requested keys that were registered, each with its owner; the registry gains exactly the won keys, mapped to the call's entry, and keeps every old mapping |
| TaskMultiplexing.OneComputationPerKey | src/TaskMultiplexer/TaskMultiplexer/TaskMultiplexer.cs:11-15 | under the invariant, two pending entries never own the same key |
| TaskMultiplexing.JoinKeepsConsistent | src/TaskMultiplexer/TaskMultiplexer/TaskMultiplexer.cs:15 | a single-key `GetOrAdd` with a fresh entry keeps the invariant, whether it joins or installs |
| TaskMultiplexing.CreateKeepsConsistent | src/TaskMultiplexer/TaskMultiplexer/TaskMultiplexer.cs:28-29 | building the batch call's unregistered, open and unarmed entry keeps the invariant |
| TaskMultiplexing.OfferKeepsConsistent | src/TaskMultiplexer/TaskMultiplexer/TaskMultiplexer.cs:36-52 | one iteration of the install loop keeps the invariant: the key is installed for the batch entry, still open, or joined, and a won key is appended to that entry's list |
| TaskMultiplexing.ArmKeepsConsistent | src/TaskMultiplexer/TaskMultiplexer/TaskMultiplexer.cs:55-57 | closing an open batch entry, armed exactly when it owns some key, keeps the invariant |
| TaskMultiplexing.SettleKeepsConsistent | src/TaskMultiplexer/TaskMultiplexer/TaskMultiplexer.cs:80-115 | settling an armed pending entry, logging its one factory call and evicting its keys keeps the invariant; evicting the entry's keys removes exactly the keys registered to it |
| TaskMultiplexing.TaskMultiplexer.constructor | src/TaskMultiplexer/TaskMultiplexer/TaskMultiplexer.cs:11 | a new multiplexer has an empty registry, no entries and no factory calls, and satisfies the invariant |
| TaskMultiplexing.TaskMultiplexer.BeginSingle | src/TaskMultiplexer/TaskMultiplexer/TaskMultiplexer.cs:13-15 | keeps the invariant and calls no factory; a registered key is joined with nothing changed; an absent key gets a new pending single-key entry registered for it alone |
| TaskMultiplexing.TaskMultiplexer.SettleSingle | src/TaskMultiplexer/TaskMultiplexer/TaskMultiplexer.cs:80-97 | the value factory is called once with the entry's key; the entry settles with the one-key map or the exception; the key is evicted on both paths and no other key is |
| TaskMultiplexing.TaskMultiplexer.FinishSingle | src/TaskMultiplexer/TaskMultiplexer/TaskMultiplexer.cs:16-18 | the caller gets the entry's exception exactly when it failed; the default (None) exactly when it succeeded without the key; and the key's value exactly when it is present |
| TaskMultiplexing.TaskMultiplexer.CreateBatch | src/TaskMultiplexer/TaskMultiplexer/TaskMultiplexer.cs:28-32 | appends an open, unarmed batch entry owning no key yet; the registry and the factory log are unchanged |
| TaskMultiplexing.TaskMultiplexer.Offer | src/TaskMultiplexer/TaskMultiplexer/TaskMultiplexer.cs:36-52 | one `GetOrAdd` of the call's entry, allowed only while that entry is open; if it returns that entry the key is appended to the entry's key list, otherwise the returned owner is recorded for the key |
| TaskMultiplexing.TaskMultiplexer.InstallKeys | src/TaskMultiplexer/TaskMultiplexer/TaskMultiplexer.cs:34-53 | the install loop over the keys in order leaves the entry open and owning exactly the unregistered requested keys in order; the joined map holds exactly the registered requested keys with their owners; the registry gains exactly the won keys; no other entry changes |
| TaskMultiplexing.TaskMultiplexer.Arm | src/TaskMultiplexer/TaskMultiplexer/TaskMultiplexer.cs:55-57 | allowed only while the entry is open: the entry is closed, and armed exactly when it won some key; nothing else changes |
| TaskMultiplexing.TaskMultiplexer.BeginBatch | src/TaskMultiplexer/TaskMultiplexer/TaskMultiplexer.cs:21-57 | an empty request changes nothing; otherwise one new closed entry owning exactly the unregistered requested keys in order, armed exactly when there is one; the joined map holds exactly the registered requested keys with their owners; the registry gains exactly the won keys; no factory is called |
| TaskMultiplexing.TaskMultiplexer.SettleBatch | src/TaskMultiplexer/TaskMultiplexer/TaskMultiplexer.cs:99-115 | the batch factory is called once with exactly the entry's won keys; the entry settles with its outcome; all of those keys are evicted on both paths and no other key is |
| TaskMultiplexing.TaskMultiplexer.FinishBatch | src/TaskMultiplexer/TaskMultiplexer/TaskMultiplexer.cs:55-77 | an empty request gives an empty map; the call fails exactly when its own entry or a joined entry failed, with its own error first; on success the result holds all of its own entry's map, overridden for each joined key by the joined owner's value for that key when present; keys no result holds are absent |
| TaskMultiplexing.TaskMultiplexer.Remove | src/TaskMultiplexer/TaskMultiplexer/TaskMultiplexer.cs:117-120 | the registry afterwards is the `TryRemove` of the key |
| TaskMultiplexing.TaskMultiplexer.RemoveKeys | src/TaskMultiplexer/TaskMultiplexer/TaskMultiplexer.cs:122-128 | every listed key is evicted and every other mapping is kept |
| Scenarios.CallersShareEntry | src/TaskMultiplexer/TaskMultiplexer.Tests/TaskMultiplexerTests.cs:25 | n callers of one key on a fresh multiplexer all get entry 0, the only entry, and no factory runs |
| Scenarios.ReadShared | src/TaskMultiplexer/TaskMultiplexer/TaskMultiplexer.cs:16-18 | every caller holding entry 0, when it settled successfully with a value for the key, reads that value |
| Scenarios.TenCallersOneKey | src/TaskMultiplexer/TaskMultiplexer.Tests/TaskMultiplexerTests.cs:14-44 | ten callers of key 1 while it is pending: the factory runs once and all ten get "1" |
| Scenarios.FailureIsNotCached | src/TaskMultiplexer/TaskMultiplexer/TaskMultiplexer.cs:84-95 | a factory failure reaches both callers awaiting the entry; the next request calls the factory again and succeeds |
| Scenarios.MissingKeyYieldsDefault | src/TaskMultiplexer/TaskMultiplexer/TaskMultiplexer.cs:16-18 | a single-key caller joined to a batch entry whose result omits its key gets the default and no error |
| Scenarios.WinPair | src/TaskMultiplexer/TaskMultiplexer/TaskMultiplexer.cs:34-57 | a pair of unregistered keys is won entirely by one armed entry that owns both |
| Scenarios.JoinPair | src/TaskMultiplexer/TaskMultiplexer/TaskMultiplexer.cs:34-57 | a pair of registered keys is joined entirely: the caller's entry ends closed, with no keys and unarmed, so no later step can give it a key or run its factory; the registry keeps every key and owner it had |
| Scenarios.WinFivePairs | src/TaskMultiplexer/TaskMultiplexer.Tests/TaskMultiplexerTests.cs:62-70 | the first five pair requests own all ten keys, each with its own armed entry |
| Scenarios.JoinFivePairs | src/TaskMultiplexer/TaskMultiplexer.Tests/TaskMultiplexerTests.cs:62-70 | the last five pair requests win no key, and each of their entries ends closed, with no keys and unarmed, so no batch factory can run for them |
| Scenarios.TenPairRequests | src/TaskMultiplexer/TaskMultiplexer.Tests/TaskMultiplexerTests.cs:48-72 | ten pair requests while the first five are pending give exactly five batch factory calls, and the joiners win nothing |
| Scenarios.SplitFirstKey | src/TaskMultiplexer/TaskMultiplexer/TaskMultiplexer.cs:28-52 | two [0, 5] callers build their entries and offer key 0: the first wins it, the second records the first as its owner |
| Scenarios.SplitSecondKey | src/TaskMultiplexer/TaskMultiplexer/TaskMultiplexer.cs:34-57 | the second caller then wins key 5, the first joins it, and each arms its entry with the one key it won |
| Scenarios.InterleavedPairSplits | src/TaskMultiplexer/TaskMultiplexer.Tests/TaskMultiplexerTests.cs:62-72 | with those install loops interleaved, one pair costs two batch factory calls, [0] and [5], so the test's count of five depends on its timing |
| Registry.RepeatedKeyEvictsNewOwner | src/TaskMultiplexer/TaskMultiplexer/TaskMultiplexer.cs:110-126 | a repeated key in a batch entry's cleanup list lets the second `TryRemove` evict a newer single-key entry's registration, after which a third entry for the key is installed |
| Scenarios.RepeatedKeyReachesFactoryTwice | src/TaskMultiplexer/TaskMultiplexer/TaskMultiplexer.cs:34-43 | a batch request for [7, 7] passes [7, 7] to the batch factory, because keys are not deduplicated |

## Left out

- Threads, `Task.Run`, `async`/`await` and the `Lazy` thread-safety mode are not modelled. Concurrency is represented by interleaving the atomic steps, and each scenario fixes one interleaving.
- The factories are not modelled as code. The outcome a factory produces is a parameter of the settle step, which also logs the call.
- A factory call, the completion of its task and the `finally` eviction form one atomic step. The model cannot interleave another caller between a factory's return and the eviction of its keys.
- The `TaskCompletionSource` holding `newKeys` is modelled as the entry's `closed` and `armed` flags over its key list. The entry's task is not modelled as waiting on it.
- TaskMultiplexing.TaskMultiplexer.FinishBatch: when several joined entries failed, it promises only that the error is one of theirs. The iteration order of `existingValuesTasks` (a .NET `Dictionary`) is unspecified, so the model picks the keys in any order. Unless the call's own entry failed, it requires every joined entry to have settled. The source stops awaiting at the first failed joined entry (line 69), so the entries after it in that order may still be pending.
- TaskMultiplexing.TaskMultiplexer.SettleBatch assumes the batch factory does not modify the key list it receives. In the source, that `ICollection<TKey>` is the same `List` the `finally` cleanup iterates (TaskMultiplexer.cs:103, 107, 112). If the factory removes a key, the key stays registered forever to a settled entry, and later callers get its stale value or its cached failure. If it adds a key, the cleanup evicts a key the entry never owned.
- `default(T)` is modelled as `None`, with no particular value of `T` behind it.
- Integer and string widths do not matter to this code and are unbounded.
- Scenarios.TenPairRequests uses integer values in place of the tests' strings and checks the factory-call count and the won keys, not the merged results. No scenario calls `FinishBatch`. Its contract is proved for every state.
- Scenarios.TenCallersOneKey covers both the asynchronous and the synchronous value-factory tests. Sleeping inside the factory does not change the model's behaviour.
- TaskMultiplexing.OneComputationPerKey holds only because each settle step evicts its keys atomically. The source evicts a batch entry's list one `TryRemove` at a time (TaskMultiplexer.cs:112, 122-128). When a key repeats in that list, another caller can install a new entry for the key between the two removals, and the second removal then evicts the new entry's registration. A third caller can then start a second computation of the key. `Registry.RepeatedKeyEvictsNewOwner` shows this on the registry; the class model does not contain this interleaving.
- Null keys are not modelled, because `K` has no null. `GetOrAdd` throws for a null key (TaskMultiplexer.cs:15, 36). In a batch request, a null after some won keys throws before `SetResult` (line 57). The won keys then stay registered to an entry whose task never runs, so they are never evicted and later callers of those keys wait forever.
- `ThreadHelpers.cs` (thread spawning in the tests) is not part of this model.
