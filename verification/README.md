# A verified model of the simulation database and its quoting path

The repository simulates swaps on a fork of a chain. Its centre is `StateDB`, a lazily filled cache of
accounts, storage, code and block hashes over a read-only backing database, with a second set of
`original_*` maps that `clone` starts from. Around it stand the simulator that runs transactions and keeps
pools in step with Sync logs, the seeding of V2 pools, snapshots of a warm cache for parallel quoting, the
byte codecs of paths and quotes, the round-robin over RPC providers, and the grid of quoted volumes.

## How the model is built

- `World` is a total database: the answer to every question. The backing database is a `World` plus
  `Faults`, the queries that fail during one call; faults may differ from call to call, so every result
  holds under any pattern of transient or permanent failures. What can be read through a cache is again
  a `World` (`View`), because a `StateDB` can back another `StateDB`.
- `StateDB`, `Revm` and `MultiProvider` are classes whose methods update fields in place as the source
  does. Each method is proved equal to an operation on values (`Transitions`); the results about whole runs
  are lemmas about those operations. Hash maps are iterated by arbitrary choice; where the order could
  matter a method returns the order it took, and the lemmas quantify over all orders.
- The interpreter is an arbitrary adaptive `Program`: its next question depends on all earlier answers, and
  it ends with a result or runs out of gas.
- The `unwrap` of a missing map entry is the outcome `Panic`.
- A run (`Runs`) is any finite sequence of reads, insertions, replacements, commits and checkpoints, each
  under its own faults. Beside the cache runs an uncached model, changed as each operation means
  (`Overlay.Effect`), and the view at the last checkpoint, which is the bare backend before the first one.

## What is proved, and where a plain claim fails

Two conditions run through the results on runs. The backend has no storage at absent accounts
(`AbsentIsZero`; without it the reads themselves change what they show, `Reads.ReadsKeepViewExactly`), and no
batch holds two codes under one hash (`OneCodePerHash`; otherwise what it stores depends on the iteration order).

1. **The cache is invisible exactly after faithful writes.** Step by step (`Overlay.StepIsExact`) the cache
   implements an operation if and only if it is `Faithful`. Unfaithful are: info put at an account cached as
   absent (it stays invisible), a plain change of a destroyed account whose backend slots are not zero (they
   reappear), code put under a hash already known with other code, and a read that meets the failing `unwrap`.
   Over runs (`Runs.FaithfulRunIsExact`) the cache is invisible at every moment if and only if every write is
   faithful when its turn comes. After such a run a program that finishes computes what it computes on the
   uncached database after the operations that succeeded (`Runs.CacheIsInvisible`), and without faults it always
   finishes, if infos and plain changes since the last checkpoint went to accounts the checkpoint map covers
   (`RunInvariants.CacheIsTransparent`).
2. **A checkpoint is isolated exactly if every commit matches it**, although lazy reads keep writing into the
   original maps: `Runs.StepKeepsCheckpointExactly` for a step, `Runs.SafeRunIsExact` for whole runs. What a
   commit must match is the backend value of each slot it makes readable again. A clone opens its own backend,
   in the simulator at the block of its state, which nothing ties to the block of the database: after a safe run
   it shows the checkpoint exactly if that backend answers as the old one every question the checkpoint does not
   answer by itself (`Runs.CloneShowsTheCheckpoint`).
   Runs that plainly touch no destroyed account are safe, and faithful if they hide nothing
   (`LiveRuns.LiveRunIsSafeAndFaithful`); the converse fails (`Witnesses.HarmlessRevival`), and without any
   condition both claims fail (`Witnesses.RevivedAccountShowsBackend`, `Witnesses.RevivedAccountSpoilsCheckpoint`).
3. **Simulations refine an uncached simulator.** The cached and the uncached side cannot be told apart, and
   clones show the checkpoint, after every transaction, if and only if every commit fits, that is, matches the
   checkpoint and is faithful (`Simulations.AllFitIsExact`). Then any sequence of adaptive transactions, dry or
   committed and under any faults, ends with the pools and the answers of the uncached simulator over the
   transactions that completed (`Simulations.SimulationRefines`). Without faults, if transactions touch only
   accounts they asked for, all of them complete and return what the uncached simulator returns
   (`Simulations.SimulationIsPlain`), which is an error after the commit if a success carries a Sync log that
   does not decode (`Simulations.TransactionReturnsExactly`, `Simulations.BadLogIsAnError`). Such transactions
   never meet the failing `unwrap`, fitting or not (`Simulations.SimulationNeverPanics`). A simulation may start
   from a new simulator, after any safe and faithful run, from seeded pools, and from a clone exactly if the
   backends agree (`Simulations.CloneStartsInStep`). Its steps are those of the simulator object
   (`Simulations.Submit`).
4. **Running is pure, repeatable and learns** (`Programs.TransactIsRepeatable`, `DryRuns.DryRunBeforeCommit`): a
   program that finished once can be replayed over any backend and under any faults (`Programs.RunReplays`), for
   a read caches what it answers, exactly (`Reads.ReadCaches`, `Reads.ReadLearnsExactly`).
5. **A batch has one meaning** (`Commits`): exactly when no two changes store different code under one unknown
   hash, all iteration orders agree; a commit is idempotent; two commits merge into one exactly when no
   account that the first destroys and the second plainly touches had cleared storage or a slot the second
   does not set, and merging drops no code.
6. **Cleared storage stays cleared** (`Cleared.ClearedForever`).
7. **The `unwrap` cannot fail** at any moment since the last checkpoint exactly if infos and plain changes
   went to covered accounts since then (`RunInvariants.BackedRunIsExact`).
8. **Seeding** does not depend on the order of the pools and reads back as injected; an error ends the seeding of
   its pool and of no other; a clone forgets it (`Pools`).
9. **Parallel quotes equal serial quotes** on what the snapshot holds, and with every task polled to its end
   the parallel run stops at an error exactly if some serial quote fails (`Parallel`, `Snapshot`).
10. **Codecs**: paths are decoded uniquely; the quote survives the revert exactly when the smaller delta fits
    128 bits, is still the smaller after both are wrapped to 128 bits, and its negation does not overflow
    (`Codecs.QuoteExactly`).
11. **Round-robin** is balanced in every window exactly when the number of providers divides the counter's
    range, and always before the counter wraps (`Providers`).

Where the code and its comments disagree the model follows the code: `accounts` does not drop `code`
from infos (src/simulation/state_db.rs:21 and 62 say it is taken out; line 71 clones it); code put under a
zero hash loses its hash (lines 71-76); `volumes` never adds `from` to its amounts
(src/source/builder.rs:20-26).

## Model

| member | source | states |
|---|---|---|
| StateDatabase.StateDB.constructor | src/simulation/state_db.rs:44-58 | a new database knows the empty code of two hashes and nothing else, and its checkpoint is empty |
| StateDatabase.StateDB.FromOriginals | src/simulation/state_db.rs:105-115 | a clone holds the checkpoint, twice, whatever the source did since |
| StateDatabase.StateDB.SyncOriginals | src/simulation/state_db.rs:117-122 | the checkpoint becomes the current entries |
| StateDatabase.StateDB.InsertContract | src/simulation/state_db.rs:65-77 | code is kept under its hash unless the hash is known; the info comes back with its hash settled |
| StateDatabase.StateDB.InsertAccountInfo | src/simulation/state_db.rs:80-83 | info is replaced, state and storage of the account stay |
| StateDatabase.StateDB.LoadAccount | src/simulation/state_db.rs:160-173 | a vacant account is cached in both maps, absent ones as not existing; a fault changes nothing |
| StateDatabase.StateDB.InsertAccountStorage | src/simulation/state_db.rs:176-180 | one slot is set after loading |
| StateDatabase.StateDB.ReplaceAccountStorage | src/simulation/state_db.rs:183-192 | the storage is exchanged and marked cleared after loading |
| StateDatabase.StateDB.Commit | src/simulation/state_db.rs:196-229 | every touched account makes its transition, spelled out by kind of change, and no other account changes; known code stays and new code comes from the batch, for every iteration order |
| StateDatabase.StateDB.Basic | src/simulation/state_db.rs:235-249 | the caching read of an info |
| StateDatabase.StateDB.CodeByHash | src/simulation/state_db.rs:251-261 | the caching read of code |
| StateDatabase.StateDB.Storage | src/simulation/state_db.rs:266-303 | the caching read of a slot, with its two-question vacant path and its unwrap |
| StateDatabase.StateDB.GetBlockHash | src/simulation/state_db.rs:305-315 | the caching read of a block hash |
| StateDatabase.StateDB.ReadRef | src/simulation/state_db.rs:318-360 | the four pure reads answer with the view and fail only on a fault of a question the cache cannot answer |
| StateDatabase.StateDB.HandleStorageV2 | src/simulation/state_db.rs:124-155 | one pool is seeded by three writes, stopping at the first error |
| StateDatabase.StateDB.NewWithState | src/simulation/state_db.rs:87-103 | pools of the V2 kind are seeded in some order, errors ignored; without faults every account is as the pools say |
| Reads.ReadAnswersView | src/simulation/state_db.rs:232-316 | a caching read that answers gives the view's answer, one that fails changes nothing |
| Reads.ReadKeepsView | src/simulation/state_db.rs:232-316 | no caching read changes any answer of the view |
| Reads.ReadsKeepViewExactly | src/simulation/state_db.rs:287-301 | that is so for all reads exactly if absent uncached accounts have no storage |
| Reads.ReadAgainstTwin | src/simulation/state_db.rs:266-352 | exactly when a caching read and its pure twin return the same, errors included; a failing unwrap is one of the differences |
| Reads.ReadPanicsExactly | src/simulation/state_db.rs:279-281 | exactly which read meets the failing unwrap |
| Reads.CoveredIsExact | src/simulation/state_db.rs:279-281 | no read of any key panics exactly if every slot read through is covered by the checkpoint map |
| Reads.ReadKeepsCheckpoint | src/simulation/state_db.rs:244-301 | reads write into the checkpoint without changing any of its answers |
| Reads.CheckpointSafeIsExact | src/simulation/state_db.rs:279-282 | the invariant used is exactly the condition under which no read can change the checkpoint |
| Reads.ReadOnlyWarms | src/simulation/state_db.rs:232-316 | a read adds backend entries and nothing else |
| Reads.ReadCaches | src/simulation/state_db.rs:232-316 | a question that was answered is answered again under any faults and over any backend, without a change; what came from the backend is in the checkpoint too |
| Reads.ReadLearnsExactly | src/simulation/state_db.rs:232-316 | exactly which questions the cache answers by itself after a read, with the answers it knew before |
| Reads.ReadFailsExactly | src/simulation/state_db.rs:266-303 | exactly when a read fails and with which error; a slot of an absent account is never asked for |
| Reads.NewDatabaseKnows | src/simulation/state_db.rs:44-58 | a new database answers for the code of two hashes, and for nothing else |
| Reads.AgreeingBackendsAreSame | src/simulation/state_db.rs:105-115 | the same entries over another backend show the same exactly if the backends agree on what the entries do not answer |
| Programs.RunAnswersView | src/simulation/revm.rs:197-211 | an adaptive program on caching reads computes what it computes on the view at its start |
| Programs.RunKeepsView | src/simulation/revm.rs:197-211 | running it changes no answer |
| Programs.RunKeepsCheckpoint | src/simulation/revm.rs:197-211 | running it changes no answer of the checkpoint |
| Programs.RunDoesNotPanic | src/simulation/state_db.rs:279-281 | on a covered database it does not panic, and without faults it finishes |
| Programs.TransactIsRepeatable | src/simulation/revm.rs:182-211 | whatever ran before, a transaction that finishes returns what it would have returned first |
| Programs.RunReplays | src/simulation/revm.rs:197-211 | a program that finished once finishes again over any backend and under any faults, with the same result and no change |
| Programs.RunFailsOnFaults | src/simulation/revm.rs:209-209 | a run fails only with an error of the backend |
| Commits.CommitMeaning | src/simulation/state_db.rs:196-229 | the loop is the per-account transition at touched addresses with a frame elsewhere, for every order |
| Commits.WritesExactly | src/simulation/state_db.rs:65-77 | exactly which code a batch stores under which hash |
| Commits.CommitOrderIndependence | src/simulation/state_db.rs:65-77 | all orders give one state exactly if no two changes conflict on the code of an unknown hash |
| Commits.CommitIsIdempotent | src/simulation/state_db.rs:196-229 | committing a batch twice is committing it once |
| Commits.CommitsCompose | src/simulation/state_db.rs:202-226 | two commits are one commit of the merged batch, last writer winning slot by slot, exactly if no revival is harmful; with the same code, where the single commits do not depend on their order, exactly if merging drops none |
| Overlay.StepIsExact | src/simulation/state_db.rs:157-316 | the cache implements an operation on the uncached database, without a panic, exactly if it is faithful |
| Overlay.CommitSlot | src/simulation/state_db.rs:202-226 | a slot after a commit is as in the uncached model exactly if the commit revives nothing there |
| Overlay.StoredCodeIsFoundExactly | src/simulation/state_db.rs:65-83 | exactly when code put with an info is found under the stored hash |
| Overlay.NormalisedMeaning | src/simulation/state_db.rs:65-77 | storing an info changes only its code hash, and only an unset one |
| Overlay.NormalisingTwiceExactly | src/simulation/state_db.rs:65-77 | storing a stored info changes nothing, except for code under a zero hash |
| Overlay.StackedAbsentIsZeroExactly | src/simulation/state_db.rs:318-360 | exactly when a database may back another one |
| Runs.SyncMakesSafe | src/simulation/state_db.rs:117-122 | a checkpoint taken in any state is safe and shows the current view |
| Runs.CommitKeepsCheckpointExactly | src/simulation/state_db.rs:215-223 | exactly which commits leave the checkpoint safe |
| Runs.StepKeepsCheckpointExactly | src/simulation/state_db.rs:157-316 | every operation leaves the checkpoint's answers alone, and exactly which keep it safe |
| Runs.SafeRunIsExact | src/simulation/state_db.rs:105-316 | at every moment of a run, and after any further read, a clone shows the last checkpoint, exactly if every commit matches the checkpoint |
| Runs.CloneShowsTheCheckpoint | src/simulation/state_db.rs:105-122 | after a safe run a clone shows the last checkpoint exactly if its own backend agrees on what the checkpoint does not answer; programs on it then compute what they compute there |
| Runs.FaithfulRunIsExact | src/simulation/state_db.rs:157-316 | at every moment of a run the cache cannot be told from the uncached database, exactly if every write is faithful |
| Runs.CacheIsInvisible | src/simulation/state_db.rs:157-316 | after a faithful run programs on the cache compute what they compute on an uncached database after the operations that succeeded; they finish without faults if every slot is covered |
| Runs.ModelIsUncached | src/simulation/state_db.rs:157-316 | the database the cache is compared with is the meaning of the successful operations applied to the backend, with no cache in sight |
| LiveRuns.LiveRunIsSafeAndFaithful | src/simulation/state_db.rs:202-223 | runs that plainly touch no destroyed account are safe, and faithful if they hide no info or code |
| RunInvariants.RunOnlyGrows | src/simulation/state_db.rs:60-316 | over every run accounts stay cached, code and block hashes never change, and the checkpoint's agree with the cache's |
| RunInvariants.StepKeepsCoveredExactly | src/simulation/state_db.rs:80-83 | exactly which operations keep the unwrap safe |
| RunInvariants.BackedRunIsExact | src/simulation/state_db.rs:279-281 | no read can panic at any moment since the last checkpoint, exactly if infos and plain changes went to covered accounts |
| RunInvariants.BackedRunNeverPanics | src/simulation/state_db.rs:279-281 | after a run whose infos and plain changes since the last checkpoint go to covered accounts no program panics, over any backend |
| RunInvariants.CacheIsTransparent | src/simulation/state_db.rs:157-316 | after a faithful run without faults whose writes since the last checkpoint go to covered accounts, every program finishes with the result it has on the uncached database |
| DryRuns.DryRunBeforeCommit | src/simulation/revm.rs:197-234 | a dry run changes nothing about a later commit, exactly if no code it read stands in the way |
| Simulations.SimulationRefines | src/simulation/revm.rs:197-234 | transactions whose commits fit give the pools and the answers of an uncached simulator over those that complete, and a clone shows the checkpoint exactly if its own backend agrees with the old one |
| Simulations.SimulationIsPlain | src/simulation/revm.rs:197-234 | without faults, transactions that fit and touch only what they asked for all complete, with the returned results or errors, pools and answers of an uncached simulator |
| Simulations.ModelIsPlain | src/simulation/revm.rs:197-234 | the uncached side of a simulation is a fold over the completed transactions that never mentions the cache |
| Simulations.SameResult | src/simulation/revm.rs:197-234 | a transaction that completes returns what it returns on the uncached database, the error of an undecodable log included |
| Simulations.TransactionReturnsExactly | src/simulation/revm.rs:213-234 | without faults a transaction returns its uncached result, or an error exactly if it commits a success with an undecodable Sync log |
| Simulations.BadLogIsAnError | src/simulation/revm.rs:228-231 | such a log makes the call an error although its effects stand |
| Simulations.RunsStartInStep | src/simulation/revm.rs:51-59 | a new simulator, or one after any safe and faithful run, can be simulated on |
| Simulations.CloneStartsInStep | src/simulation/revm.rs:95-110 | a clone can be simulated on from the checkpoint exactly if its own backend agrees with the old one |
| Simulations.SeedingIsARun | src/simulation/state_db.rs:87-155 | seeding under any faults is a run of storage writes from a new database |
| Simulations.SeededStartsInStep | src/simulation/revm.rs:61-93 | so can a seeded one, whatever faults the seeding met; its checkpoint is the bare backend |
| Simulations.SimulationNeverPanics | src/simulation/state_db.rs:279-281 | transactions that touch only accounts they asked for never meet the failing unwrap, whatever they revive or overwrite |
| Simulations.AllFitIsExact | src/simulation/revm.rs:197-234 | after every transaction the two sides look the same and clones show the checkpoint, exactly if every commit fits |
| Simulations.Submit | src/simulation/revm.rs:197-234 | a dry or committed transaction on the object is the step of the simulation and returns what the model says it returns |
| Cleared.ClearedForever | src/simulation/state_db.rs:215-223 | a cleared account shows the last write to each slot, or what it showed, and never asks the backend |
| Pools.SeedingMeaning | src/simulation/state_db.rs:87-155 | the whole state after seeding separate pools, in any order |
| Pools.WritesFailExactly | src/simulation/state_db.rs:160-192 | a write fails exactly if it must load the account and cannot, and then changes nothing |
| Pools.SeedJobStops | src/simulation/state_db.rs:141-152 | seeding a pool stops at its first error, with that error and the writes before it |
| Pools.SeedingGoesOn | src/simulation/state_db.rs:90-94 | a pool whose own writes do not fail is seeded whatever failed before |
| Pools.OtherPoolsDoNotSeed | src/simulation/state_db.rs:90-128 | pools of other kinds or without an address make no difference |
| Pools.SeededPoolReads | src/simulation/state_db.rs:132-152 | the pair's slots 6 to 10 and 12 read as injected and all others 0; both balances equal the reserves; an absent pair shows a default info |
| Pools.SeedingIsOrderIndependent | src/simulation/state_db.rs:90-100 | every iteration order of the pools gives one state |
| Pools.CloneForgetsSeeding | src/simulation/state_db.rs:87-115 | a clone of a database seeded with any pools under any faults shows the bare backend |
| Simulator.Revm.Clone | src/simulation/revm.rs:95-110 | the clone holds the checkpoint, synchronised or not, over the backend of its state's block; it shows the checkpoint exactly if that backend agrees with the old one |
| Simulator.Revm.HandleTopicV2 | src/simulation/revm.rs:124-133 | one Sync log sets the reserves of its pool, if known |
| Simulator.Revm.HandleLogs | src/simulation/revm.rs:112-122 | succeeds exactly if every log whose first topic is Sync decodes, and applies exactly the logs before the first that does not |
| Simulator.Revm.Execute | src/simulation/revm.rs:197-211 | the interpreter's loop is the program on the caching reads |
| Simulator.Revm.Transact | src/simulation/revm.rs:197-211 | the result is the result on the view before the call, and the view stays; a fault or a panic is returned as such |
| Simulator.Revm.TransactCommit | src/simulation/revm.rs:213-234 | run, commit, then logs of a success; an undecodable Sync log is an error after the commit; a fault or a panic is returned as such |
| Simulator.LogsSetLastReserves | src/simulation/revm.rs:112-133 | each pool ends with the reserves of its last Sync log that decodes; keys and other fields never change |
| Simulator.LogsCompose | src/simulation/revm.rs:112-133 | over a run of calls only the last log of a pool matters |
| Simulator.OtherLogsAreIgnored | src/simulation/revm.rs:112-122 | logs of other events change nothing and never fail |
| Simulator.DecodableExactly | src/simulation/revm.rs:112-122 | handling stops exactly at the first Sync log that does not decode |
| Simulator.PoolKeyInjective | src/simulation/revm.rs:126-126 | logs of different addresses go to different pools |
| Simulator.PoolKeySpellsAddress | src/simulation/revm.rs:126-126 | the key is 0x and 40 lower-case digits whose value is the address |
| Snapshot.FromCacheDb | src/core/db_empty.rs:15-30 | the snapshot holds every cached info and slot, value for value, and nothing else |
| Snapshot.CodeByHash | src/core/db_empty.rs:41-51 | the scan returns code with the hash, or the empty code if there is none; in any order the same if hashes do not collide |
| Snapshot.SnapshotAgreesExactly | src/core/db_empty.rs:37-59 | exactly which infos, slots, code and block hashes the snapshot answers as the cache does |
| Snapshot.HotAnswers | src/core/db_empty.rs:37-63 | of the questions the cache answers by itself, exactly the hot ones are answered alike |
| Snapshot.ConvertCacheToEmptyDb | src/core/db.rs:67-82 | the converted cache holds every info, normalised, every slot, and the code of the infos |
| Snapshot.ConvertersAgree | src/core/db.rs:67-82 | both converters agree on slots, and on infos up to the code hash |
| Snapshot.ConvertersAgreeOnCode | src/core/db.rs:67-82 | and on code, if the infos say the hash of their code |
| Parallel.RunParallel | src/core/chain_revm_cached.rs:157-186 | under any schedule results are drained up to the first task that fails; each is its task's result on the snapshot, and a task polled often enough before that is among them |
| Parallel.ParallelEqualsSerial | src/core/chain_revm_cached.rs:90-186 | tasks within the cached entries give the results of running them one by one on the warm cache |
| Parallel.SnapshotParallel | src/core/chain_revm_cached.rs:144-186 | snapshot, parallel run and comparison in one: results and the error are serial ones, and with enough polls it fails exactly if a serial task does |
| Codecs.EncodePath | src/source/abi.rs:111-122 | the path has 23 bytes a fee and 20 more, and decodes to its inputs |
| Codecs.PathRoundTrip | src/source/abi.rs:111-122 | a left-to-right decoder recovers every list of tokens and fees |
| Codecs.PathBytes | src/source/abi.rs:111-122 | what stands at every byte of a path |
| Codecs.DecodedPathIsEncoded | src/source/abi.rs:111-122 | every byte string of a path's length is the path of what it decodes to |
| Codecs.QuoteRoundTrip | src/source/abi.rs:43-54 | deltas of less than 127 bits always come back as minus the smaller |
| Codecs.QuoteOfLargePayment | src/source/abi.rs:47-53 | for a swap of any size in either direction, exactly when the received amount comes back |
| Codecs.LargePaymentMisread | src/source/abi.rs:47-53 | a payment of 2^127 is misread |
| Codecs.RevertEndsWithDeltas | src/contracts/uni_v3_quoter.sol:15-21 | the revert data ends with the two signed words |
| Codecs.RevertIsError | src/contracts/uni_v3_quoter.sol:15-21 | a caller that reads Error(string) finds the two words and nothing else |
| Codecs.QuoteExactly | src/source/abi.rs:43-54 | of any two deltas of which one is not positive, exactly when the decoder returns minus the smaller |
| Codecs.QuotePanicsExactly | src/source/abi.rs:43-54 | the decoder panics exactly on a response of fewer than 64 bytes, or on a checked negation of the smallest number |
| Codecs.QuoteIsMinusTheSmaller | src/source/abi.rs:43-54 | otherwise it is minus the smaller of the two last words, modulo 2^128, for any response |
| Providers.MultiProvider.constructor | src/core/provider.rs:25-40 | providers and URLs stand in one order, also for an empty list, and no call has been counted |
| Providers.MultiProvider.Next | src/core/provider.rs:42-45 | the call numbered n takes the provider and URL of the ticket n modulo the counter's range; without providers it panics |
| Providers.ProvidersTakeTurns | src/core/provider.rs:42-45 | providers take turns from the first on until the counter wraps, then again from the first |
| Providers.WindowBeforeWrapIsBalanced | src/core/provider.rs:42-45 | in a window before the counter wraps, use counts differ by at most one |
| Providers.AlwaysBalancedExactly | src/core/provider.rs:42-45 | in every window for ever, exactly if the number of providers divides 2^64 |
| Volumes.GetVolumes | src/source/builder.rs:19-32 | as many amounts as asked for, descending by one step, none above the distance and the first close to it |
| Witnesses.RevivedAccountShowsBackend | src/simulation/state_db.rs:202-223 | a destroyed account touched again shows backend storage |
| Witnesses.RevivedAccountSpoilsCheckpoint | src/simulation/state_db.rs:279-282 | and the next read overwrites its checkpoint |
| Witnesses.HarmlessRevival | src/simulation/state_db.rs:202-223 | an account created and destroyed at once and paid later is safe and faithful, though the run touches a destroyed account |
| Witnesses.InfoAfterReadIsInvisible | src/simulation/state_db.rs:79-83 | info put at an account read as absent is not seen |
| Witnesses.UnwrapPanicsBeforeSync | src/simulation/state_db.rs:279-281 | a slot of an account created by its info panics until a checkpoint is taken |
| Witnesses.ReplacedStorageMakesAccount | src/simulation/state_db.rs:183-192 | replacing the storage of an absent account makes it exist |

## Left out

- The interpreter and the library internals of revm: an arbitrary adaptive program and its change set stand for them.
- The library's `CacheDB` is taken to have the account shape of `StateDB` without the checkpoint maps; serial quotes on it are modelled on the caching reads here.
- RPC providers, tokio scheduling, the bytecode cache on disk, command line, logging, timing and configuration.
- keccak256, code hashing, balance slots and the packing of reserves are arbitrary functions; where a result needs them not to collide it says so.
- `e_primitives` is not part of this model beyond the pool fields used; addresses of pools and tokens are parsed already, and the empty string is a missing address.
- The ABI decoder of Sync logs is an arbitrary partial function; of the decoder of the quote only the signed 128-bit read without validation is modelled.
- `create_account`, `set_token_balance` and `get_storage` of the simulator: thin calls of operations modelled here.
- Simulations.SimulationRefines: a transaction stopped by a fault is no step of the uncached side.
- Simulator.Revm.Clone: the chain is a parameter, a backing database for each block; of the block environment only the number is modelled.
- Simulator.Revm.TransactCommit: what the interpreter returns when its gas runs out is a parameter.
- Commits.CommitsCompose: on code it speaks of batches whose own commits do not depend on the iteration order; a merged batch keeps the code of the later info only.
- Parallel.RunParallel: when a task counts as failed is a parameter; tasks still running when the drain stops leave nothing behind.
- Providers.MultiProvider.constructor: the panic on a URL that does not parse.
- Parallel.ParallelEqualsSerial: speaks of tasks whose questions the cache can answer, since a snapshot has no backend to ask.
- Codecs.QuoteRoundTrip: the selector and string layout are those of Error(string); a decoding error of the library cannot occur without validation and has no case.
- Volumes.GetVolumes: a zero count divides by zero in the source and is excluded.
- Calldata encoders, transaction builders, address tables, and Uniswap V3 mathematics.
