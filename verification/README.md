# linbox in Dafny

linbox gives a process virtual time and repeatable randomness. A controller
keeps the virtual time and the random seed in a shared memory segment; a shim
inside every process reads them there and answers the time and randomness calls
itself. This project models the parts of linbox where correctness is subtle and
proves what they promise.

`dafny verify dfyconfig.toml` checks everything. No part relies on another
library.

| module | models |
|---|---|
| `Basics`, `Arithmetic` | the C integer types and `struct timespec`; facts about C division |
| `Seqlock`, `Linearizability` | the seqlock of `shm.c` as a machine of single loads and stores, and what readers may rely on |
| `StoreBuffer`, `Visibility` | the same seqlock behind an x86-64 store buffer |
| `SharedTime` | `write_time` and `read_time` as code on that machine, with interference at every access |
| `Words`, `Prng`, `Rejection`, `Streams` | the generator of `prng.c` and the theory of its streams |
| `ShimRandom`, `RandomRuns` | the seed state of `linbox.c` and the rand family of `random.c`, and what whole runs draw |
| `Sbp`, `SbpBuffers` | the SBP wire format, and the codec on byte buffers |
| `ProcessTable`, `TimeManager`, `Controller`, `ControllerRuns`, `Hangups`, `Server` | the controller: process table, time, requests, main loop; `Server` is the code |
| `EndToEnd` | from the controller's runs to the time other processes read |
| `Environment`, `InjectedEnv` | environment injection: its meaning, and the code with its allocations |
| `SeccompFilter` | the filter macros and a classic BPF interpreter |
| `TimeViews` | the time calls as views of one snapshot |

Code that changes state is modelled by classes and loops whose contracts equate
the new state with a function of the old one; the theorems are lemmas about
those functions. History that no step depends on (publications, access numbers,
closed connections) is kept beside the state so that runs can be talked about.

## Findings

* A read of virtual time is atomic as long as fewer than 2^31 writes complete
  between its two counter loads. The bound is exact: with 2^31 writes the
  counter comes round and a pair that was never published can be returned.
* Later reads never go back to an older publication. They never show an earlier
  time exactly when the published times do not decrease, and for the controller
  that is exactly when every SET_TIME served sets no earlier time than is current
  then and no tick overflows.
* On x86-64 a write is visible to readers once the writer's store buffer has
  drained, not when `linbox_shm_write_time` returns.
* Processes with different pids start with streams that differ in every word, for
  every shared seed: the one pair of seeds that `linbox_prng_seed` merges is never
  hit by two pids. The first `rand` or `random` of a process that has not called
  `srand` restarts its one generator, the one behind `getrandom` too, from the low
  32 bits of the process seed. From then on two processes share every word exactly
  when these low halves agree. With shared seed 24 the pids 3657 and 4882 do.
* A SET_SEED changes what a running process draws only through that first `rand`:
  everywhere else the refresh updates the effective seed before the guard compares
  it, so the guard never fires. The outputs of a run are the same for all values of
  the seed cell exactly when no `rand` comes, in a process attached to the cell,
  before that process or a parent has called `rand` or `srand`.
* A hangup closes every client behind it in the table as well, because poll
  results are looked up by index while clients are moved. As long as no message
  fails, hangups are charged to the right clients exactly when the clients that
  hung up are the last ones.
* After a failed message the last client of the table is read in its place,
  whether poll reported it readable or not; on its blocking socket the read can
  stall the loop. Exactly the right clients are closed exactly when the table is
  orderly: with k clients that should stay, none of the first k hung up, and the
  clients behind them that reading would misjudge stand where a hangup closes
  everything anyway. Only clients reported readable are read, whatever they
  sent, exactly when the first report in the table is a hangup or every client
  from it on is readable.
* SET_TIME publishes its nanoseconds as given. The published time is normalized
  exactly when a tick has happened since, or the value set was.
* An `execve` with a NULL environment fails with ENOMEM when no runtime variable
  is set, because the injected environment is then NULL too.

ADR-003 describes a ChaCha20 generator; the code uses xorshift64*, and so does
the model.

## Model

| member | source | states |
|---|---|---|
| Seqlock.HitKeepsInv | src/common/shm.c:138-143 | every store of a write keeps the counter, the data words and the publication history consistent, whatever readers are in the middle of |
| Seqlock.ReadKeepsInv | src/common/shm.c:153-167 | every load of a reader keeps the invariant, and a completed read is logged with a value that was published whole unless 2^31 writes intervened |
| Linearizability.InitInv | src/common/shm.c:41-43 | the segment as laid out initially satisfies the invariant, with publication 0 the zero time |
| Linearizability.ReadsAreAtomic | src/common/shm.c:133-168 | over every interleaving a read returns one published pair, and that pair is the current time in every state from its first counter load to its last |
| Linearizability.LaterReadsAreNoOlder | docs/gaps/multi-process-time-consistency.md:12 | a read that begins after another ended, in any process, never goes back to an older publication |
| Linearizability.NeverBackwardsExactlyWhenNondecreasing | docs/gaps/multi-process-time-consistency.md:12 | for every sequence of published times, no read in any process and interleaving shows an earlier time than a read that ended before it began, iff the times do not decrease |
| Linearizability.LaterReadCanShowEarlierTime | docs/gaps/multi-process-time-consistency.md:12 | for every pair of times a reachable state holds two ordered reads that show them in decreasing order, after two writes did so |
| Linearizability.ReadsSeeFinishedWrites | src/common/shm.c:133-168 | a read that begins after a state of the run returns what was newest there or something later |
| Linearizability.OddExactlyWhileWriting | src/common/shm.c:138-143 | the counter is odd exactly while a write is in flight, and otherwise memory holds the newest publication whole |
| Linearizability.AttemptReturnsExactlyWhenUndisturbed | src/common/shm.c:154-166 | the second counter load ends the read iff the counter stores since the first number a multiple of 2^32, which below 2^31 writes means none |
| Linearizability.QuietAttemptReturns | src/common/shm.c:153-167 | with no writer step in between a read returns on its first pass, with the current time, however other readers interleave |
| Linearizability.SoloWriteEffect | src/common/shm.c:133-145 | run alone, a write moves the counter on by two and leaves the new time in memory as one publication |
| Linearizability.TornReadAtTheBound | src/common/shm.c:163-166 | with exactly 2^31 writes inside one attempt a reachable state returns a pair that was never published |
| StoreBuffer.BufferedRunsArePlain | src/common/shm.c:138-143 | every run with a FIFO store buffer is, for the readers, a run of the plain interleaving with the same reader steps in the same order |
| StoreBuffer.PlainRunsAreBuffered | src/common/shm.c:138-143 | and every plain run is a buffered one, so readers cannot tell the two machines apart |
| Visibility.CallsAreConserved | src/common/shm.c:133-145 | publications, then returned calls still in the buffer, then the call in flight are the write calls in program order |
| Visibility.CaughtUpExactlyWhenDrained | src/common/shm.c:138-143 | after write_time has returned, all calls are published iff the store buffer is empty |
| Visibility.BufferedReadsAreAtomic | src/common/shm.c:153-167 | with a store buffer reads still return whole publications and never run backwards |
| Visibility.ReadsAfterFenceSeeEveryCall | src/controller/main.c:124-131 | a read that begins after a locked instruction returns the last call before it or a later one |
| Visibility.StaleReadBeforeFence | src/common/shm.c:133-145 | for every new time, a read begun after write_time returned can still return the old time while the stores are buffered |
| SharedTime.ReadTime | src/common/shm.c:147-168 | under arbitrary interference the loads are exactly those of the passes: every pass but a last one that returns met a write in flight at its first counter load or a counter store before its second; the last returns the two words it loaded, which are a publication no older than the newest at the call unless the counter wrapped; a call that no write overlaps returns the current time on its first pass |
| SharedTime.WriteTime | src/common/shm.c:133-145 | the six steps in order, under arbitrary reader interference, add exactly one publication and advance the counter by two |
| Words.StepInverse | src/shim/prng.c:30-36 | the xorshift step has an inverse on both sides, so it permutes the 64-bit words |
| Words.FinalizeInverse | src/shim/prng.c:5-11 | the mixing of splitmix64 has an inverse on both sides |
| Prng.Generator.Seed | src/shim/prng.c:13-23 | stores the splitmix64 word of the seed, or the fixed fallback when that is 0 |
| Prng.Generator.NextU64 | src/shim/prng.c:30-37 | advances the state by one step and returns its scrambled word |
| Prng.Generator.Fill | src/shim/prng.c:43-54 | writes exactly the first bytes of the word stream, little end first, leaves the rest of the buffer alone, and uses ceil(len/8) words |
| Prng.Generator.Uniform | src/shim/prng.c:56-68 | equals the bounded draw whose meaning Streams.BoundedDrawIsFirstAccepted gives |
| Prng.DeriveProcessSeed | src/shim/prng.c:25-28 | returns the splitmix64 word of the seed crossed with the spread pid |
| Streams.NonzeroForever | src/shim/prng.c:30-37 | a stream is at state 0 after k steps iff it started there |
| Streams.StreamsDiffer | src/shim/prng.c:30-37 | two streams agree in the k-th output iff they started in the same state, for every k |
| Streams.Splitmix64Bijective | src/shim/prng.c:5-11 | splitmix64 is a bijection of the 64-bit words |
| Streams.KnownWords | src/shim/prng.c:5-37 | words of splitmix64, of seeding, of process seeds, of the step and of the output, as numbers, the fallback state included |
| Streams.SeedMergesOnePair | src/shim/prng.c:13-23 | two different seeds give the same state iff they are the two named words |
| Streams.ProcessSeedInjective | src/shim/prng.c:25-28 | the process seed is injective in the seed for a fixed pid and in the pid for a fixed seed |
| Streams.PidsAvoidMergedPair | src/shim/prng.c:25-28 | no shared seed takes two pids to the merged pair |
| Streams.ProcessStreamsDiffer | src/shim/linbox.c:172-177 | for every shared seed and index, two processes that seed from it and their pids, as at initialization, draw different words iff their pids differ |
| Streams.FillPrefix | src/shim/prng.c:43-54 | a shorter fill is a prefix of a longer one |
| Streams.BytesOfWord | src/shim/prng.c:48-53 | bytes 8k to 8k+7 of the stream are word k shifted down by 0, 8, ..., 56 bits |
| Streams.AlignedFillSplits | src/shim/prng.c:43-54 | fills of a and then b bytes leave the bytes and the state of one fill of a+b when a is a multiple of 8 |
| Streams.FillSplitsExactlyWhenAligned | src/shim/prng.c:43-54 | the bytes agree in every state iff a is a multiple of 8 or b is 0 |
| Streams.BoundedDrawIsFirstAccepted | src/shim/prng.c:61-67 | a bounded draw is the residue of the first accepted 32-bit draw, below the bound, and consumes the stream exactly up to it |
| Streams.BudgetDoesNotMatter | src/shim/prng.c:62-67 | a bounded draw that ends gives the same value and state however many more rejections it might have been allowed |
| Streams.DrawIsUpperBytes | src/shim/prng.c:39-41 | a 32-bit draw is the number that bytes 4 to 7 of its word spell |
| Streams.ZeroBoundDrawsNothing | src/shim/prng.c:57-59 | a bound of 0 gives 0 and leaves the state alone |
| Rejection.Threshold | src/shim/prng.c:61 | the 32-bit negation and remainder give 2^32 mod n |
| Rejection.RejectedAreSmallest | src/shim/prng.c:61-66 | the draws rejected are exactly those below 2^32 mod n |
| Rejection.Unbiased | src/shim/prng.c:61-66 | every residue has exactly floor(2^32/n) accepted draws |
| Rejection.MostDrawsAccepted | src/shim/prng.c:61-66 | more than half of all 32-bit draws are accepted, for every bound |
| ShimRandom.Shim.InitState | src/shim/linbox.c:142-180 | an initialized state is left alone; otherwise the shared seed is the cell's, or 0 without a controller, the effective seed is the process seed of it and the pid, and the generator starts from that |
| RandomRuns.CellsTellStreamsApart | src/shim/linbox.c:172-177 | two processes with one pid start with the same word at an index iff their seed cells agree, but for the one pair that seeding merges |
| RandomRuns.DetachedStartsFromZero | src/shim/linbox.c:172-177 | a process without a controller starts like one that finds 0 in the cell |
| ShimRandom.Shim.SeedValue | src/shim/linbox.c:40-54 | refreshes shared and effective seed when the cell changed, and returns the effective one |
| ShimRandom.Shim.RandomFill | src/shim/linbox.c:62-73 | after refresh and guard, fills the bytes of the generator's stream |
| ShimRandom.Shim.RandomUniform | src/shim/linbox.c:81-91 | after refresh and guard, draws from the generator's stream |
| ShimRandom.Shim.ReinitState | src/shim/linbox.c:182-202 | forgets the old seeds and initializes again, as a forked child does |
| ShimRandom.Shim.EnsureRandSeeded | src/shim/random.c:71-77 | unless seeded before, srand and srandom with the low half of the effective seed, each refreshed from the cell first |
| ShimRandom.Shim.Srand | src/shim/random.c:107-110 | starts the process-wide generator from the 32-bit seed and counts rand as seeded |
| ShimRandom.Shim.Rand | src/shim/random.c:102-105 | after seeding once, four bytes of the process-wide stream, little end first, without the top bit |
| RandomRuns.GuardNeverFires | src/shim/linbox.c:62-91 | once initialized, the reseed guard of a draw never fires |
| RandomRuns.FirstRandSeeds | src/shim/random.c:71-77 | however the cell changes between its loads, the first rand starts the generator from the low half of the process seed of the last value loaded, or of 0 without a controller |
| RandomRuns.RunIsWalk | src/shim/linbox.c:40-91 | any run of initializations, draws, rand, srand and forks of a started process, with any seed cell values in between, gives the outputs of a bare generator that restarts at srand, at forks, at the first rand, and nowhere else |
| RandomRuns.RunFromStart | src/shim/linbox.c:142-180 | from before the constructor: srand before any other call only keeps rand from seeding, and the rest is one walk from the seed found at the first initialization, by whatever call |
| RandomRuns.LastSrandDecides | src/shim/random.c:107-118 | in every run from before the constructor that has initialized, all output after an srand is the walk from its seed |
| RandomRuns.WalkIsContiguous | src/shim/prng.c:43-68 | between restarts each draw starts in the stream exactly where the previous one stopped |
| RandomRuns.RunAfterSrand | src/shim/linbox.c:56-60 | after srand the outputs of an initialized process depend on the seed and the calls alone |
| RandomRuns.CellsMatterExactlyWhenRandFindsThem | src/shim/random.c:71-77 | the outputs of a run are the same for all values of the seed cell iff no rand comes, in an attached process, before it or a parent has called rand or srand |
| RandomRuns.SrandBeforeInitIsLost | src/shim/linbox.c:56-60 | an srand before initialization leaves the generator as it would be without, with rand counted as seeded |
| RandomRuns.ForkedStreamsDiffer | src/shim/linbox.c:172-202 | processes initialized from the same cell start with streams that differ at every index iff their pids differ |
| RandomRuns.ChildKeepsRandSeeded | src/shim/linbox.c:182-202 | a forked child starts the stream of its own pid and cell, and its rand draws from that without seeding again if the parent's rand was seeded |
| RandomRuns.FirstRandSharesStream | src/shim/random.c:71-77 | after the first rand of each, two processes that found the same cell share each later word iff the low halves of their process seeds agree |
| RandomRuns.RandCanShareStream | src/shim/random.c:71-77 | with shared seed 24 the processes 3657 and 4882 start with streams that differ in every word and share every word after their first rand |
| RandomRuns.KnownDraws | src/shim/random.c:79-105 | the first eight bytes of getrandom and the first rand of process 3657 with shared seed 24, and the first rand after srand(1), as numbers |
| Sbp.DeserializeSerialize | src/common/sbp.c:132-217 | reading back a written message gives it, negative times included; other versions are refused as such |
| Sbp.Layout | src/common/sbp.h:11-17 | every byte of a frame in numbers: version and type 1 to 5, flags at 2, length at 4, the fields from 8 on, little end first, negative times as two's complement |
| Sbp.StatusOfAnyBytes | src/common/sbp.c:100-217 | what becomes of any bytes, in the order of the checks: length, version, type, payload length of the type, else accepted |
| Sbp.SerializeDeserialize | src/common/sbp.c:132-217 | writing what was read gives the frame back byte for byte |
| Sbp.AcceptedExactlyWhenWritten | src/common/sbp.c:164-217 | the accepted frames are exactly the images of version-1 messages |
| Sbp.FramesAreSelfDelimiting | src/common/sbp.c:106-122 | proper prefixes and extensions of an accepted frame are rejected for their length |
| Sbp.ConcatenationRejected | src/common/sbp.c:120-122 | two or more frames in one buffer are always rejected |
| SbpBuffers.WriteLe64 | src/common/sbp.c:31-35 | the loop writes the eight little-endian bytes and nothing else |
| SbpBuffers.ReadLe64 | src/common/sbp.c:11-17 | the loop reads the little-endian value |
| SbpBuffers.EncodeFrame | src/common/sbp.c:72-98 | the status for every argument error in the code's order, NULL pointers included, and on success the exact frame with the rest of the buffer untouched |
| SbpBuffers.DecodeFrame | src/common/sbp.c:100-130 | computes the header check of the wire format |
| SbpBuffers.SerializeMessage | src/common/sbp.c:132-162 | computes the frame of the message, or the right error with the buffer untouched |
| SbpBuffers.DeserializeMessage | src/common/sbp.c:164-217 | computes the message of the frame, or the right error |
| ProcessTable.RegisterProcess | src/controller/main.c:65-89 | the scanning loop takes the first free slot iff the pid is nonzero and nowhere in the table |
| ProcessTable.ReapDeadProcesses | src/controller/main.c:91-106 | the loop clears exactly the slots of dead processes |
| ProcessTable.RegisterRefinesInsert | src/controller/main.c:65-89 | with distinct pids, registering is insertion into a set bounded by the table size, holes or not |
| ProcessTable.NewPidTakesFirstFreeSlot | src/controller/main.c:70-88 | a new pid that is not 0 takes the first free slot, with no flags; otherwise, or when no slot is free, the table stays as it is |
| ProcessTable.RegisterIsIdempotentAndLocal | src/controller/main.c:65-89 | registering twice is registering once, no used slot changes, a full table is left alone |
| ProcessTable.ReapRemovesExactlyTheDead | src/controller/main.c:91-106 | reaping intersects the pids with the living and moves nobody |
| ProcessTable.TableRefinesBoundedSet | src/controller/main.c:65-106 | over every run from the empty table, pids are distinct and behave as a set of at most 64 |
| TimeManager.NsAddTotal | src/controller/time-manager.c:8-18 | despite truncating division the result is normalized and denotes the sum in int64_t |
| TimeManager.NsAddExactly | src/controller/time-manager.c:8-18 | the sum is exact iff it fits int64_t |
| TimeManager.NsAddComposes | src/controller/time-manager.c:8-18 | advancing twice is advancing by the sum |
| ControllerRuns.RequestTakesEffectThenAck | src/controller/main.c:108-142 | a request frame takes effect first and is answered by at most one ACK; the client stays iff the ACK went out. SET_TIME changes and publishes the time, SET_SEED changes and stores the seed, REGISTER takes the pid in, up to 64, and leaves used slots alone, HELLO changes nothing, and nothing else changes |
| ControllerRuns.AckEchoesFlags | src/controller/main.c:50-62 | the reply is the eight bytes of an ACK with the flags of the request |
| ControllerRuns.SetTimeCanPublishUnnormalized | src/controller/time-manager.c:67-74 | a SET_TIME of 0 seconds and -1 nanoseconds makes a time current that is not normalized |
| ControllerRuns.OtherInputChangesNothing | src/controller/main.c:111-119 | anything but a request frame changes nothing, gets no answer and costs the connection |
| ControllerRuns.NewcomerIsLiveExactlyBelowLimit | src/controller/main.c:201-208 | a newcomer joins the table below 64 clients and is closed at once otherwise |
| ControllerRuns.TickExactly | src/controller/main.c:227-235 | unless the clock has moved a tick does nothing; otherwise it advances and publishes the time, takes exactly the dead out of the process table, and touches nothing else |
| ControllerRuns.TurnAcceptsServesTicks | src/controller/main.c:201-235 | a client that connects and sets the time is accepted and served in one turn, and that turn's tick advances the time it set |
| ControllerRuns.FailedPollEndsLoop | src/controller/main.c:194-199 | a failed poll ends the loop, whatever would come after |
| ControllerRuns.InterruptedPollIsSkipped | src/controller/main.c:194-197 | an interrupted poll is as if it had not been |
| ControllerRuns.StartsAt2025 | src/controller/time-manager.c:20-56 | the controller starts at the fixed epoch with seed 0, published in that order, and nobody registered or connected |
| ControllerRuns.SweepKeepsDesk | src/controller/main.c:210-225 | the table pass keeps connections conserved, pids distinct, time due at every publication and the newest one current, under any poll results and messages |
| ControllerRuns.RunsConserve | src/controller/main.c:176-240 | over whole runs: at most 64 clients, every accepted connection live or closed as often as accepted and all closed at exit, time equal to the last value set plus monotonic time since iff nothing overflowed |
| ControllerRuns.TickAdvancesExactly | src/controller/main.c:229-233 | a tick moves virtual time forward iff the sum stays inside int64_t, and backwards otherwise |
| ControllerRuns.TimesForwardExactly | src/controller/main.c:176-235 | the times a run publishes never decrease iff every SET_TIME served sets no earlier time than is current then and no tick overflows |
| ControllerRuns.ClosedAtMostOnce | src/controller/main.c:176-240 | in every run that accepts no connection twice, the live and the closed are together the accepted ones, each once, and none is closed twice, shutdown included |
| Hangups.ChargedExactlyWhenOrderly | src/controller/main.c:210-225 | over every table, poll result and message, exactly the clients are closed that hung up or whose own message fails, iff the table is orderly: none of the first k hung up, k being how many should stay, and no client from place k on is misjudged by a read, except where place k hung up and all leave up to that client |
| Hangups.HangupClosesTheRest | src/controller/main.c:210-217 | reaching a hangup closes every client from that index on |
| Hangups.HangupsChargedExactlyWhenLast | src/controller/main.c:210-225 | as long as no message fails of clients that have not hung up, exactly the clients that hung up are closed iff they are the last ones of the table |
| Hangups.HangupClosesNeighbour | src/controller/main.c:210-217 | with two clients, a hangup of the first closes the second too |
| Hangups.FailedMessageClosesQuiet | src/controller/main.c:217-222 | with the first message failing and the third client hung up, the second, of which poll reported nothing, is read and closed too |
| Hangups.FailedMessagesReadTheRest | src/controller/main.c:217-222 | from a failed message on, every client is read and closed as long as messages fail, whatever poll said of them |
| Hangups.OnlyReadableReadExactly | src/controller/main.c:210-222 | whatever the messages, only clients reported readable are read, iff the first report is a hangup or every client from it on is readable |
| Hangups.ReadAtMostOnce | src/controller/main.c:210-225 | no client is read twice in one pass, however often it is moved |
| Hangups.PassServesWhatItReads | src/controller/main.c:210-225 | a pass does to the state and publishes what serving the clients it reads from one after the other does |
| Hangups.GoodPassReadsTheReadable | src/controller/main.c:210-225 | without hangups and failing messages a pass reads exactly the clients reported readable, in table order, and closes nobody |
| Server.Segment.WriteTime | src/common/shm.c:133-145 | in the controller's own view a write leaves the new time and the counter two further on |
| Server.Server.HandleClientMessage | src/controller/main.c:108-142 | the decoded message is acted on as module Controller says, published state included |
| Server.Server.ServeClients | src/controller/main.c:210-225 | the in-place swap-remove loop terminates and computes the pass over the table |
| Server.Server.TickTo | src/controller/main.c:227-235 | time advances, is published, and dead processes are reaped iff the clock moved forward |
| Server.Server.Serve | src/controller/main.c:181-240 | the main loop and shutdown compute the run over all turns and close every live client |
| EndToEnd.AckedTimeIsVisible | src/controller/main.c:124-131 | on x86-64 memory every read that begins after the ACK of a SET_TIME, in any process, returns that time or a later publication |
| EndToEnd.ReadsShowDueTime | src/controller/main.c:176-235 | over whole runs of controller and x86-64 memory, every time read, unless the counter wrapped, is the initial zero or the controller's time at that publication, and that is the last value set plus monotonic time since iff nothing overflowed |
| EndToEnd.TimeNeverRunsBackwardsExactly | docs/gaps/multi-process-time-consistency.md:12 | for every controller run: in all x86-64 memory runs that carry it out no later read shows an earlier time, iff every SET_TIME served sets no earlier time than is current then and no tick overflows |
| Environment.InjectionPreservesMeaning | src/shim/process.c:46-126 | original entries stay in front, bound names keep their values, lacking runtime variables are bound to the shim's values unless these are empty, every other name looks up as before |
| Environment.AppendedExactly | src/shim/process.c:92-121 | exactly the variables with a nonempty value that the environment lacks are appended, each once and in order, as name, '=' and value |
| Environment.LookupIsFirstEntry | src/shim/process.c:71-74 | a name looks up to what follows in the first entry that begins with it and an '=' |
| Environment.InjectionIsIdempotent | src/shim/process.c:61-82 | injecting twice is injecting once |
| Environment.RuntimeNamesWellNamed | src/shim/process.c:47-52 | the four runtime names are different and free of '=' |
| InjectedEnv.CountMissing | src/shim/process.c:61-78 | the first pass counts exactly the entries the second appends |
| InjectedEnv.AppendMissing | src/shim/process.c:93-124 | the second pass fills the array to its last slot with strings that fill their allocations to the last byte, and on a failed allocation releases everything |
| InjectedEnv.InjectRuntimeEnv | src/shim/process.c:46-126 | the result reads as the injected environment and owns exactly the array and the added strings; NULL iff an allocation failed, with nothing left allocated, or a NULL environment needed nothing |
| InjectedEnv.FreeInjectedEnv | src/shim/process.c:128-146 | releases the array and exactly the added strings, each once |
| InjectedEnv.FailedExec | src/shim/process.c:255-265 | when the call fails, at whatever point, the heap is as before |
| InjectedEnv.NullNeedsNothingExactly | src/shim/process.c:61-82 | a NULL environment needs nothing, and so comes back as NULL, iff every runtime variable is unset or empty |
| SeccompFilter.CompileIsCorrect | src/shim/seccomp.c:22-48 | for every rule list and syscall number the compiled program returns the first matching rule's verdict, or ALLOW |
| SeccompFilter.VerdictNumbers | src/shim/seccomp.c:17-28 | the return words of allow, trap and errno as numbers |
| SeccompFilter.RuleNumbers | src/shim/seccomp.c:22-31 | the instruction words of the program of one rule as numbers |
| SeccompFilter.HaltsWithinLength | src/shim/seccomp.c:30-48 | no program executes more instructions than it has, whether it returns or faults |
| SeccompFilter.ShippedFilterIsCorrect | src/shim/seccomp.c:30-48 | the installed filter traps the four time and randomness calls, refuses io_uring with ENOSYS and allows the rest |
| TimeViews.ViewsAgree | src/shim/time.c:100-168 | gettimeofday and time of one normalized snapshot are the same instant, each floored to its unit, and the ticks of times are its floor iff the floor and the nanosecond product fit int64_t |
| TimeViews.ViewsFailTogether | src/shim/time.c:106-158 | without a snapshot every view fails, and so does times without a tick rate |
| TimeViews.TicksAreFloorExactly | src/shim/time.c:159-160 | with a nanosecond product that fits, the split tick formula in int64_t is the floor of the scaled total, for every sign of the seconds, iff that floor fits and the nanoseconds lose nothing negative |
| TimeViews.NormalizedTicksAreFloorExactly | src/shim/time.c:159-160 | for normalized times the formula is the floor iff the floor and the nanosecond product fit int64_t |
| TimeViews.MicrosAreFloorExactly | src/shim/time.c:112-113 | gettimeofday is the floor to microseconds iff the nanoseconds lose nothing negative |
| TimeViews.ViewsAreMonotone | src/shim/time.c:100-168 | no view runs backwards when snapshots do not, ticks as far as int64_t reaches |

## Left out

- Prng.Generator.Uniform: stops after a given number of rejected draws, where the code loops on; that the loop always ends needs the period of the generator, which is not part of this model.
- ShimRandom.Shim.RandomUniform: stops after a given number of rejected draws, as Prng.Generator.Uniform does.
- SharedTime.ReadTime: gives up after a given number of passes, where the code retries for ever; Linearizability.AttemptReturnsExactlyWhenUndisturbed says when a pass succeeds.
- Seqlock.CanIssue: stores and loads of the seqlock happen in the order the source writes them, but for the two words of a time. Release and acquire alone do not keep a C compiler from moving the plain accesses to `virtual_time` across the counter accesses.
- StoreBuffer.Fence: a locked instruction inside the socket write that sends an ACK is assumed, as on x86-64 kernels; other architectures are not modelled.
- TimeManager.NsAdd: C leaves int64_t overflow undefined; the model wraps, and says when nothing overflows.
- TimeViews.Ticks: C leaves int64_t overflow undefined; the model wraps. `clock()`, whose product overflows at the fixed epoch, is not part of this model.
- SbpBuffers.DeserializeMessage: returns no message on an error, where the code may have filled part of the output.
- SeccompFilter.Compile: the 16-bit length of the installed program and the kernel's limit on it are not modelled; the shipped program has 16 instructions.
- Controller.Handle: an ACK of which only a part could be written counts as not sent. Writing to a peer that has closed raises SIGPIPE, which nothing in src/controller ignores, so the code can die where the model drops one client.
- Controller.Delivered: a read with nothing in the inbox counts as end of file, where the code waits until something arrives.
- ProcessTable.RegisterProcess: the heartbeat a slot gets is not modelled.
- Server.Segment.WriteTime: the heartbeat stored after the time is not modelled.
- TimeViews.Gettimeofday: the early return for a NULL `tv` is not modelled.
- Server.Segment: policy offsets and flags of the segment, and attaching to a segment left by another controller, whose counter may be odd.
- Sockets, poll, accept, read, clocks, signals and process liveness are inputs; a connection is a number that is never reused.
- Fork, clone, exec and prctl themselves, and argument copying for the exec family.
- `rand_r`, which uses a generator of its own, the size limit of `getentropy`, and the virtual file descriptors for /dev/urandom, whose reads are fills; status strings, and the fallback to real time.
