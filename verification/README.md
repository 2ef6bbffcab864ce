# Anticheat: a verified model

Dafny models of the parts of the anticheat that carry state or encode data, with proofs of what they
guarantee over every input, every run or every interleaving. Memory, processes, the clock, the network and the
file system appear as parameters, so a statement "for every script of reads" or "for every list of areas"
quantifies over all the environment can do.

| file | what it models |
|---|---|
| `WordFunctions.dfy`, `Fips180.dfy`, `Sha256.dfy` | the hash as FIPS 180-4 defines it, and the streaming context of `src/sha256.c` |
| `Fips180Example.dfy` | the published one-block example, round by round |
| `MemoryHash.dfy` | hashing a process's memory through short reads |
| `EventRing.dfy` | the overwrite-oldest event ring |
| `Slots.dfy`, `Registry.dfy` | slot arrays as maps; the protected-task registry with its references |
| `ForkRaces.dfy` | the registry's callers, interleaved lock section by lock section, with their task references |
| `FdState.dfy` | first use of a device file by several threads, with delayed stores |
| `Snapshot.dfy` | the BEGIN/GET/END snapshots of one device file |
| `SyscallTable.dfy` | table discovery, derived text bounds, the integrity check |
| `PidTables.dfy` | the daemon's per-pid baseline and warned-once tables |
| `Json.dfy`, `JsonExtract.dfy` | escaping, the report body, the targeted extractor |
| `JsonReader.dfy` | a reader of JSON objects with any members, and what it makes of a report body |
| `JsonGrammar.dfy`, `JsonLexemes.dfy` | that the reader is one of RFC 8259: its objects, and its numbers and escapes |
| `Utf8.dfy` | decoding with replacement, and what any such decoder does to a report body |
| `PipeRecords.dfy` | records reassembled from a pipe |
| `RateLimiter.dfy`, `ClockDisorder.dfy` | the limiter, in and out of clock order |
| `Database.dfy`, `Server.dfy` | the two tables, and the report and ban server on them |
| `ServerReplies.dfy` | what the server answers, by the words of the request and the requests before it |
| `Pipeline.dfy` | the parts joined: detection to stored report, limiter to server, registry to tables |
| `Common.dfy`, `Arithmetic.dfy`, `Sets.dfy`, `Octets.dfy` | shared definitions, facts on division, set sizes and bytes as bits |

Code that updates things in place is a class or a method with loops, proved equal to a function of its old
state; the run-level results are lemmas about those functions.

## What the proofs found

- The limiter's sliding bound is `2 * limit - 1`, one less than the "double-rate burst" its comment allows,
  because the request that opens a bucket cannot share an interval with the next bucket. The bound is reached
  for every limit and window (`SlidingWindowBoundIsTight`).
- Pruning is invisible exactly in the runs where no request comes for an unexpired bucket that was pruned
  (`PruningInvisibleExactly`, with no assumption on the clock). A reading no earlier than the last prune never
  does (`PruningIsInvisible`), so non-decreasing readings are more than enough; `BackwardClockShowsPruning` is a
  run where an earlier one does.
- `allow` reads the clock before it takes its lock, so readings can reach it out of order. As long as none lies
  before the last prune, the sliding bound is `3 * limit - 2` instead (`DisorderedBound`), and that is reached
  (`DisorderedBoundIsTight`). With readings before the last prune there is no bound (`StaleReadingsAreUnbounded`).
- A BEGIN that fails after it has started building discards the previous snapshot, and a BEGIN whose result
  cannot be copied out keeps the new one although it reports an error. `GetReadsTheLatestSnapshot` is the
  exact statement.
- The integrity check raises a false alarm on the handlers discovery saw exactly when one lies outside a text bound
  that was known beforehand or, with the upper bound derived, the topmost lies on a 2 MiB boundary; unless a bound is
  still unknown (`NoFalseAlarms`). `UntouchedTableIsFlagged` is a kernel where discovery, with no symbol known, finds
  the table and a check of it then alerts on all entries but one.
- `ac_report` does not escape the client id. To a JSON reader the body is an object exactly when the id leaves it
  between members of that object, and the event, detail and time are then always the daemon's own
  (`BodyReadsExactly`); the id reads back as itself if and only if it holds no quote, backslash or control byte
  (`IdReadsBackIffPlain`). Some other ids read back as a different one (`SomeIdsReadAsOthers`). A report is filed under
  its own id if and only if that is made of the characters of an id (`FiledUnderItselfExactly`): the server's pattern
  ends in `$`, which in Python also accepts a final newline, and no report is ever filed under such an id
  (`NewlineIdIsLost`).
- `ac_clone_ret` ignores the result of the registration: with the registry full, a child is left unprotected
  (`ForkInherits` says exactly when) while the event still reports inheritance (`FullRegistryLosesChild`).
- `ac_clone_ret` takes the registry lock three times. With other sections in between it still acts as one fork if
  the parent's entry stays as it was (`InterleavedForkIsAtomic`); a flag set after it was read is missed
  (`LateFlagIsMissed`).
- A child that exits before its parent returns from the fork is listed after its exit (`ExitBeforeForkReturns`;
  `ExitedButListedExactly` says exactly when). DEL_PROC looks tasks up by pid, so once such a child is reaped only
  unload frees its slot.
- The manifest extractor agrees with section 7 of RFC 8259 exactly on strings whose only escapes are of the
  quote, the backslash and the slash (`AgreesWithJson`); an escaped newline comes out as the letter n
  (`NewlineIsExtractedAsLetter`).

## Assumptions

- Each ioctl, probe handler and HTTP request is one step, except in `FdState`, where every load, store and lock
  operation is one, and in `ForkRaces`, where every section under the registry lock, every lookup of a task and every
  drop of a reference is. The registry's methods are proved with any references borrowed by other callers.
- `SlidingWindowBound` and what follows from it ask that requests reach the limiter in the order of their clock
  readings. The memory and fixed-window results and `DisorderedBound` ask only that no reading lie before the
  limiter's last prune, and `PruningInvisibleExactly` asks nothing.
- Of a decoder it is asked only that an ASCII byte stand for itself and that other bytes become no more characters
  than they were, none of them ASCII (`Utf8.KeepsAscii`); the server's decoder is shown to be one.
- In `FdState` stores become visible late and out of order, a release store and an unlock wait for the
  stores before them, and loads are performed in order.
- Counters the code keeps in 32 bits (`ac_dropped`, the VMA counts) are unbounded. The hash's 64-bit length
  wraps as in the code.
- Time is a real number. The server's stored keys are ASCII text.

## Model

| member | source | states |
|---|---|---|
| Fips180.ConstantsAreCubeRoots | src/sha256.c:8-20 | Each of the 64 constants is the first 32 bits of the fraction of the cube root of the corresponding prime |
| Fips180.InitialHashIsSquareRoots | src/sha256.c:68-71 | The initial hash value comes from the square roots of the first eight primes |
| WordFunctions.RotrIsUndone | src/sha256.c:22-25 | Rotating left by the same amount gives the word back |
| WordFunctions.Ch | src/sha256.c:52 | Takes each bit from the second or third argument as the first chooses |
| WordFunctions.Maj | src/sha256.c:55 | Takes the majority of each bit |
| Fips180.WordRoundTrip | src/sha256.c:27-31 | Big-endian loads and the byte stores of final are inverse to each other, both ways |
| Fips180.ZeroBytesIsMinimal | src/sha256.c:106-108 | The zero padding is the least that section 5.1.1 of FIPS 180-4 allows |
| Fips180.BigEndianIsPositional | src/sha256.c:103-104 | The eight length bytes read back as the length modulo 2^64 |
| Fips180.DigitIsShift | src/sha256.c:103-104 | Byte i of the length field is the bit count shifted right by whole bytes |
| Fips180.IteratePrefix | src/sha256.c:76-94 | For any compression function, blocks already hashed are unaffected by later bytes |
| Sha256.FillSchedule | src/sha256.c:39-45 | The array filled in place equals the recursive message schedule for every block |
| Sha256.BlockInPlace | src/sha256.c:33-64 | In-place compression with eight rotating variables equals section 6.2.2 for every state and block |
| Sha256.RotatingRounds | src/sha256.c:47-60 | Sixty-four turns of the eight rotating variables are the sixty-four rounds of section 6.2.2 |
| Fips180Example.DigestOfAbc | src/sha256.c:33-134 | The digest of the three bytes abc is the published one of FIPS 180-4, through all 64 schedule words and rounds |
| Sha256.AbsorbPartial | src/sha256.c:82-88 | Bytes that do not fill the buffer leave the chaining value and lengthen the tail |
| Sha256.AbsorbBlock | src/sha256.c:89-92 | Bytes that fill the buffer compress exactly the tail followed by them |
| Sha256.Context.constructor | src/sha256.c:66-74 | A new context stands for the empty message |
| Sha256.Context.Absorb | src/sha256.c:82-92 | One turn of the update loop keeps the context consistent with one more piece of message |
| Sha256.Context.Update | src/sha256.c:76-94 | update appends any bytes, none included, to the message the context stands for |
| Sha256.Context.PadZeros | src/sha256.c:107-108 | The padding loop ends, by (56 - buflen) mod 64, after exactly the required zeros |
| Sha256.Context.Final | src/sha256.c:96-117 | final returns the digest of everything absorbed |
| Sha256.LengthField | src/sha256.c:103-104 | The shift loop writes the big-endian bit count |
| Sha256.EmitWords | src/sha256.c:111-116 | The output loop writes the eight words big-endian |
| Sha256.WrappedDigestIsStandard | src/sha256.c:98 | Below 2^61 bytes the wrapped bit count is the true one and the digest is that of FIPS 180-4 |
| Sha256.DigestOfChunks | src/sha256.c:66-117 | For every way of cutting a message into updates, init, update and final return the FIPS 180-4 digest of the whole |
| Sha256.HexInPlace | src/sha256.c:129-133 | The hex loop writes two digits per byte and a terminating NUL |
| Sha256.Sha256Hex | src/sha256.c:119-134 | The one-shot form is the hex text of the digest |
| Sha256.HexMeans | src/sha256.c:129-132 | Each byte becomes two lower-case hexadecimal digits, the high one first |
| Sha256.HexInjective | src/anticheat_daemon.c:2458-2466 | Two hex texts are equal exactly when the bytes are, so comparing saved text compares digests |
| MemoryHash.HashProcMem | src/anticheat_daemon.c:342-389 | For every pattern of short reads and interruptions, and however memory changes between the reads, success means that as many bytes as asked for were received and the text is the hash of exactly those; failure means a failed read or an early end |
| MemoryHash.UnchangedMemoryIsRead | src/anticheat_daemon.c:350-370 | If the range holds the same bytes at every read, the bytes received are those of the range, in order and without gap or overlap |
| MemoryHash.AllOfferedIsReceived | src/anticheat_daemon.c:350-370 | As many bytes are received as the reads had to offer, each up to 1 MiB, or as were asked for if that is fewer |
| EventRing.SlotIsModulo | src/anticheat_module.c:370-383 | The next slot of the wrapped ring is the sum modulo its size, so head stays (tail + count) mod size |
| EventRing.Ring.constructor | src/anticheat_module.c:353-358 | A new ring is an empty queue |
| EventRing.Ring.Emit | src/anticheat_module.c:361-386 | Emitting appends to the bounded queue, dropping and counting the oldest event when full |
| EventRing.Ring.Drain | src/anticheat_module.c:388-405 | A get removes and returns the oldest events, as many as are pending or fit in the batch, a flush removes all, and the reported drop count is the current one |
| EventRing.EveryEventIsAccountedFor | src/anticheat_module.c:353-405 | Over every run, pending events are the latest emissions, delivered events are the emissions fated so in emission order, and the counter counts the dropped ones |
| EventRing.StepMeans | src/anticheat_module.c:361-405 | After any run, what the next step does to the events left: an emission drops and counts the oldest only if as many are left as the ring holds, a get delivers the oldest, as many as are left or fit in the batch, a flush takes all and delivers none |
| EventRing.Conservation | src/anticheat_module.c:353-405 | Emitted = delivered + dropped + flushed + pending after every run |
| EventRing.DropCounterDetectsLoss | src/anticheat_module.c:388-405 | Between two reports with no flush, the drop counter grows by the number of events lost, and is unchanged if and only if none was |
| Slots.Fill | src/anticheat_module.c:495-500 | Filling a free slot, or rewriting one with its own key, changes exactly one entry of the map the slots stand for |
| Slots.Empty | src/anticheat_module.c:529-533 | Freeing a slot removes exactly its entry |
| Slots.Size | src/anticheat_module.c:488-493 | There are as many entries as used slots, and a free slot exactly when there are fewer entries than slots |
| Registry.Table.AddProtTask | src/anticheat_module.c:475-504 | Adds a task, or only updates a listed task's flag, or fails with no change when full; one reference per listed task is held throughout |
| Registry.Table.DelProtTask | src/anticheat_module.c:522-537 | Removes the task's entry and drops exactly its reference |
| Registry.Table.Release | src/anticheat_module.c:1367-1370 | Freeing a slot drops the reference it held and no other |
| Registry.Table.ClearProtected | src/anticheat_module.c:1360-1374 | Afterwards nothing is listed, the count is 0 and no reference is held |
| Registry.Table.IsProtectedTask | src/anticheat_module.c:560-575 | True exactly for listed tasks |
| Registry.Table.TaskJitAllowed | src/anticheat_module.c:543-558 | The listed task's flag, false for others |
| Registry.Table.ListProtected | src/anticheat_module.c:605-624 | The listed entries in slot order, as many as are listed up to the limit |
| Registry.ItemsAreEntries | src/anticheat_module.c:605-624 | An entry is among those reported if and only if it is that of a listed task |
| Registry.Table.AddProtPid | src/anticheat_module.c:506-520 | Every borrowed reference is returned on every path, and the result code says which case applied |
| Registry.Table.DelProc | src/anticheat_module.c:1130-1142 | Deletes the resolved task and returns the borrowed reference, or reports that there is none |
| Registry.Table.CloneRet | src/anticheat_module.c:733-754 | A resolved child of a listed parent is added with the parent's flag, the fork event is raised exactly for every such child, and every borrowed reference is returned |
| Registry.Table.ExitPre | src/anticheat_module.c:763-771 | An exiting task is no longer listed, and the exit event is raised exactly if it was |
| Registry.ForkInherits | src/anticheat_module.c:733-754 | The child of a protected parent is protected afterwards exactly when it was already or a slot was free, with the parent's flag, and no other task is affected; the event is raised in every case |
| Registry.FullRegistryLosesChild | src/anticheat_module.c:491-494 | For every registry size, protecting as many tasks as fit and forking the first leaves the child unprotected although the event is raised |
| Registry.ListedExactly | src/anticheat_module.c:475-537 | After every run a task is listed if and only if some addition or fork listed it, or it was listed at the start, and nothing removed it since |
| Registry.ExitedButListedExactly | src/anticheat_module.c:733-771 | A task that exited during a run is listed after it if and only if a later addition or return from its fork listed it and nothing removed it since |
| Registry.ExitBeforeForkReturns | src/anticheat_module.c:733-771 | A child that exits before its parent returns from the fork is listed afterwards if a slot is free |
| Registry.DescendantsAreProtected | src/anticheat_module.c:475-558 | Over every run, descendants of any generation forked while a slot was free stay protected until their own exit, deletion or unload, and keep the root's flag unless re-protected |
| Registry.InfoIsOfFirstListing | src/anticheat_module.c:475-504 | After every run, a listed task's pid and name are those given by the step that listed it first since it was last removed |
| Registry.FlagIsOfLastWrite | src/anticheat_module.c:475-558 | Its flag is that of the last ADD_PROC of it since, or for a fork the flag its parent had at that time |
| Registry.EveryEntryHasASource | src/anticheat_module.c:475-520 | From an empty registry, every listed task has such a step for its name and one for its flag |
| Registry.NeverOverfull | src/anticheat_module.c:491-494 | No run lists more tasks than there are slots |
| ForkRaces.NeverOverfull | src/anticheat_module.c:475-537 | Nor does any interleaving of lock sections |
| ForkRaces.ReferencesBalance | src/anticheat_module.c:423-537 | In every interleaving of lookups, lock sections and drops, the module holds one reference per listed task and one per caller that has borrowed one, and no others |
| ForkRaces.ReferencesAreSafe | src/anticheat_module.c:423-537 | So no step drops a reference that is not held, each step that drops any drops exactly those it should, and whenever no call is running there is exactly one reference per listed task |
| ForkRaces.DescendantsAreProtected | src/anticheat_module.c:733-771 | In every interleaving, descendants of any generation are protected until they are removed or the module unloads, even if the ancestor is gone when they are listed, and have the root's flag if nobody else writes one |
| ForkRaces.InterleavedForkInherits | src/anticheat_module.c:733-754 | In every interleaving, once the parent was seen protected the child ends up protected exactly when it was already or a slot is free, even if the parent is gone by then, with the flag the parent had when it was read and the pid and name the lookup found |
| ForkRaces.LastSectionIsForkExactly | src/anticheat_module.c:475-504 | The last section has the effect of one undivided fork if and only if the parent is listed with the flag that was read, or the child is turned away, or the child already has that flag and the parent is gone |
| ForkRaces.InterleavedForkIsAtomic | src/anticheat_module.c:733-754 | A fork in three sections is one undivided fork whatever comes between, if the parent's entry stays as it was |
| ForkRaces.LateFlagIsMissed | src/anticheat_module.c:748 | An interleaving in which the parent's flag is set between the second and third sections and the child does not get it |
| FdState.StepInv | src/anticheat_module.c:887-917 | Every single load, store and lock step keeps the publication invariant |
| FdState.AtMostOnePublication | src/anticheat_module.c:887-917 | In every interleaving at most one state is published, and it is never replaced |
| FdState.CallersAgree | src/anticheat_module.c:889-912 | Every caller that got a state got the published one, with its lock's initialisation visible |
| FdState.FailureIsOwnAllocation | src/anticheat_module.c:898-905 | In every interleaving, a caller that has returned got no state if and only if its own allocation failed |
| FdState.SuccessIsThePublished | src/anticheat_module.c:889-916 | Once the state that some caller allocated becomes visible, every caller that returns without a failed allocation of its own returns that one |
| FdState.LoadAfterPublicationSucceeds | src/anticheat_module.c:889-901 | A caller whose first or second load comes after a publication never fails, and returns the published state |
| FdState.ReturnedIsInitialised | src/anticheat_module.c:906-912 | Before any caller returns a state, its allocator's initialisation of it has become visible |
| FdState.NothingLeaks | src/anticheat_module.c:902-916 | While nobody holds the allocation lock, every allocated state is reachable from the file |
| FdState.EveryCallReturns | src/anticheat_module.c:887-917 | No call takes more than nine steps, and an interleaving that cannot continue has every call returned |
| Snapshot.Session.Walk | src/anticheat_module.c:974-1036 | The loop captures the first 4096 areas with their paths cut to 127 bytes, or empty when they cannot be had; its counts are filter counts over exactly those areas, truncated is set exactly when there are more, and the alerts are one per matching area in order |
| Snapshot.Session.BuildVmaSnapshot | src/anticheat_module.c:945-1038 | Success replaces the snapshot by the captured areas, in an array of full capacity; each failure leaves none, of size 0 |
| Snapshot.Session.BuildModSnapshot | src/anticheat_module.c:1040-1083 | The first 1024 sane modules are captured in order, names cut to 63 bytes, or none on allocation failure |
| Snapshot.Session.ScanBegin | src/anticheat_module.c:1143-1171 | The code returned in every environment, the counts reported on success, the alerts raised, and what snapshot each outcome leaves: the earlier one if the call never got to building, otherwise the new one or none |
| Snapshot.Session.ScanGet | src/anticheat_module.c:1172-1194 | The code returned in every case; GET succeeds exactly when the index is below the snapshot's size, and returns that element |
| Snapshot.Session.ScanEnd | src/anticheat_module.c:1195-1206 | END leaves no snapshot |
| Snapshot.Session.ModsBegin | src/anticheat_module.c:1218-1235 | The code returned in every environment, the number of captured modules on success, and what each outcome leaves |
| Snapshot.Session.ModsGet | src/anticheat_module.c:1236-1258 | The code returned in every case; GET succeeds exactly when the index is below the number of captured modules, and returns that element |
| Snapshot.Session.ModsEnd | src/anticheat_module.c:1259-1270 | END leaves no module snapshot |
| Snapshot.TestsMean | src/anticheat_module.c:1004-1030 | The three tests on the flags as bits: both of 6 set, 4 set, 4 set and no file |
| Snapshot.CountsMean | src/anticheat_module.c:1000-1036 | The counts are how many of the first 4096 areas have these bits; the writable and executable ones, and the executable ones without a file, are at most the executable ones; truncated means more than 4096 areas |
| Snapshot.AlertsMean | src/anticheat_module.c:1004-1028 | An alert is raised if and only if one of the first 4096 areas has the bits, and it carries that area's range and, for a writable one, its path |
| Snapshot.GetDescribesTheArea | src/anticheat_module.c:984-1003 | While a scan's snapshot is current, GET answers for exactly the first 4096 areas, and the element has the start, end, byte offset, inode, flags and path of the area at the index |
| Snapshot.ModulesMean | src/anticheat_module.c:934-1083 | The modules captured are exactly the live ones with a text base and a text of 1 byte to 1 GiB, up to 1024, each at the place its predecessors leave it, with its size and the first 63 characters of its name |
| Snapshot.GetReadsTheLatestSnapshot | src/anticheat_module.c:1143-1270 | For both kinds of snapshot, after any calls, GET returns v at i if and only if the last call that touched the snapshot captured one whose element i is v |
| SyscallTable.PlausibleMeansNear | src/anticheat_module.c:179-186 | Away from the ends of the address space, a plausible handler is one in no module and less than 64 MiB from the anchor |
| SyscallTable.TablePlausible | src/anticheat_module.c:208-225 | True exactly when at least 400 entries are plausible handlers |
| SyscallTable.DeriveBounds | src/anticheat_module.c:230-255 | Unknown bounds become the least plausible entry rounded down and the greatest rounded up to 2 MiB; known ones stay |
| SyscallTable.ScanForward | src/anticheat_module.c:276-293 | Finds the first candidate of the forward window, or there is none |
| SyscallTable.ScanBackward | src/anticheat_module.c:299-316 | Finds the highest candidate of the backward window, or there is none |
| SyscallTable.FindSyscallTable | src/anticheat_module.c:257-318 | A table is returned if and only if a window holds one: read and write handlers in their slots and at least 400 plausible entries. It is the nearest one above the end of the text, or above its start if only that is known, or above the read handler if neither is, within 32 MiB in steps of 8; with none there, the nearest one below the read handler; unknown bounds are derived from it |
| SyscallTable.CandidateMeans | src/anticheat_module.c:179-290 | What counts as a table, by the words in memory: the read handler, the write handler 8 bytes on, and at least 400 words that are not null, in no module and less than 64 MiB from the read handler in 64-bit arithmetic |
| SyscallTable.DiscoveredIsFound | src/anticheat_module.c:270-318 | The table every other result speaks of is that nearest one, never 0; with the end of the text known, it is below that only if no table lies above |
| SyscallTable.DiscoveryIsUnique | src/anticheat_module.c:257-318 | That fixes the table, the bounds and the extreme handlers |
| SyscallTable.CheckSyscalls | src/anticheat_module.c:320-348 | total is how many words of the table can be read and are not null, hooked is the number of flagged entries, the alerts are exactly their indices in order, and ok means none |
| SyscallTable.FlaggedExactly | src/anticheat_module.c:331-345 | The alerts are exactly the flagged indices, each once and increasing |
| SyscallTable.MissedExactly | src/anticheat_module.c:162-193 | From any initial bounds, exactly which entries a check misses at any later time, with whatever entries and modules the kernel then has |
| SyscallTable.MissedIsNear | src/anticheat_module.c:162-255 | A missed entry lies in no module then loaded, and on each side within the bound known before discovery or less than 66 MiB from the read handler |
| SyscallTable.MissedAfterLoading | src/anticheat_module.c:127-255 | After loading, by the two text symbols: which entries a check misses when both are known, when only the start is, its 512 MiB wrapped or not, and when only the end is |
| SyscallTable.FalseAlarmExactly | src/anticheat_module.c:188-193 | From any initial bounds, a handler discovery saw is flagged if and only if both bounds are known by then and it lies outside one known before, or is the topmost, on a 2 MiB boundary, with the upper bound derived |
| SyscallTable.NoFalseAlarms | src/anticheat_module.c:230-318 | After discovery from any initial bounds, a check of the untouched table is quiet on the handlers discovery saw if and only if they lie within the bounds known before and, if the upper one was not, the topmost is off every 2 MiB boundary, or a bound is still unknown |
| SyscallTable.UntouchedTableIsFlagged | src/anticheat_module.c:127-318 | A kernel in which discovery, with no text symbol known, finds one table and no other outcome, and a check of it untouched alerts on all entries but one |
| PidTables.Table.ForgetStale | src/anticheat_daemon.c:1551-1565 | Exactly the entries of listed pids remain |
| PidTables.Table.Check | src/anticheat_daemon.c:1567-1599 | Records the count if the pid is known or a slot is free, and reports growth exactly when it exceeds the recorded count |
| PidTables.Table.Contains | src/anticheat_daemon.c:1769-1777 | True exactly for recorded pids |
| PidTables.Table.MarkWarned | src/anticheat_daemon.c:1779-1793 | Adds the pid unless it is there or no slot is free |
| PidTables.RoomForListed | src/anticheat_daemon.c:1594-1598 | A table that only knows listed pids has a slot for any other listed pid when the list is no longer than the table |
| PidTables.ScanProtectedPeriodic | src/anticheat_daemon.c:2353-2378 | One pass with a list no longer than the table behaves as if the table were unlimited, alerts included |
| PidTables.AlertMeansGrowth | src/anticheat_daemon.c:1567-1599 | Over any cycles, an alert is raised if and only if the count exceeds that of the pid's previous successful scan, the pid having been listed ever since, and it names the pid, that count and the new one |
| PidTables.CheckLdPreloadPeriodic | src/anticheat_daemon.c:1795-1818 | One pass with a list no longer than the table warns for, and records, exactly the unrecorded pids with the variable set |
| PidTables.WarnedExactlyOnce | src/anticheat_daemon.c:1754-1818 | A pid listed in every cycle is warned about exactly once if its variable is ever seen set, and never otherwise |
| Json.JsonEscape | src/anticheat_daemon.c:2677-2700 | The buffer is never exceeded and holds the escape of the fitting prefix and a NUL |
| Json.FittingAll | src/anticheat_daemon.c:2683 | The whole input fits exactly when eight bytes are free before its last byte, in particular when 6 * len + 1 is below the size |
| Json.EscapeRoundTrip | src/anticheat_daemon.c:2671-2700 | For every text and whatever follows, reading the escape by section 7 of RFC 8259 gives the text back and stops at its own closing quote |
| Json.PlainIsKept | src/anticheat_daemon.c:2671-2700 | The escape is no longer than the text if and only if no byte is a quote, a backslash or a control byte, and is the text itself then |
| Json.RawReadsBackIffPlain | src/anticheat_daemon.c:2756-2759 | Unescaped text between quotes reads back as itself if and only if it has no quote, backslash or control byte |
| Json.BodyIsNeverCut | src/anticheat_daemon.c:2753-2759 | The body is never cut at 1024 bytes |
| JsonGrammar.ReadsExactly | server/ac_server.py:392-395 | A text is read as an object with these fields if and only if its tokens are those of an object by sections 4 and 5 of RFC 8259, of any depth, and the fields are its members, the last of a key counting |
| JsonLexemes.NumbersAreRead | server/ac_server.py:392-395 | Every number, with or without sign, fraction and exponent, is read as the number its digits stand for |
| JsonLexemes.EscapesAreRead | server/ac_server.py:392-395 | A Unicode escape in digits of either case is the character with that number, two surrogates are the character they stand for, and nothing else is read |
| JsonReader.ScanFails | server/ac_server.py:392-395 | A text that ends in a quote and is not made of whole tokens cannot be completed by the members the daemon writes after the client id |
| JsonReader.BodyReadsExactly | src/anticheat_daemon.c:2753-2759 | For every client id, event, detail and time the body is a JSON object if and only if the id leaves the reader between members of it, and then its event, detail and time are the daemon's own whatever members the id adds |
| JsonReader.IdReadsBackIffPlain | src/anticheat_daemon.c:2756-2759 | The client id a JSON reader finds is the one that was sent if and only if that has no quote, backslash or control byte |
| JsonReader.SomeIdsReadAsOthers | src/anticheat_daemon.c:2756-2759 | An id that is read as a different one and a further member |
| JsonExtract.Search | src/anticheat_daemon.c:2013-2018 | The first occurrence from a position on, or none |
| JsonExtract.CopyValue | src/anticheat_daemon.c:2034-2042 | The output is the value with backslashes dropped, cut to the buffer, and a NUL |
| JsonExtract.ExtractString | src/anticheat_daemon.c:2001-2046 | Found if and only if the key has fewer than 62 characters and the text holds it in quotes, then a colon and a quote with any white space around the colon; the value is that of the first such occurrence; otherwise the output is untouched |
| JsonExtract.AgreesWithJson | src/anticheat_daemon.c:1991-2042 | The value is the one RFC 8259 gives if and only if only quotes, backslashes and slashes are escaped |
| JsonExtract.NewlineIsExtractedAsLetter | src/anticheat_daemon.c:2034-2042 | An escaped newline, which RFC 8259 reads as a newline, is extracted as the letter n |
| Utf8.EscapeCommutes | server/ac_server.py:385-393 | For every decoder that keeps ASCII bytes and every text, decoding the escape gives the escape of the decoding |
| Utf8.DecodedBody | server/ac_server.py:392-393 | Decoding a report body decodes its client id, event and detail and leaves the rest of the body alone |
| Utf8.DecodedIsNoLonger | server/ac_server.py:392-393 | Decoding never makes a text longer |
| Utf8.DecodeKeepsAscii | server/ac_server.py:393 | UTF-8 with replacement, as Table 3-7 of the Unicode Standard and maximal subparts give it, is such a decoder |
| Utf8.StepMeans | server/ac_server.py:393 | For any bytes: if they start with those of a character, that is decoded; if not, one replacement stands for the longest start of some character's bytes, or for one byte that starts none |
| Utf8.EncodeRoundTrip | server/ac_server.py:393 | Every text encoded as UTF-8 decodes to itself |
| PipeRecords.RecordCount | src/anticheat_daemon.c:2657-2662 | A stream holds its length divided by the record size whole records |
| PipeRecords.JoinRecords | src/anticheat_daemon.c:2657-2662 | The records joined are the stream up to a remainder shorter than one record |
| PipeRecords.Collect | src/anticheat_daemon.c:2641-2664 | For every partition into reads, the collected records are a prefix of the stream's, and all of them up to max unless a timeout or error cut the loop short |
| RateLimiter.Limiter.Allow | server/ac_server.py:69-79 | One call counts the request in its window, prunes when due and answers by the count |
| RateLimiter.Limiter.Prune | server/ac_server.py:81-90 | Exactly the expired buckets are deleted |
| RateLimiter.PruningInvisibleExactly | server/ac_server.py:69-90 | For every run, whatever its clock readings, all answers under all limits are those of a limiter that never prunes if and only if no request comes for an unexpired bucket that was pruned |
| RateLimiter.PruningIsInvisible | server/ac_server.py:69-90 | After a run with no reading before the last prune, the same equivalence for the next request; a reading no earlier than the last prune is never affected |
| RateLimiter.AfterPrunesIsInvisible | server/ac_server.py:69-90 | So pruning is invisible throughout every run with no reading before the last prune |
| RateLimiter.OrderedIsAfterPrunes | server/ac_server.py:69-90 | Non-decreasing readings are such a run |
| RateLimiter.BackwardClockShowsPruning | server/ac_server.py:69-90 | A run with a reading before the last prune where pruning changes the answer |
| RateLimiter.MemoryIsBounded | server/ac_server.py:81-90 | Every retained bucket started less than two windows ago, so there are no more than distinct keys seen in that span |
| RateLimiter.FixedWindowBound | server/ac_server.py:52-60 | One fixed window lets through at most limit requests of a key |
| RateLimiter.SlidingWindowBound | server/ac_server.py:52-79 | Any half-open interval as long as the window lets through at most 2 * limit - 1 requests of a key |
| RateLimiter.SlidingWindowBoundIsTight | server/ac_server.py:52-60 | For every limit and window a run reaches that bound |
| ClockDisorder.DisorderedBound | server/ac_server.py:69-79 | With readings in any order but none before the last prune, any such interval lets through at most 3 * limit - 2 requests of a key |
| ClockDisorder.DisorderedBoundIsTight | server/ac_server.py:69-90 | For every limit and window such a run reaches that bound |
| ClockDisorder.StaleReadingsAreUnbounded | server/ac_server.py:69-90 | With readings before the last prune, any number of requests of one interval can get through, whatever the limit |
| Server.TiersAreDisjoint | server/ac_server.py:576-602 | A server that started accepts no token in both tiers and no empty key |
| ServerReplies.StartUpMeans | server/ac_server.py:576-609 | The server starts if and only if both current keys are given, no key serves both tiers and limit and window are positive, and then accepts exactly the keys given |
| Server.TokensLimitChanges | server/ac_server.py:97-113 | Without an admin key no ban changes, and without a report key no report is filed |
| Database.Tables.AddReport | server/ac_server.py:153-163 | Inserting a row with the next id appends to the reports the table stands for |
| Database.Tables.ListReports | server/ac_server.py:165-184 | Selecting by descending id up to a limit gives the client's latest reports, newest first, also with ids missing |
| Database.Tables.BanClient | server/ac_server.py:186-197 | Insert or update by primary key leaves one row per client and sets exactly that client's ban |
| Database.Tables.Unban | server/ac_server.py:199-206 | Deleting by primary key removes exactly that client's ban and reports whether there was one |
| Database.Tables.BanStatus | server/ac_server.py:208-220 | The ban of that client, or none |
| Server.App.Handle | server/ac_server.py:281-498 | Handling a request changes the limiter and the two tables as the dispatch says, and nothing else; a failed statement is answered 500 and changes neither table |
| Server.OnlyDecisionsChangeBans | server/ac_server.py:468-486 | Only a request answered as a successful ban or unban of an id changes that id's ban |
| Server.LastDecisionHolds | server/ac_server.py:186-220 | Over every run, an id's ban status is what the last successful ban or unban of it left |
| Server.NoDecisionNoChange | server/ac_server.py:186-220 | With none, it is what it was at the start |
| Server.ReportsAreAppended | server/ac_server.py:153-163 | Reports are only ever appended, one for each request answered 201 |
| Database.NewestFirst | server/ac_server.py:165-184 | A client's reports are listed in the reverse of the order they came in |
| Server.ClientCannotForgeAddress | server/ac_server.py:311-343 | Behind an appending proxy nothing the client sends in the header changes its address |
| ServerReplies.AddressMeans | server/ac_server.py:311-343 | The address is what follows the last comma of the last header line, stripped, if a proxy is trusted and that is an address, and the peer's otherwise |
| ServerReplies.AuthedMeans | server/ac_server.py:355-371 | A token is accepted if and only if the header is the word Bearer, a space and one of the keys |
| ServerReplies.IdMeans | server/ac_server.py:48 | An id is 1 to 128 letters, digits, full stops, underscores and hyphens, and perhaps a final newline |
| ServerReplies.EveryReply | server/ac_server.py:345-498 | For every request, when each of 429, 404, 401, 400 and 500 is answered, by the words of the request; an error changes neither table |
| ServerReplies.ReportIsFiled | server/ac_server.py:448-466 | A report that succeeds is answered 201 and appended with the id, event, detail and time it says, the whole seconds of the clock and the address |
| ServerReplies.BanIsSet | server/ac_server.py:468-478 | A ban that succeeds sets that client's ban to the reason given and the time, and changes nothing else |
| ServerReplies.BanIsLifted | server/ac_server.py:480-492 | An unban that succeeds removes that client's ban alone and says whether there was one |
| ServerReplies.QueriesAnswer | server/ac_server.py:488-498 | A query that succeeds answers the ban the table holds, or the client's latest 200 reports, newest first, and changes nothing |
| ServerReplies.BannedTellsLastDecision | server/ac_server.py:186-220 | After any run, GET /banned/id answers the reason and time of the last ban of the id that succeeded, or none if an unban came last |
| ServerReplies.BannedTellsNoDecision | server/ac_server.py:208-220 | With neither, it answers that the id is not banned |
| ServerReplies.ReportsTellsWhatWasFiled | server/ac_server.py:153-184 | After any run, GET /reports/id answers the reports the run filed for the id, one for each request to file one that succeeded, the last one first, at most 200 |
| Pipeline.ServedBound | server/ac_server.py:345-353 | In any interval as long as the window the server serves at most 2 * limit - 1 requests of an address, whatever the endpoints |
| Pipeline.ServedBoundInDisorder | server/ac_server.py:345-353 | It serves at most 3 * limit - 2 when threads pass the limiter out of clock order, none with a reading before the last prune |
| Pipeline.StartedServerIsBounded | server/ac_server.py:604-609 | Whatever arguments the server started with, that bound holds |
| Pipeline.EveryReportIsFiledExactly | server/ac_server.py:373-466 | Every report the daemon sends, whatever its id, event and detail and for every decoder that keeps ASCII bytes, is stored under the id the server reads or else answered 400; the event, detail and time stored are always the daemon's own, and nothing else changes |
| Pipeline.FiledUnderItselfExactly | server/ac_server.py:398-420 | A report is filed under its own id if and only if that consists of 1 to 128 of the characters of an id |
| Pipeline.SomeReportsAreFiledElsewhere | server/ac_server.py:398-420 | An id that is not, and whose reports are filed under another |
| Pipeline.DetectionIsLogged | src/anticheat_daemon.c:2753-2759 | For every detail, whatever its bytes, and every such decoder: a daemon's report with a proper id, authenticated, not rate limited and inserted without error, is stored with its own id, event and time and the decoding of the fitting part of the detail, and changes nothing else |
| Pipeline.TextIsLoggedAsItself | server/ac_server.py:373-466 | With the server's decoder, such a report whose detail is the UTF-8 form of a text and fits is stored with that text |
| Pipeline.NewlineIdIsLost | server/ac_server.py:48 | No report is filed under an accepted id that ends in a newline |
| Pipeline.PreloadPass | src/anticheat_daemon.c:1795-1818 | The kernel's list always fits the daemon's table, so one pass warns about every protected task whose variable is set exactly once, or not at all if its pid was warned about before |

## Left out

- Kprobe registration, argument rewriting, kill delivery, RCU and pid-namespace lookup: kernel calls; only their effect appears, as parameters.
- The unlocked walk of the module list: any list, or any predicate on addresses, stands for it.
- LOCK/UNLOCK pinning and STATUS: the pin count and the copied counters are not modelled.
- The contents of an event, its time stamp and formatted text: events are an arbitrary type in `EventRing`.
- ELF parsing and the render-hook byte comparison: dominated by file and memory reads.
- The Vulkan-layer and implicit-layer passes: same tables as those modelled, with other sources of counts and flags (the Vulkan pass also records pids with nothing set).
- The severity of a growth alert (the jit flag only lowers it).
- ac_normalize_func and the symbol lookups: the two handler addresses and initial bounds are parameters.
- Hypervisor detection, command line, logging, sockets, daemonisation, HTTP framing, SQLite itself and signals: plumbing.
- Constant-time comparison: a timing claim.
- HashProcMem: file offsets are unbounded, so a range past the end of the 63-bit offset space is not modelled.
- AgreesWithJson: an escaped surrogate without its partner, which stands for no character, makes no JSON string here.
- SlidingWindowBound: asks for non-decreasing readings, without which `DisorderedBound` is the bound.
- BodyReadsExactly: an escaped surrogate without its partner is refused where Python reads it, and the reader has no limit on nesting where Python stops at its recursion limit.
