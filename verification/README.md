# Coursework programs, verified

A Dafny model of the programs in this repository whose correctness is not plain from reading them, with proofs
about every input, every run or every interleaving. The modules follow the programs.

**Hash map, hash set and spell checker.** `Primes` and `Probing` are the arithmetic: trial division, the next
prime, and which slots a quadratic probe visits. `HashTable` is the map on a table: probing, tombstones,
eviction. `HashRuns` adds resizing and whole runs, `HashWitness` shows how long a run is safe, `HashMap` holds
the mutable map and set, `SpellChecker` the growing list, the edits and the suggestions.

The table accepts entries up to three quarters full, but a probe reaches only half of it, so a put can wrap
around and overwrite a live entry. The model keeps that behaviour: the invariant holds with it, the condition
under which it happens is exact, nine puts on a new map never do it, and ten can.

**Log search.** `LogSearch` is the manager, the workers, the bounded buffer with its condition variables, and
the two barrier phases as a transition system; `LogSearchProofs` and `LogSearchRuns` prove what every step and
every run keeps, freedom from deadlock, a bound on the length of runs, and the printed total. `LogBuffer` is
the buffer object, `Matches` the match counter, `Rings` the circular queue, `Sums` sums over threads.

**Chat server.** `FileQueue` is the semaphore protocol of the file queue with any number of clients and the
shutdown, `TransferQueue` its arrays. `ChatRooms` is the room registry command by command, `ChatReplies` what
each command answers and does, `ChatServer` the tables and loops behind it.

**CPU simulator.** `Cpu` is the machine, `CpuIsolation` user-mode isolation and kernel entry, `CpuStack` the
stack simulation, `CpuObject` the simulator object, `ProgramText` printing and loading of instructions.
`CpuSteps` is one step of each instruction in plain words; with it `OsContext` follows the operating system's own
context switch and `SamplePrograms` the sample programs, for all inputs.

**Scheduler, sorters, planets, robots.** `TaskHeap`, `Sorting`, `PlanetTree` with `PlanetSearch` and
`PlanetReplies`, `RobotGrid`.
`Options` and `Sets` are shared helpers.

How things are represented:

- Null keys, missing values and rejected calls are `Option` values, booleans or reply values.
- Hash codes, comparators, random numbers and the choice of the thread a signal wakes are arguments or
  arbitrary choices.
- A hash-table entry is a value in its slot: the program creates one entry per slot and never shares it.
- Objects that refer to each other (planet nodes, robots, clients) are positions in a table in creation order.
- The probe loop that put, get, remove and containsKey each repeat is one method, `Locate`.
- The load test `size / length >= 0.75` is on integers; for 32-bit sizes the rounded quotient decides the same.
- Places where a program falls short of what its comments promise stay as they are. Each has a concrete input
  and an exact condition: `TenPutsLoseAnEntry` with `InsertIsMapUpdateExactlyWhen`, `JumpToItselfFallsThrough`
  with `JumpArrivesExactlyWhen`, `ThreadMinusFiftyLosesStackPointer` with `PrintKeepsStackPointerExactlyWhen`,
  `SharedNumberIsNotStrict` with `StrictExactlyWhenDistinct`, and `FourPassesTheTrials` with
  `TrialsDecidePrimalityExactlyWhen`. An empty search term makes the log search count for ever:
  `StuckRunHasPrintedTotal` states both sides. The sample subroutine program does not compute what its comments
  announce (`SubroutineCommentsHoldExactlyWhen`), and the activation of a thread stores an address for its start
  time (`StampStart`).

`dafny verify dfyconfig.toml` checks the whole project.

## Model

| member | source | states |
|---|---|---|
| Primes.IsPrime | Data Structures And Algorithms/HW6/HW6/GTUHashMap.java:141-153 | for every odd number, the only kind the search for the next prime asks about, the 6k-1 / 6k+1 trials answer primality; and what they answer for any other number |
| Primes.TrialsDecidePrimalityExactlyWhen | Data Structures And Algorithms/HW6/HW6/GTUHashMap.java:141-153 | every odd number above 3 is decided right; a latent flaw in the private test: an even one is right only when some trial fires, since the divisor 2 is never tried |
| Primes.FourPassesTheTrials | Data Structures And Algorithms/HW6/HW6/GTUHashMap.java:141-153 | the latent flaw on a concrete number, which no caller passes: 4 passes every trial and is not prime |
| Primes.NextPrime | Data Structures And Algorithms/HW6/HW6/GTUHashMap.java:131-139 | the search ends for every argument and returns the least prime not below it |
| Primes.PrimeAtLeast | Data Structures And Algorithms/HW6/HW6/GTUHashMap.java:136-136 | there is a prime above every number, which is why the search loop ends |
| Primes.PrimeDividesProductExactlyWhen | Data Structures And Algorithms/HW6/HW6/GTUHashMap.java:32-35 | a prime divides a product exactly when it divides a factor: the arithmetic behind the reach of a probe |
| Probing.ProbesMeetExactlyWhen | Data Structures And Algorithms/HW6/HW6/GTUHashMap.java:32-35 | two tries of a quadratic probe hit the same slot if and only if their sum or difference is a multiple of the prime length |
| Probing.ProbesDistinct | Data Structures And Algorithms/HW6/HW6/GTUHashMap.java:32-35 | tries below half the length hit distinct slots, and no try before the p-th returns home |
| Probing.ProbeReturnsHome | Data Structures And Algorithms/HW6/HW6/GTUHashMap.java:32-35 | the p-th try is home again, so the wrap test ends the loop there |
| Probing.ProbeReach | Data Structures And Algorithms/HW6/HW6/GTUHashMap.java:32-35 | a whole probe sequence visits exactly (p+1)/2 of the p slots |
| HashTable.LookupIsContents | Data Structures And Algorithms/HW6/HW6/GTUHashMap.java:42-62 | a lookup that walks the probe path answers exactly as the map of live entries, present or absent |
| HashTable.InsertCorrect | Data Structures And Algorithms/HW6/HW6/GTUHashMap.java:21-39 | insertion keeps every live entry on an unbroken probe path and every key unique, and changes the map only at the key and at the key a wrapped probe overwrites |
| HashTable.InsertIsMapUpdateExactlyWhen | Data Structures And Algorithms/HW6/HW6/GTUHashMap.java:21-39 | insertion is a plain map update if and only if no wrapped probe lands on a live home slot |
| HashTable.EvictedIsOther | Data Structures And Algorithms/HW6/HW6/GTUHashMap.java:35-39 | an overwritten entry belongs to another key, and then the inserted key was absent |
| HashTable.WrapsExactlyWhen | Data Structures And Algorithms/HW6/HW6/GTUHashMap.java:25-36 | a probe wraps if and only if none of its (p+1)/2 slots is empty or holds the key |
| HashTable.HalfEmptyNeverWraps | Data Structures And Algorithms/HW6/HW6/GTUHashMap.java:25-36 | with at most (p-1)/2 slots occupied, tombstones included, no probe wraps |
| HashTable.HomeOfCodes | Data Structures And Algorithms/HW6/HW6/GTUHashMap.java:112-116 | the home slot of four hash codes, negative ones among them: halves xored, sign bit dropped, remainder by the length |
| HashTable.DeleteCorrect | Data Structures And Algorithms/HW6/HW6/GTUHashMap.java:64-84 | removal by tombstone keeps all probe paths unbroken and removes exactly the key |
| HashRuns.RehashPreservesContents | Data Structures And Algorithms/HW6/HW6/GTUHashMap.java:125-128 | rehashing into a prime table more than twice as long keeps the live map, drops all tombstones and never evicts |
| HashRuns.ResizeCorrect | Data Structures And Algorithms/HW6/HW6/GTUHashMap.java:119-129 | a resize keeps the map, makes the size counter exact and leaves less than half of the slots occupied |
| HashRuns.PutAfterResizeIsMapUpdate | Data Structures And Algorithms/HW6/HW6/GTUHashMap.java:14-40 | a put that triggers a resize is a plain map update |
| HashRuns.PutResizesExactlyWhen | Data Structures And Algorithms/HW6/HW6/GTUHashMap.java:6-19 | a put enlarges the table if and only if 4 * size >= 3 * length, to the least prime from twice the length on, and then loses nothing |
| HashRuns.LoadStaysBounded | Data Structures And Algorithms/HW6/HW6/GTUHashMap.java:14-40 | in every reachable state the size is below three quarters of the length plus one |
| HashRuns.PutStateCorrect | Data Structures And Algorithms/HW6/HW6/GTUHashMap.java:14-40 | the whole effect of one put on invariant, map and size counter, resize and eviction included |
| HashRuns.RemoveStateCorrect | Data Structures And Algorithms/HW6/HW6/GTUHashMap.java:64-84 | the whole effect of one removal on invariant, map and size counter |
| HashRuns.EveryReachableState | Data Structures And Algorithms/HW6/HW6/GTUHashMap.java:9-129 | after any sequence of puts and removals: the invariant, lookups equal to the live map, and size equal to the live count plus the entries overwritten since the last resize |
| HashRuns.RunRefinesMap | Data Structures And Algorithms/HW6/HW6/GTUHashMap.java:14-129 | any run without an eviction is the plain map, size counter included |
| HashRuns.RunRefinesMapExactlyWhen | Data Structures And Algorithms/HW6/HW6/GTUHashMap.java:14-129 | a run equals the plain map after every one of its operations if and only if none of its puts evicts |
| HashWitness.NinePutsAreSafe | Data Structures And Algorithms/HW6/HW6/GTUHashMap.java:9-40 | any run with at most nine puts loses nothing, whatever the keys and hash codes |
| HashWitness.TenPutsLoseAnEntry | Data Structures And Algorithms/HW6/HW6/GTUHashMap.java:9-40 | ten puts on a new map, with concrete keys, lose a live entry before the load limit is reached |
| HashMap.GTUHashMap.constructor | Data Structures And Algorithms/HW6/HW6/GTUHashMap.java:9-12 | a new map is empty, of prime length |
| HashMap.GTUHashMap.Locate | Data Structures And Algorithms/HW6/HW6/GTUHashMap.java:21-36 | the probe loop from the home slot ends at the slot the table functions say and reports a wrap exactly |
| HashMap.GTUHashMap.Put | Data Structures And Algorithms/HW6/HW6/GTUHashMap.java:14-40 | refuses a null key; otherwise reaches the state of one put, enlarges the table if and only if the size is at least three quarters of the length, and is then a plain map update; counts evictions |
| HashMap.GTUHashMap.Get | Data Structures And Algorithms/HW6/HW6/GTUHashMap.java:42-62 | the value of the key in the live map, nothing for a null or absent key |
| HashMap.GTUHashMap.Remove | Data Structures And Algorithms/HW6/HW6/GTUHashMap.java:64-84 | removes exactly the key from the live map; a null key changes nothing |
| HashMap.GTUHashMap.ContainsKey | Data Structures And Algorithms/HW6/HW6/GTUHashMap.java:86-106 | whether the key is live |
| HashMap.GTUHashMap.Resize | Data Structures And Algorithms/HW6/HW6/GTUHashMap.java:119-129 | rehash through put: same map, exact size, no overwritten entries outstanding |
| HashMap.RehashStep | Data Structures And Algorithms/HW6/HW6/GTUHashMap.java:125-128 | each put inside the rehash neither resizes again nor evicts |
| HashMap.GTUHashSet.Add | Data Structures And Algorithms/HW6/HW6/GTUHashSet.java:9-13 | reports whether the element was new; afterwards the set is the old one, less an evicted element, plus this one |
| HashMap.GTUHashSet.Remove | Data Structures And Algorithms/HW6/HW6/GTUHashSet.java:15-19 | reports presence and removes exactly the element |
| HashMap.GTUHashSet.Contains | Data Structures And Algorithms/HW6/HW6/GTUHashSet.java:21-23 | membership in the set of live keys |
| SpellChecker.GTUList.Add | Data Structures And Algorithms/HW6/HW6/GTUList.java:19-23 | appends; the array is replaced exactly when it is full, by one of twice the length |
| SpellChecker.GTUList.EnsureCapacity | Data Structures And Algorithms/HW6/HW6/GTUList.java:40-47 | grows, when it must, to the larger of twice the length and the capacity asked, and keeps the items |
| SpellChecker.EditsAreOneEdits | Data Structures And Algorithms/HW6/HW6/SpellChecker.java:88-121 | the generated list holds exactly the words one deletion, adjacent swap, replacement or insertion away |
| SpellChecker.EditsByLetter | Data Structures And Algorithms/HW6/HW6/SpellChecker.java:88-121 | what a deletion, an adjacent swap and an insertion are, letter by letter |
| SpellChecker.EditsCount | Data Structures And Algorithms/HW6/HW6/SpellChecker.java:78-85 | the reserved size is exact up to one extra string per character outside a to z; 53L+25 strings for a lowercase word |
| SpellChecker.GenerateEditDistance | Data Structures And Algorithms/HW6/HW6/SpellChecker.java:77-124 | the loops build that list, and the reserved array is never replaced if and only if the word is all lowercase letters |
| SpellChecker.GetSuggestions | Data Structures And Algorithms/HW6/HW6/SpellChecker.java:46-75 | as a set, the suggestions are the dictionary words one or two edits away, although the helper sets may forget words |
| SpellChecker.ProcessEdit | Data Structures And Algorithms/HW6/HW6/SpellChecker.java:59-71 | an edit reported as processed is skipped; any other contributes exactly its own dictionary edits |
| Rings.PushAppends | System Programming/HW4/HW4/buffer.c:37-39 | adding to a ring that is not full appends and overwrites nothing |
| Rings.PopTakesOldest | System Programming/HW4/HW4/buffer.c:58-60 | taking yields the oldest item and keeps the rest in order |
| Matches.CountMatches | System Programming/HW4/HW4/main.c:71-75 | the search loop counts every place of the term once, overlapping ones included; it walks out of the line if and only if the term is empty |
| LogSearchProofs.StepKeepsInv | System Programming/HW4/HW4/buffer.c:25-92 | every lock section and thread step keeps conservation of lines and counts, no lost wakeup, and the barrier phases |
| LogSearchProofs.TotalIsExact | System Programming/HW4/HW4/main.c:87-94 | when the serial thread adds up, every line of the file has been taken and counted exactly once, which with an empty term happens only for an empty file |
| LogSearchRuns.EveryReachableState | System Programming/HW4/HW4/buffer.c:25-92 | the invariant in every state of every interleaving, spurious wakeups included |
| LogSearchRuns.TakenInFileOrder | System Programming/HW4/HW4/buffer.c:37-60 | lines taken, then the ring, are the lines put, which are a prefix of the file, in order |
| LogSearchRuns.NoDeadlock | System Programming/HW4/HW4/buffer.c:25-66 | until all threads finish, some thread can take a step that is not a spurious wakeup, unless the term is empty and there is a line to search |
| LogSearchRuns.StepRank | System Programming/HW4/HW4/buffer.c:25-92 | every step lowers a rank, except that a spurious wakeup raises it by one |
| LogSearchRuns.RunLengthBound | System Programming/HW4/HW4/main.c:53-138 | the length of a run is bounded by file, workers and spurious wakeups |
| LogSearchRuns.StuckRunHasPrintedTotal | System Programming/HW4/HW4/main.c:60-94 | a run that can only wake spuriously has finished if and only if the term is not empty or the file is; then it printed the number of occurrences in the whole file, whichever worker took which line |
| LogSearchRuns.EmptyTermPrintsNothing | System Programming/HW4/HW4/main.c:71-94 | with an empty term and a line to search, no run ever prints a total |
| LogBuffer.Buffer.TryPut | System Programming/HW4/HW4/buffer.c:28-39 | one pass of a put: wait, refuse after eof, or append |
| LogBuffer.Buffer.TryGet | System Programming/HW4/HW4/buffer.c:48-60 | one pass of a get: wait, report the end, or take the oldest line |
| LogBuffer.Buffer.SetEof | System Programming/HW4/HW4/buffer.c:86-92 | sets the end-of-file flag and changes no other field |
| LogBuffer.TotalMatches | System Programming/HW4/HW4/main.c:88-92 | the final loop is the sum of the workers' counts |
| FileQueue.EnabledIsSafe | System Programming/Final/Final Project/server/server.c:790-845 | no insertion can meet a full ring and no removal an empty one, in any reachable state |
| FileQueue.StepKeepsInv | System Programming/Final/Final Project/server/server.c:779-865 | every semaphore operation, lock section and flag test keeps slots, tokens and order, the extra shutdown token included |
| FileQueue.EveryReachableState | System Programming/Final/Final Project/server/server.c:779-865 | free, reserved, queued and just-removed slots add up to the capacity in every interleaving of any number of clients |
| FileQueue.ProcessedInInsertionOrder | System Programming/Final/Final Project/server/server.c:790-865 | requests are processed in insertion order, none lost or overwritten |
| FileQueue.NoDeadlockWhileRunning | System Programming/Final/Final Project/server/server.c:782-833 | while the server runs, some thread can step by itself unless every inserted request has been processed |
| FileQueue.RequestsConserved | System Programming/Final/Final Project/server/server.c:813-865 | in every interleaving each request made is inserted, still wanted by its client, or given up after a timed wait, as often as it was made |
| FileQueue.WaitsOnlyWhenFull | System Programming/Final/Final Project/server/server.c:815-830 | a client waits only after a try that found no slot free; while one is free the try reserves it, and a reservation ends in the insertion of that request |
| FileQueue.TurnedAwayOnlyWhenFull | System Programming/Final/Final Project/server/server.c:815-830 | a client that waits once found all slots taken and has waited since |
| FileQueue.EveryRequestProcessed | System Programming/Final/Final Project/server/server.c:779-865 | when no thread can go on by itself while the server runs, every request has been processed as often as it was made, but for those given up |
| FileQueue.NoDeadlockInShutdown | System Programming/Final/Final Project/server/server.c:660-669 | after the interrupt, until the processor has stopped, some thread can step by itself: the extra token is never lost |
| FileQueue.ProcessorStops | System Programming/Final/Final Project/server/server.c:660-669 | after the interrupt every run that no thread can continue has the processor stopped, within the bound on run lengths |
| FileQueue.NoNewRequestAfterInterrupt | System Programming/Final/Final Project/server/server.c:785-808 | once the running flag is cleared the processor finishes at most the one request it has committed itself to |
| FileQueue.RunLengthBound | System Programming/Final/Final Project/server/server.c:779-865 | all work is finite: at most eleven steps per request and six more |
| TransferQueue.FileTransferQueue.Insert | System Programming/Final/Final Project/server/server.c:837-853 | the insertion section appends, marks the slot and reports the queue length |
| TransferQueue.FileTransferQueue.Remove | System Programming/Final/Final Project/server/server.c:792-798 | the removal section takes the oldest request and clears its mark |
| ChatRooms.MembershipIsCurrentRoom | System Programming/Final/Final Project/server/server.c:462-624 | a client is listed in a room if and only if the room is active and is its current room |
| ChatRooms.CommandKeepsInv | System Programming/Final/Final Project/server/server.c:234-287 | every whole command keeps member lists and current rooms inverse, names distinct, rooms active iff non-empty, within capacity, and the room count exact |
| ChatRooms.EverySessionState | System Programming/Final/Final Project/server/server.c:100-130 | the same after any sequence of connects, joins, leaves and exits |
| ChatRooms.JoinMovesOnlyTheClient | System Programming/Final/Final Project/server/server.c:462-501 | a join changes the current room of that client alone, and how for each reply |
| ChatRooms.JoinFailsExactlyWhen | System Programming/Final/Final Project/server/server.c:489-496 | a valid join finds no slot if and only if no room has the name and all rooms stay active without the client |
| ChatRooms.LeaveKeepsInv | System Programming/Final/Final Project/server/server.c:571-605 | leaving clears the client's room and closes the room if it was the last member |
| ChatReplies.JoinRepliesExactly | System Programming/Final/Final Project/server/server.c:234-272 | each reply to a join, if and only if: bad name, already listed in that room, 15 members, a room with fewer or a slot free after leaving, or none of these |
| ChatReplies.JoinEffect | System Programming/Final/Final Project/server/server.c:462-501 | a join puts the client behind the members of the room of that name, opening it if need be, cuts it out of its old room, and changes no other room |
| ChatReplies.RefusedJoinEffect | System Programming/Final/Final Project/server/server.c:234-272 | a refused join changes nothing, except that one that finds no slot has already left the old room |
| ChatReplies.LeaveRepliesExactly | System Programming/Final/Final Project/server/server.c:273-287 | a leave succeeds if and only if some room lists the client, and afterwards none does; the others keep their order |
| ChatReplies.ExitEffect | System Programming/Final/Final Project/server/server.c:688-712 | an exit frees the client slot and its place in its room and changes nothing else |
| ChatReplies.ConnectRepliesExactly | System Programming/Final/Final Project/server/server.c:100-130 | a connection is refused if and only if all client slots are taken; otherwise it gets the first free one |
| ChatServer.Server.Find | System Programming/Final/Final Project/server/server.c:440-447 | the search loop finds the first active room of the name |
| ChatServer.Server.Create | System Programming/Final/Final Project/server/server.c:449-460 | the first inactive slot becomes the room; without one nothing changes |
| ChatServer.Server.Leave | System Programming/Final/Final Project/server/server.c:571-605 | the scan and shift loops take the client out as specified |
| ChatServer.Server.Join | System Programming/Final/Final Project/server/server.c:234-272 | the command's checks and its effect |
| ChatServer.Server.Exit | System Programming/Final/Final Project/server/server.c:688-712 | the cleanup leaves the room and frees the client slot |
| ChatServer.Server.Handle | System Programming/Final/Final Project/server/server.c:222-372 | whole commands keep the registry consistent |
| ChatServer.RemoveUser | System Programming/Final/Final Project/server/server.c:587-598 | the removal loop drops every occurrence of the client and notifies exactly the others, in order |
| CpuIsolation.UserStepIsolated | Operating Systems/Semester Project/Project/cpu.cpp:48-105 | a user-mode step without a system call stays in user mode and changes of kernel memory only the thread's own counter, by one inside its block |
| CpuIsolation.UserRunIsolated | Operating Systems/Semester Project/Project/cpu.cpp:48-393 | the same over runs of any length: addresses 21 to 999 are untouched but for the counter, which grows by the steps inside the thread's block |
| CpuIsolation.PrintStepIsolated | Operating Systems/Semester Project/Project/cpu.cpp:400-409 | a print call returns to user mode at the next instruction and touches only the thread's own table entry |
| CpuIsolation.KernelEntry | Operating Systems/Semester Project/Project/cpu.cpp:410-418 | user code reaches a running kernel if and only if it executes a halt or yield call, with the return address saved and the handler entered, unless the call sits at the handler |
| CpuIsolation.UserRunConfined | Operating Systems/Semester Project/Project/cpu.cpp:48-423 | with print calls and halting allowed, a run without halt or yield call is in user mode unless halted and changes of kernel memory at most three words of the thread's own entry |
| CpuIsolation.ViolationHaltsExactlyWhen | Operating Systems/Semester Project/Project/cpu.cpp:107-367 | in user mode an instruction halts the machine if and only if it touches a word outside user memory or lacks an operand |
| CpuIsolation.SwitchHaltsExactlyWhen | Operating Systems/Semester Project/Project/cpu.cpp:369-393 | the halt instruction halts; a mode switch enters user mode and halts if and only if its word or its target is out of bounds |
| CpuIsolation.CallHaltsExactlyWhen | Operating Systems/Semester Project/Project/cpu.cpp:395-423 | a system call of a user thread halts if and only if it is unknown or prints no word of memory |
| CpuIsolation.StepWithoutInstruction | Operating Systems/Semester Project/Project/cpu.cpp:48-81 | a step halts where there is no instruction, and crashes if and only if the thread's counter lies outside memory |
| CpuIsolation.PrintStamps | Operating Systems/Semester Project/Project/cpu.cpp:400-409 | a print call leaves the instruction count and the mark of a blocked thread in the thread's entry |
| CpuStack.StepKeepsLinked | Operating Systems/Semester Project/Project/cpu.cpp:269-367 | one disciplined step keeps memory from the stack pointer to the base equal to the abstract stack |
| CpuStack.StackSimulation | Operating Systems/Semester Project/Project/cpu.cpp:269-367 | the same in every state of a disciplined run |
| CpuStack.ReturnResumes | Operating Systems/Semester Project/Project/cpu.cpp:352-367 | a return pops the top frame and continues at its word |
| CpuStack.ReturnMatchesCall | Operating Systems/Semester Project/Project/cpu.cpp:324-367 | over whole runs a return resumes just after its matching call, with the stack as before the call |
| CpuStack.JumpArrivesExactlyWhen | Operating Systems/Semester Project/Project/cpu.cpp:101-104 | a call, return, taken conditional jump, mode switch or trap arrives at its target if and only if the target is not its own address; otherwise it falls through |
| CpuStack.JumpToItselfFallsThrough | Operating Systems/Semester Project/Project/cpu.cpp:101-104 | the concrete failure: a conditional jump at 1000 to 1000 continues at 1001 |
| CpuStack.OthersFallThrough | Operating Systems/Semester Project/Project/cpu.cpp:97-104 | every other instruction continues at the next address, unless it stores into the program counter |
| OsContext.Multiply | Operating Systems/Semester Project/Project/os.txt:224-227 | the loop of the operating system that multiplies by repeated addition computes the product for every counter value, in 4n + 1 instructions |
| OsContext.YieldSavesContext | Operating Systems/Semester Project/Project/os.txt:218-252 | for every thread the yield handler, run by the simulator, saves return address and stack pointer in the thread's own entry, marks it ready unless blocked or terminated, and touches nothing else but its scratch words |
| OsContext.ActivationRestoresContext | Operating Systems/Semester Project/Project/os.txt:358-374 | for every selected thread the activation runs it in user mode at its saved address with its saved stack pointer |
| OsContext.StampStart | Operating Systems/Semester Project/Project/os.txt:366-370 | meant to store the instruction count as start time, the activation stores the address of that field |
| OsContext.YieldThenActivationResumes | Operating Systems/Semester Project/Project/os.txt:218-374 | a thread that yields and is activated later continues after its yield call with the stack pointer it had |
| SamplePrograms.SumProgramSums | Operating Systems/Semester Project/Project/tests/sample_program.txt:266-274 | for every n from 1 on the sample program halts after 5n + 2 instructions with 1 + ... + n in word 17 |
| SamplePrograms.SumProgramBelowOne | Operating Systems/Semester Project/Project/tests/sample_program.txt:266-274 | for a bound below 1 it leaves the bound itself |
| SamplePrograms.StackProgramReverses | Operating Systems/Semester Project/Project/tests/stack_test.txt:23-32 | three words pushed come back in reverse order, whatever they are, and the stack is empty again |
| SamplePrograms.StackTestLoads | Operating Systems/Semester Project/Project/tests/stack_test.txt:23-32 | the lines of that test, loaded one after the other, are that program |
| SamplePrograms.SubroutineProgramResult | Operating Systems/Semester Project/Project/tests/subroutine_test.txt:20-36 | both calls return and the program halts with the stack as it was, the sum in word 5 and 0 in word 7 |
| SamplePrograms.SubroutineCommentsHoldExactlyWhen | Operating Systems/Semester Project/Project/tests/subroutine_test.txt:20-36 | the results its comments announce, the sum in word 6 and the product in word 7, come out if and only if the second term, or a factor, is 0 |
| CpuStack.PrintKeepsStackPointerExactlyWhen | Operating Systems/Semester Project/Project/cpu.cpp:400-409 | a print call keeps the stack pointer if and only if the thread number is not -50 or the stack pointer is already 2 |
| CpuStack.ThreadMinusFiftyLosesStackPointer | Operating Systems/Semester Project/Project/cpu.cpp:400-409 | the concrete failure: thread -50 prints with its stack pointer at 9000 and is left with 2 |
| CpuObject.CPU.Step | Operating Systems/Semester Project/Project/cpu.cpp:48-105 | one call of the execution loop is one machine step |
| CpuObject.CPU.Dispatch | Operating Systems/Semester Project/Project/cpu.cpp:107-423 | each handler, updating memory and flags in place, has exactly the machine function's effect, exceptions included |
| CpuObject.CPU.LoadProgram | Operating Systems/Semester Project/Project/cpu.cpp:26-38 | loads data in order, later entries winning, and resets words 0, 2 and 3 and the mode; an address outside memory stops the load with the entries before it stored and no reset |
| ProgramText.PrintedInstructionLoadsBack | Operating Systems/Semester Project/Project/parser.cpp:76-241 | a printed instruction behind its address, with or without a comment, loads back as the same instruction at that address and changes nothing else |
| ProgramText.InstructionReadsBack | Operating Systems/Semester Project/Project/cpu.cpp:441-473 | every well-formed instruction is read back from its printed words |
| ProgramText.TokensOfLine | Operating Systems/Semester Project/Project/parser.cpp:231-241 | splitting a line of words at white space gives the words back |
| ProgramText.ReadShownInt | Operating Systems/Semester Project/Project/parser.cpp:95-96 | every 64-bit number is read back from its decimal form |
| ProgramText.NumbersAsWritten | Operating Systems/Semester Project/Project/parser.cpp:95-96 | numbers are decimal, read and shown: of two digits the first counts tens |
| ProgramText.MnemonicsAsWritten | Operating Systems/Semester Project/Project/parser.cpp:90-197 | the fifteen mnemonics as programs write them |
| ProgramText.OperandsAsWritten | Operating Systems/Semester Project/Project/parser.cpp:90-180 | operands are read in the order written; with too few words the instruction gets none |
| ProgramText.SystemCallsAsWritten | Operating Systems/Semester Project/Project/parser.cpp:170-197 | the three system calls as programs write them |
| ProgramText.SpacesSeparate | Operating Systems/Semester Project/Project/parser.cpp:231-241 | blanks, tabs and line ends separate words, however many there are |
| ProgramText.Tokenize | Operating Systems/Semester Project/Project/parser.cpp:231-241 | the extraction loop yields the words of the line |
| ProgramText.Parser.ProcessInstructionLine | Operating Systems/Semester Project/Project/parser.cpp:76-221 | one line updates the instruction map as specified; a line in error changes nothing |
| TaskHeap.RootIsFirst | Data Structures And Algorithms/HW5/HW5/src/MyPriorityQueue/MinHeap.java:47-50 | in a heap nothing goes before the root |
| TaskHeap.SiftUpStep | Data Structures And Algorithms/HW5/HW5/src/MyPriorityQueue/MinHeap.java:30-38 | a swap of the upward sift moves the only disorder to the parent |
| TaskHeap.SiftDownStep | Data Structures And Algorithms/HW5/HW5/src/MyPriorityQueue/MinHeap.java:61-84 | a swap of the downward sift moves the only disorder to the chosen child |
| TaskHeap.MinHeap.Add | Data Structures And Algorithms/HW5/HW5/src/MyPriorityQueue/MinHeap.java:22-39 | keeps the heap order and adds exactly the task; the loop ends |
| TaskHeap.CompareTo | Data Structures And Algorithms/HW5/HW5/src/MyTaskManager/MyTask.java:54-71 | 1 exactly when the first task has the smaller priority, or the same priority and the smaller number; -1 the other way round; 0 for the same key |
| TaskHeap.MinHeap.Poll | Data Structures And Algorithms/HW5/HW5/src/MyPriorityQueue/MinHeap.java:47-87 | nothing for an empty heap; otherwise removes a task no other of which has a smaller priority, or the same priority and a smaller number, and keeps the heap order |
| TaskHeap.StrictExactlyWhenDistinct | Data Structures And Algorithms/HW5/HW5/src/MyTaskManager/MyTask.java:54-71 | a permutation in priority order is strictly increasing if and only if no two of the tasks given share priority and number, in whatever order they were given |
| TaskHeap.SharedNumberIsNotStrict | Data Structures And Algorithms/HW5/HW5/src/MyTaskManager/MyTask.java:54-71 | the concrete failure: two users of one priority with the same task number cannot be put in strict order |
| TaskHeap.TaskManager.CreateTask | Data Structures And Algorithms/HW5/HW5/src/MyTaskManager/MyTaskManager.java:80-86 | rejects an unknown user, otherwise adds the task of that user |
| TaskHeap.TaskManager.Execute | Data Structures And Algorithms/HW5/HW5/src/MyTaskManager/MyTaskManager.java:66-71 | executes a permutation of all waiting tasks by ascending priority and, within a priority, ascending number; strictly if and only if no two share both |
| TaskHeap.NumbersIncrease | Data Structures And Algorithms/HW5/HW5/src/Main/Main.java:35-54 | the tasks of a session are numbered 0, 1, 2, ... in input order, each with the priority of its user |
| TaskHeap.Session | Data Structures And Algorithms/HW5/HW5/src/Main/Main.java:31-61 | a whole session executes exactly the tasks it requested, every one before those of larger priority and, within a priority, of larger number; and none without the execute command |
| Sorting.RangePermuted | Data Structures And Algorithms/HW7/HW7/src/DSA/Sorting/MyQuickSort.java:48-65 | the contract of all sorters, every element outside the range in place and the whole a permutation, makes the range a permutation of itself |
| Sorting.InsertSort | Data Structures And Algorithms/HW7/HW7/src/DSA/Sorting/MyInsertSort.java:30-42 | sorts the range, permutes only the range, and is stable |
| Sorting.InsertIsStable | Data Structures And Algorithms/HW7/HW7/src/DSA/Sorting/MyInsertSort.java:35-40 | moving a key left past strictly greater elements keeps the order inside every equivalence class |
| Sorting.SelectSort | Data Structures And Algorithms/HW7/HW7/src/DSA/Sorting/MySelectSort.java:30-48 | sorts the range and permutes only the range |
| Sorting.Partition | Data Structures And Algorithms/HW7/HW7/src/DSA/Sorting/MyQuickSort.java:76-95 | splits the range around any chosen pivot and permutes only the range |
| Sorting.Sort | Data Structures And Algorithms/HW7/HW7/src/DSA/Sorting/MyQuickSort.java:48-65 | for any comparator, pivots, limits and nesting of sub-sorters, among them any other sorter that meets the same contract: sorts the range, permutes only it, and ends |
| PlanetTree.EveryCommandSequence | Data Structures And Algorithms/HW4/HW4/main/PlanetSystem.java:27-136 | after any commands: unique names, a tree with one chain of planets, satellites as leaves under planets |
| PlanetTree.AddedUnderParent | Data Structures And Algorithms/HW4/HW4/main/PlanetSystem.java:64-87 | an accepted planet or satellite is a new leaf directly under the named parent |
| PlanetReplies.PlanetRepliesExactly | Data Structures And Algorithms/HW4/HW4/main/PlanetSystem.java:55-94 | each reply to a new planet, if and only if, by facts about the tree: readings, parent found and its kind, name taken, planet already below |
| PlanetReplies.SatelliteRepliesExactly | Data Structures And Algorithms/HW4/HW4/main/PlanetSystem.java:105-136 | each reply to a new satellite, if and only if |
| PlanetReplies.CreateRepliesExactly | Data Structures And Algorithms/HW4/HW4/main/PlanetSystem.java:27-44 | each reply to the creation of the system, if and only if, and the star it makes |
| PlanetReplies.AddEffect | Data Structures And Algorithms/HW4/HW4/main/PlanetSystem.java:55-136 | a refused command changes nothing; an accepted one adds exactly the node asked for, with its sensors, as the last child of its parent |
| PlanetSearch.FindNodeByName | Data Structures And Algorithms/HW4/HW4/main/PlanetSystem.java:198-212 | the stack loop ends and finds a node if and only if the name exists |
| PlanetSearch.RootSearchIsComplete | Data Structures And Algorithms/HW4/HW4/main/PlanetSystem.java:235-247 | the recursive search comes back empty if and only if no node has the name |
| PlanetSearch.PathFromLeads | Data Structures And Algorithms/HW4/HW4/main/PlanetSystem.java:235-247 | what it finds is a parent-to-child path to a node of that name |
| PlanetSearch.RootPathIsUnique | Data Structures And Algorithms/HW4/HW4/main/PlanetSystem.java:156-168 | there is only one path from the root to a node |
| PlanetSearch.FindPath | Data Structures And Algorithms/HW4/HW4/main/PlanetSystem.java:235-247 | the push and pop recursion builds exactly that path on top of its stack |
| PlanetSearch.PlanetSystem.CreatePlanetSystem | Data Structures And Algorithms/HW4/HW4/main/PlanetSystem.java:27-44 | the star is created once, with sensor data that is not negative and no humidity |
| PlanetSearch.PlanetSystem.NewPlanetUnder | Data Structures And Algorithms/HW4/HW4/main/PlanetSystem.java:55-94 | every check of the command, in order, and its effect |
| PlanetSearch.PlanetSystem.NewSatelliteUnder | Data Structures And Algorithms/HW4/HW4/main/PlanetSystem.java:105-136 | every check of the command, in order, and its effect |
| PlanetSearch.PlanetSystem.GetPathTo | Data Structures And Algorithms/HW4/HW4/main/PlanetSystem.java:156-168 | the labels along the root path, empty exactly for an unknown name, nothing before the system exists |
| PlanetSearch.LabelsAsPrinted | Data Structures And Algorithms/HW4/HW4/main/PlanetSystem.java:160-163 | a label is the kind of the node and its name |
| RobotGrid.Grid.constructor | Object Oriented Programming Spring/PA4/PA4.cpp:76-88 | an empty grid and a counter of all robots to come |
| RobotGrid.Grid.Populate | Object Oriented Programming Spring/PA4/PA4.cpp:550-632 | all robots are placed if and only if enough different cells are drawn; then the invariant holds with five newcomers of each kind |
| RobotGrid.GetDamage | Object Oriented Programming Spring/PA4/PA4.cpp:389-519 | every random draw gives a damage of the robot's kind; all but the kamikaze deal at least one |
| RobotGrid.DamageExtremes | Object Oriented Programming Spring/PA4/PA4.cpp:389-519 | exactly which damages the robots deal as placed: 1 to 300, 1 to 30 or 51 to 80, 2 to 6, 1 to 50, and 10 |
| RobotGrid.LineUp | Object Oriented Programming Spring/PA4/PA4.cpp:550-632 | five robots of each kind, in order, with the strength and hit points of the kind |
| RobotGrid.Grid.Exchange | Object Oriented Programming Spring/PA4/PA4.cpp:127-171 | a fight is a sequence of blows struck in turn, the attacker first, each a possible damage, that ends with the first blow by a kamikaze or to zero; both robots lose exactly what they were dealt |
| RobotGrid.WhoIsRemoved | Object Oriented Programming Spring/PA4/PA4.cpp:134-170 | a kamikaze that attacks goes with its first blow, one that is attacked goes too, and otherwise the robot left without hit points |
| RobotGrid.Grid.Fight | Object Oriented Programming Spring/PA4/PA4.cpp:127-171 | after the fight exactly one robot is gone from the grid and the count, and the attacker stands in the other cell if it was not the one |
| RobotGrid.Grid.Move | Object Oriented Programming Spring/PA4/PA4.cpp:324-350 | a step goes to the neighbouring cell drawn: not off the board, into an empty cell, or into a fight; the exact new grid, robots and count |
| RobotGrid.MovesSound | Object Oriented Programming Spring/PA4/PA4.cpp:172-186 | every step keeps robots at their own coordinates and the count equal to the occupied cells, and everyone else in place |
| RobotGrid.Grid.MoveLoop | Object Oriented Programming Spring/PA4/PA4.cpp:116-126 | a turn follows the walk its random numbers draw and ends with a fight or with one robot left, unless the numbers given run out; it removes exactly one robot if there was a fight, none otherwise |
| RobotGrid.Grid.Turns | Object Oriented Programming Spring/PA4/PA4.cpp:221-246 | after a round, unless one robot is left, everyone on the grid has fought in its turn or used up its random numbers, and without a loss nobody has fought |
| RobotGrid.Grid.Announce | Object Oriented Programming Spring/PA4/PA4.cpp:247-263 | the scan finds the one robot left: the grid held nothing else, and is cleared |
| RobotGrid.Grid.Simulation | Object Oriented Programming Spring/PA4/PA4.cpp:219-264 | a winner is announced if and only if one robot is left, and it alone stood on the grid; otherwise the invariant holds for the next round |
| RobotGrid.Grid.Play | Object Oriented Programming Spring/PA4/PA4.cpp:633-640 | over any number of rounds the invariant holds until a winner is announced, who is the only robot left |

## Left out

- Integer width: Java and C integers are unbounded here. The quadratic probe agrees with 32-bit arithmetic while the table has at most 46340 slots, and CPU words, thread numbers and match counts agree while nothing overflows.
- Matches.CountMatches: walking out of the line is undefined in C; the model says that it happens, and in the protocol such a count never completes.
- LogSearchRuns.StuckRunHasPrintedTotal: covers runs without SIGINT; after it, workers may leave a manager blocked on a full buffer. Thread creation failures are left out too.
- LogBuffer.Buffer.SetEof: the two broadcasts that follow the assignment are part of the protocol step that closes the buffer, not of this method.
- FileQueue.EveryReachableState: runs end at the destruction of the semaphores in the shutdown; client threads that use them afterwards are not modelled. Waiting times, the processing of a transfer and the files it records are not modelled.
- ChatRooms.CommandKeepsInv: commands are whole; the separate lock sections of the capacity check and the insertion are not interleaved. Messages, rejoin history, user names and the sizes of name buffers are not modelled.
- CpuObject.CPU.Step: debug callbacks and output are not modelled. Reading a missing operand of a print call or an unset system-call type is undefined in C++; the first is modelled as an exception, the second as an unknown call.
- CpuStack.StackSimulation: holds under a stated discipline (data writes stay off the program counter, the stack pointer and the live stack, the stack stays off machine words, pops need a frame, no call or return to its own address, no print call that loses the stack pointer).
- ProgramText.PrintedInstructionLoadsBack: operands are 64-bit words and addresses unsigned 64-bit; the data section, section markers and file reading are not modelled. A non-SYSCALL instruction carries the unknown system-call type, which the program leaves unset.
- TaskHeap.Session: input comes as lines already classified and users as a list of priorities; reading the configuration file and parsing numbers are not modelled.
- SpellChecker.GetSuggestions: the dictionary is the live content of its hash set; words that the set lost while being filled are not in it. Console input, timing and printing are not modelled.
- PlanetSearch.PlanetSystem.GetPathTo: radiation reports and mission printing are not modelled.
- RobotGrid.Grid.MoveLoop: the random walk, the random placement and the rounds need not end in the program; here each also stops when the random numbers or rounds supplied run out. Display is not modelled.
- System Programming HW1 and HW2: process, pipe and signal handling around short sequential code.
- System Programming HW3: its queue is popped outside the mutex, so no invariant holds over all interleavings; taken sequentially it is a simpler priority queue than the heap.
- System Programming midterm: the bank server's semaphores live in the memory of each process, so they order nothing between clients; the ledger arithmetic is one addition per request.
- Lexer and parser: tool output, not the authors' logic.
- Sparse matrices, the school, device, catalog and media programs and the small C exercises: they store, look up and print records one at a time or work in floating point, with no invariant that spans several operations.
