# A verified model of cavatools

Cavatools runs RISC-V programs: `uspike` is a multi-threaded interpreter, and
`caveat` puts caches, per-pc counters and a clock on top of it.  This project
models the parts of both whose correctness is not visible in any one function,
and proves what they promise.

* **Fused compare-and-swap** (`Machine`, `Reservations`, `Substitution`, `Sites`,
  `Fusion`, `Interpreter`).  `substitute_cas` rewrites every `lr; bne; sc` sequence of the
  predecoded program into one compare-and-swap instruction.  Two multi-hart
  machines are defined: the ISA's, with LR/SC and reservations as in section 8.2
  of the RISC-V Unprivileged ISA (20191213), and the interpreter's, which has no
  reservations.  Every interleaved run of the rewritten program is matched by a
  run of the original one when every site meets a register condition, and that
  condition is exact: every site that does not meet it goes wrong from some
  state.
* **The cache** (`Orders`, `OrderNames`, `FsmTable`, `Lru`, `LruBound`, `CacheSpec`,
  `LruCache`, `CacheTraces`, `CacheDirty`).  A generated transition table drives
  replacement.  The generator is proved to reach exactly the n! recency orders
  for every n, its flat table to make one `lookup` a move-to-front step, and the
  class to compute exactly what a list-based cache does; on that stand the
  classic theorems about LRU and the accounting of dirty lines.
* **The decoder** (`Bits`, `Layout`, `Codec`, `Packing`, `Decoder`).  Textual bit layouts
  become a mask, a code, field extractions and packed 64-bit instructions.
  Encoding and decoding undo each other for every layout, and through the
  generated chain of tests exactly when each layout is apart from those before
  it.
* **Threads** (`CasRetry`, `Amo`, `HartCount`, `HartList`, `Clone`, `Pool`).
  Each protocol is a state machine whose steps are single shared accesses;
  the results hold for every interleaving of any number of threads.
* **Supporting cores** (`Stack`, `GdbPacket`, `GdbRegs`, `Perf`, `Ledger`): the
  initial stack, the GDB packet link, the counters and the clock.

Code that updates state in place is modelled by classes and loops proved against
specification functions; the theorems are about those functions.

Some findings, each proved by the member named:

* The fusion pass checks two of the register conditions it needs.
  `Fusion.FusedSiteIsExact` gives the sites it fuses rightly and wrongly, and
  `Sites.BadSiteDiffers` a state that shows it for each of the latter.
* `malloc` reads `pooltop` twice.  If another allocation falls between the two
  reads, the top can move backwards and blocks overlap
  (`Pool.TornReadsOverlap`); `Pool.RunIsClearIffFits` is the exact condition,
  and `Pool.MisfitOverlaps` the harm done where it fails.
* The reply to a GDB `G` packet that carries the registers but no pc is OK, and
  the pc is cleared (`GdbRegs.ReplyIsOkIff`).
* On a failed `clone` the parent waits for ever
  (`Clone.FailedCloneNeverReturns`).
* `lookup` reports the incoming line, not the victim, as evicted
  (`LruCache.Cache.Lookup`); line 0 is taken for an empty way, which adds one
  exact case to the condition for a hit (`CacheTraces.LookupHitsIff`).

`Common` holds what several modules use.  `dafny verify dfyconfig.toml` checks
the whole project.

## Model

| member | source | states |
|---|---|---|
| Machine.LoadAfterStore | uspike/mmu.h:20-41 | a load returns what the last store of the same width left there, truncated and sign-extended |
| Machine.UspikeIgnoresReservations | uspike/mmu.h:58-61 | no step of the interpreter depends on reservations: configurations that differ only there step alike |
| Reservations.OthersReservations | uspike/mmu.h:58-61 | on the machine the interpreter is compared with, a store into bytes another hart has reserved breaks that reservation, and nothing else another hart does touches it |
| Reservations.ScSucceedsIff | uspike/mmu.h:58-61 | the promise the stubs stand in for: an SC behind an LR stores and reports zero iff its bytes are among those the LR reserved and no other hart has stored to any of them since |
| Reservations.ReservedBytesStay | uspike/instructions.cc:151-184 | so the bytes an LR read are still what it read when its SC succeeds |
| Reservations.OtherIsSem | uspike/interpreter.cc:113-121 | every other instruction does what its semantics says, registers, pc and memory, on both machines, or faults on both |
| Reservations.OthersStandStill | uspike/interpreter.cc:97-135 | no step of either machine moves another hart |
| Reservations.StubsAlwaysAnswerYes | uspike/mmu.h:58-61 | in the interpreter an LR loads and a lone SC stores and reports zero wherever memory is, aligned or not, whatever is reserved |
| Substitution.InsnSpace.constructor | uspike/instructions.cc:21-23 | every entry starts as ZERO |
| Substitution.InsnSpace.Predecode | uspike/instructions.cc:24-29 | the table holds the decoded instruction at exactly the starts of the front-to-back walk and zero elsewhere |
| Substitution.InsnSpace.FuseAt | uspike/instructions.cc:156-178 | one iteration of the pass: the entry is replaced iff it begins the pattern (`lr`, `bne` or `c.bnez` on the loaded register, `sc` to the same address register), by the compare-and-swap of that width, length and registers |
| Substitution.InsnSpace.SubstituteCas | uspike/instructions.cc:151-184 | returns iff every load-reserve at a start begins the pattern, faults iff one is cut off by the end of the segment, exits otherwise; on return or exit every pattern at a start is replaced and nothing else |
| Substitution.SubstitutedIsRewritten | uspike/instructions.cc:155-179 | the pass entry by entry, in terms of the table alone |
| Substitution.OutcomesArePatterns | uspike/instructions.cc:156-183 | its outcomes in terms of the table alone |
| Substitution.StartsAreWalked | uspike/instructions.cc:155 | the pass visits entry 0 and, from each entry visited, the one two or four bytes on, as the instruction is compressed or not |
| Substitution.WalkRepeats | uspike/instructions.cc:25-30 | the walk of the pass over the filled table visits exactly the starts the predecode walk visited |
| Substitution.PassKeepsStarts | uspike/instructions.cc:155-179 | rewriting changes no instruction start |
| Substitution.PassLeavesNoLr | uspike/instructions.cc:155-183 | if the pass returns, no `lr.w` or `lr.d` remains at any start |
| Substitution.PassChangesOnlyLr | uspike/instructions.cc:157-177 | a changed entry was a load-reserve at a start, is now a fused instruction, and still finds its branch, on the loaded register, at pc+4 |
| Substitution.TallyMeaning | uspike/instructions.cc:154-183 | the counters compared at the end agree iff every visited start is fusible |
| Fusion.TurnIsBlock | uspike/interpreter.cc:76-86 | one turn of the interpreter equals the block of original instructions it stands for: registers and pc of every hart, memory |
| Fusion.FaultIsBlock | uspike/interpreter.cc:76-86 | where a turn of the interpreter faults, the block it stands for faults |
| Fusion.RunIsMatched | uspike/instructions.cc:151-184 | a whole interleaved run ends where its matching run of the original program ends, in a fault if it faults |
| Fusion.FusionIsSound | uspike/instructions.cc:151-184 | for every program with good sites and every interleaving, one run of the original program with LR/SC and reservations passes through the same registers, pcs and memory at every instruction boundary of the interpreter's run, failed swaps and jumps into the untouched branch or SC included, and faults if and when that run does |
| Fusion.FusedSiteIsExact | uspike/instructions.cc:165-178 | at every fused site of every program: the site is good iff each turn on it, from every state that means the swap, agrees with the original program |
| Fusion.CasTurnIsExact | uspike/interpreter.cc:76-86 | at a good site the states that agree are those with an aligned address whose truncated test register decides the comparison alike, and those where nothing depends on it |
| Fusion.ScTurnIsExact | uspike/mmu.h:58-61 | a lone SC, which always succeeds here, agrees with the ISA iff the hart holds an aligned reservation covering it |
| Fusion.LrTurnIsExact | uspike/mmu.h:58-61 | a lone LR agrees with the ISA iff its address is aligned |
| Sites.GoodSiteAgrees | uspike/instructions.cc:165-178 | at a good site, from every state that means it, the fused instruction does what the three instructions do |
| Sites.WiderScDiffers | uspike/instructions.cc:163-177 | every site whose SC is wider than its LR goes wrong from some state |
| Sites.LoadIntoX0Differs | uspike/instructions.cc:165-172 | every site that loads into x0 goes wrong from some state |
| Sites.LoadIntoTestDiffers | uspike/instructions.cc:165-172 | every site that loads into its test register, but the one harmless kind, goes wrong from some state |
| Sites.LoadIntoNewValueDiffers | uspike/instructions.cc:165-172 | every site that stores the register it loads, testing another, goes wrong from some state |
| Sites.LoadIntoAddressDiffers | uspike/instructions.cc:165-172 | every site that loads into its address register, but the one harmless kind, goes wrong from some state |
| Sites.WidthsDiffer | uspike/instructions.cc:163-177 | every site whose SC stores half of what its LR loads, and not of the value tested, goes wrong from some state |
| Sites.BadSiteDiffers | uspike/instructions.cc:151-184 | every site that is not good goes wrong from some state, at every pc |
| Sites.SiteIsGoodIff | uspike/instructions.cc:151-184 | the register condition holds iff fused and original agree from every state that means the swap, in every machine |
| Sites.StateIsExact | uspike/interpreter.cc:76-86 | at a good site, exactly which states agree |
| Sites.TruncateIs | uspike/interpreter.cc:80-81 | the cast to the operand type gives the signed number of that width with the same low bytes |
| Interpreter.Core.constructor | uspike/hart.cc:131-141 | a new hart has zero registers, the entry pc and a zero count |
| Interpreter.Core.CompareAndSwap | uspike/interpreter.cc:83 | the value found is returned; memory changes iff it was the expected one |
| Interpreter.Core.Cas | uspike/interpreter.cc:76-86 | registers, memory and success of the fused instruction, x0 apart |
| Interpreter.Core.Dispatch | uspike/interpreter.cc:111-124 | one instruction in place is one step of the machine, once x0 is cleared |
| Interpreter.Core.Run | uspike/interpreter.cc:97-135 | the loop performs exactly max(1, how_many) steps, or stops before a trap; pc and count are written back accordingly |
| Interpreter.MrunIsUrun | uspike/interpreter.cc:97-135 | the steps of the loop are those of the machine in the fusion theorem |
| Orders.OrdersAreAllOrders | caveat/make_cache:16-43 | every permutation of the ways is among the enumerated recency orders |
| Orders.AllOrdersAreOrders | caveat/make_cache:16-43 | and only permutations are |
| Orders.OrdersCount | caveat/make_cache:28-43 | there are n! of them |
| Orders.ClosedIsAll | caveat/make_cache:28-36 | a set of orders closed under move-to-front that has one order has them all |
| OrderNames.NameIsUnique | caveat/make_cache:23-26 | the dash-joined names the table is keyed by tell any two orders apart |
| OrderNames.LessMeans | caveat/make_cache:47 | names are compared as strings are: by the first character that differs, a prefix first |
| OrderNames.DecimalReads | caveat/make_cache:39-40 | ways are named by their decimal numerals |
| OrderNames.Sort | caveat/make_cache:46-48 | a set of orders is listed by name, each once |
| OrderNames.SortIsUnique | caveat/make_cache:46-59 | sorting by name leaves one sequence only, so the states are numbered the same way in both passes and the file depends on the number of ways alone |
| FsmTable.Generator.constructor | caveat/make_cache:41 | the table starts empty |
| FsmTable.Generator.Explore | caveat/make_cache:28-36 | the recursive search terminates for every n, keeps every finished entry, and leaves its own order explored |
| FsmTable.AllReached | caveat/make_cache:28-43 | a finished search has reached all n! orders, with no entry unset |
| FsmTable.Generator.Generate | caveat/make_cache:38-43 | the finished table has exactly the n! orders, each entry the move-to-front of its order |
| FsmTable.Generator.Emit | caveat/make_cache:45-72 | the array written: header, then for each order, sorted by name, its ways and next states times n |
| FsmTable.FlatIsFsm | caveat/make_cache:57-70 | slot 1+k*n+i of the array holds way i of order k and n times the number of the order after using it |
| Lru.RowIsRecencyWindow | caveat/cache.h:49-85 | after any trace a row is the n most recent distinct lines in recency order, then empty slots |
| Lru.RankIsSince | caveat/cache.h:59-79 | a line's place in recency order is the number of distinct lines referenced since it |
| Lru.HitIff | caveat/cache.h:59-65 | a reference hits iff fewer than n distinct other lines were referenced since its own last one, or it is to line 0 and fewer than n lines were ever used |
| Lru.TouchKeepsPrefix | caveat/cache.h:59-79 | a row with one more way keeps the smaller row as its prefix through every reference |
| Lru.MoreWaysNoMoreMisses | caveat/cache.cc:18-30 | misses of a row never rise with associativity |
| LruBound.ReferencePays | caveat/cache.h:53-79 | one reference pays for its miss out of a potential |
| LruBound.LruIsCompetitive | caveat/cache.h:53-79 | on every trace a row misses at most n times as often as any n-slot replacement schedule, plus n |
| LruBound.LruIsASchedule | caveat/cache.h:53-79 | LRU is itself one of those schedules, with the misses the row counts |
| LruCache.Cache.constructor | caveat/cache.cc:13-43 | a new cache is empty, clean, with zero counters, its geometry the powers of two asked for |
| LruCache.Cache.Flush | caveat/cache.cc:46-51 | all ways empty and clean, all rows in state 0, counters untouched |
| LruCache.Cache.Search | caveat/cache.h:53-66 | the pointer walk stays in the table and meets the row's ways in recency order until the line or the last way |
| LruCache.Cache.Account | caveat/cache.h:66-83 | tag, dirty bit, eviction report and counters after the walk |
| LruCache.Cache.Lookup | caveat/cache.h:49-85 | one lookup is one step of the list-based cache with 63-bit tags: row, hit, all four counters; the eviction report is the incoming line, or 0; it faults iff a dirty line falls out of a cache that is not writeable |
| CacheSpec.CutIsWhole | caveat/cache.h:14-17 | where the line number fits the tag the step is that of whole line numbers |
| CacheSpec.WideLineMisses | caveat/cache.h:14-17 | a line number that does not fit, possible with one-byte lines only (`LinesFit`), never hits |
| LruCache.StepRow | caveat/cache.h:59-79 | the next state in the table stands for the row after move-to-front or evict-last |
| LruCache.StateBound | caveat/cache.h:54-65 | every state is a multiple of the ways below ways*ways!, and the walk from it meets each way once |
| LruCache.StateFitsShort | caveat/cache.h:9-12 | states fit 16 bits exactly up to seven ways |
| LruCache.Make | caveat/cache.cc:13-43 | a cache is built iff 1 to 4 ways are asked for, and then it is the empty cache over the generated table |
| CacheTraces.RowAfterRun | caveat/cache.h:52-54 | rows are independent: each sees its own references only |
| CacheTraces.RowHoldsMostRecent | caveat/cache.h:49-85 | after any trace each row holds exactly its most recent distinct lines, in order |
| CacheTraces.LookupHitsIff | caveat/cache.h:49-85 | the stack-distance condition for a hit, in the whole cache, for every line and trace; line 0 also hits while its row has an empty slot |
| CacheTraces.MoreWaysNeverWorse | caveat/cache.cc:18-30 | every k-way hit is a (k+1)-way hit, so total misses never rise |
| CacheTraces.MissesAddUp | caveat/cache.h:68 | the miss counter is the sum of the rows' misses |
| CacheTraces.CountersCount | caveat/cache.h:51 | the counters of references and updates count just those |
| CacheTraces.CacheIsCompetitive | caveat/cache.h:53-79 | counted misses are at most `ways` times those of any schedule for the same rows, plus one filling |
| CacheDirty.DirtyIff | caveat/cache.h:69-83 | a resident line is dirty iff it was written since it was filled |
| CacheDirty.EvictsIff | caveat/cache.h:69-73 | an eviction is counted iff the reference ends a residency that had a write |
| CacheDirty.EvictionsAreEndedWrites | caveat/cache.h:69-73 | the eviction counter is the number of ended residencies with a write |
| CacheDirty.WritesPayForDirt | caveat/cache.h:69-83 | evictions plus dirty lines never exceed updates |
| Layout.CompileImmediate | uspike/crunch_isa:128-155 | the parts of one immediate become extractions at consecutive positions, the last signed if the immediate is |
| Layout.CompileRegister | uspike/crunch_isa:157-162 | a field sets every register slot it names |
| Layout.Compile | uspike/crunch_isa:91-176 | the one-pass compiler equals the recursive definition of mask, code, extractions and registers; None iff the width is not 16 or 32 |
| Layout.BigIs | uspike/crunch_isa:151-153 | the long form is chosen iff some immediate is written from bit 13 or above |
| Codec.EncodedMatches | uspike/crunch_isa:123-126 | an encoded instruction matches its own mask and code |
| Codec.RegsRecovered | uspike/crunch_isa:157-162 | every register field gives back the number encoded, and other slots keep their default |
| Codec.ImmediateRecovered | uspike/crunch_isa:128-155 | the extracted immediate is the one encoded iff the layout can hold it |
| Codec.EncodeThenDecode | uspike/crunch_isa:91-176 | for every layout, decoding an encoded instruction recovers all of it, whatever follows it in memory, and gives x2, x1 or no register where the type implies them |
| Codec.DecodeThenEncode | uspike/crunch_isa:122-176 | for every sound layout, re-encoding what is read from a matching instruction gives the instruction |
| Packing.ShortReads | uspike/instructions.h:38-44 | a short immediate is tagged, its flags clear, and reads back iff it fits 13 signed bits |
| Packing.LongReads | uspike/instructions.h:44 | a long immediate reads back iff it is even, or is -1 |
| Packing.ShortHolds | uspike/crunch_isa:151-153 | where the short form is chosen it holds every immediate the layout can hold, but for 13-bit unsigned ones with the highest bit set |
| Packing.PackedReads | uspike/make_headers:38-51 | the chosen constructor keeps rd always, every register of a short form, and the immediate exactly when it fits |
| Packing.TableIsSmall | uspike/crunch_isa:62-89 | every field of the register table fits the signed byte it is packed in |
| Packing.TableByFormat | uspike/crunch_isa:62-89 | the register fields by instruction format: where they lie and which register they give |
| Packing.TableByFile | uspike/crunch_isa:62-89 | the register fields by register file: what they are counted from |
| Packing.DecoderRoundTrip | uspike/make_headers:29-52 | operands to bits to packed instruction and back, implied registers included, for every layout over the register table |
| Decoder.BothTakeIff | uspike/make_headers:34-37 | some word passes the tests of both of two opcodes iff no bit tells their codes apart |
| Decoder.ChainPicksIff | uspike/make_headers:25-52 | the chain of tests picks an opcode for all its words iff each opcode before it is told apart by some bit |
| Decoder.ChainRoundTrip | uspike/make_headers:25-52 | an instruction encoded by an opcode told apart from those before it is decoded as that opcode and gives back its operands |
| Decoder.UnknownIsBlank | uspike/instructions.cc:83-93 | a word no test takes is decoded as the unknown instruction without registers |
| CasRetry.RunIsAtomic | uspike/mmu.h:43-56 | every interleaving of read-compute-swap loops and plain stores leaves the memory and results of calls made whole, in the order of their successful swaps |
| CasRetry.EachCallOnce | uspike/mmu.h:43-56 | the calls that took effect are those started, in order, less one still pending: none lost, none doubled |
| CasRetry.FailureMeansProgress | uspike/hart.cc:29-31 | a swap fails only if some other call or store took effect since the read |
| CasRetry.OneCall | uspike/mmu.h:43-56 | undisturbed, a call reads, computes, writes and returns |
| Amo.AmoEffect | uspike/mmu.h:43-56 | one AMO returns the old operand, leaves f of it, and touches no other byte |
| Amo.AddsAreNeverLost | uspike/mmu.h:43-56 | racing adds leave the word increased by the sum of all of them, modulo its width |
| HartCount.NothingIsLost | uspike/hart.cc:26-33 | at every step the private counts sum to the total plus the additions in flight |
| HartCount.BracketsCancel | uspike/proxy_syscall.cc:82-105 | inside a system call a hart's count is exact, and afterwards it is as if the bracket had not been |
| HartCount.TotalIsExact | uspike/interpreter.cc:119-133 | the total is the instructions completed less those uncommitted; exact when all harts are in calls or out of the interpreter |
| HartCount.RetiredIsCompleted | uspike/interpreter.cc:107-132 | what a hart is recorded to have completed is its ordinary instructions and its returned system calls |
| HartCount.OneCall | uspike/proxy_syscall.cc:82-105 | undisturbed, a system call adds the instructions so far to both counts, takes them off again, and is one more instruction |
| HartCount.OneLeave | uspike/interpreter.cc:131-134 | undisturbed, leaving the interpreter adds them for good |
| HartList.ListHoldsEachOnce | uspike/hart.cc:142-144 | the chain from `cpu_list` is acyclic and holds each hart whose push succeeded exactly once |
| HartList.NumbersAreDense | uspike/hart.cc:145-149 | the numbers handed out are distinct and exactly 0 to `num_threads`-1 |
| HartList.AllNumbered | uspike/hart.cc:145-149 | when all constructors are done the count is n and every hart has a number below it |
| HartList.OneConstructor | uspike/hart.cc:142-149 | undisturbed, a constructor puts its hart in front of the list and gives it the next number |
| HartList.FailureMeansOvertaken | uspike/hart.cc:142-148 | a push or a count fails iff another hart came between, and starts over |
| HartList.WalkIsStable | uspike/hart.cc:18-24 | a walk that has reached a hart sees the same rest of the list whatever is pushed meanwhile |
| HartList.Find | uspike/hart.cc:18-24 | the newest hart with the thread id, or none if no hart of the list has it |
| Clone.RunKeeps | uspike/proxy_syscall.cc:110-150 | the handshake invariant holds after any events |
| Clone.ParentWaitsForCopy | uspike/proxy_syscall.cc:141-144 | while a child copies, its parent is in the loop, lock set, registers those of the ecall; a parent that leaves has a child that took all it needs |
| Clone.ChildStartsRight | uspike/proxy_syscall.cc:110-125 | when the child turns to guest instructions it has its parent's whole state at the ecall except x2, x4, x10 and pc, whenever the parent resumes; the parent resumes with only the pc and x10 changed, the latter to what clone returned |
| Clone.OthersUntouched | uspike/proxy_syscall.cc:110-150 | no step of one hart's thread changes the registers, pc or other state of another hart, nor its place except to wake it |
| Clone.AnyStateClones | uspike/proxy_syscall.cc:134-144 | a hart can come to a clone with any state, and waits with its lock set, whether the clone succeeds or not |
| Clone.NoLostWakeup | uspike/proxy_syscall.cc:119-120 | no parent sleeps with its lock clear and no wake coming |
| Clone.StepLowersRank | uspike/proxy_syscall.cc:141-144 | nothing but an interrupted sleep takes a waiting parent further from leaving, and its own or its child's steps bring it closer |
| Clone.HandshakeFinishes | uspike/proxy_syscall.cc:141-144 | whatever happens, a parent whose clone succeeded is out of the loop at the latest when the steps of itself and its children come to its rank, and two more for each interrupted sleep |
| Clone.HandshakeCanFinish | uspike/proxy_syscall.cc:110-144 | such steps can always be taken: from every state it can leave by them alone, no more of them than its rank |
| Clone.FailedCloneNeverReturns | uspike/proxy_syscall.cc:142-144 | a parent whose clone failed never leaves the loop |
| Clone.LoopRechecks | uspike/proxy_syscall.cc:142-144 | a parent that is woken, for whatever reason, tests its lock again; it sleeps only while the lock is set |
| Pool.StepKeepsLayout | uspike/main.cc:116-130 | a step keeps the layout of the pool iff it is not a winning swap whose two reads of the top fell further apart than its slack |
| Pool.LayoutIffFits | uspike/main.cc:116-130 | a run keeps the layout throughout iff every winning swap fits |
| Pool.RunIsClearIffFits | uspike/main.cc:116-130 | throughout a run the blocks lie in the pool one behind the other, all below the top, iff every winning swap fits |
| Pool.FittingBlocksAreDisjoint | uspike/main.cc:116-130 | when every winning swap has fitted, the blocks are pairwise disjoint and inside the pool |
| Pool.MisfitLeavesTopBelow | uspike/main.cc:119-127 | a winning swap that does not fit leaves the top below the end of the block it hands out |
| Pool.MisfitOverlaps | uspike/main.cc:119-127 | after it one more malloc with room that reaches past the start of that block returns a block overlapping it |
| Pool.NoRoomFails | uspike/main.cc:119-124 | without room for a block and sixteen bytes malloc fails and leaves the pool alone, unless the sum wraps round |
| Pool.OvertakenRetries | uspike/main.cc:118-127 | an attempt that was overtaken starts over with its size and gets a block above what overtook it |
| Pool.BlocksAreDisjoint | caveat/simulator.cc:259-273 | when the two reads agree: blocks disjoint, inside the pool, 1 to 16 bytes of slack each, all 16-aligned iff the base is |
| Pool.TornReadsOverlap | uspike/main.cc:119-127 | a run with a torn pair of reads hands out overlapping blocks |
| GdbPacket.HexRoundTrip | uspike/gdblink.c:132-150 | a digit and a two-digit checksum read back |
| GdbPacket.HexDigits | uspike/gdblink.c:141-150 | the digits in either case are read as their values and nothing else is |
| GdbPacket.BadDigits | uspike/gdblink.c:188-192 | what an invalid checksum digit counts as |
| GdbPacket.OkOnTheWire | uspike/gdblink.c:208-226 | the reply OK is `$OK#9a` on the wire |
| GdbPacket.Link.constructor | uspike/gdblink.c:26-33 | the buffer holds the longest payload and a terminator |
| GdbPacket.Link.AwaitStart | uspike/gdblink.c:162-165 | characters up to the next start character are skipped |
| GdbPacket.Link.ReadBody | uspike/gdblink.c:169-181 | a frame's characters are collected with their checksum, starting afresh at a start character and stopping when full |
| GdbPacket.Link.ReceivePacket | uspike/gdblink.c:153-206 | buffer, answers sent and input left over are those of the reception function |
| GdbPacket.Link.SendFrame | uspike/gdblink.c:214-224 | the frame of the buffer's string, up to its zero, is put on the wire |
| GdbPacket.Link.SendPacket | uspike/gdblink.c:208-226 | the frame is sent once for each answer up to the first '+' |
| GdbPacket.GoodFrameIsReceived | uspike/gdblink.c:153-206 | after any noise, aborted frames and bad frames a good frame is returned, with one '-' for each bad one and one '+' |
| GdbPacket.OverlongIsCut | uspike/gdblink.c:173-181 | of a frame too long for the buffer the first 627 characters are received, unanswered |
| GdbPacket.AcknowledgedIsGenuine | uspike/gdblink.c:167-201 | an acknowledged payload arrived as one whole frame with its checksum and fits the buffer |
| GdbPacket.SentIsReceived | uspike/gdblink.c:208-226 | what is sent is received iff it has no '$', '#' or zero and fits the buffer |
| GdbRegs.RcvHexDigit | uspike/gdblink.c:295-308 | one digit is consumed iff there is one |
| GdbRegs.RcvHexToMemory | uspike/gdblink.c:325-362 | memory, position and answer are those of the decoding function, on early ends too; memory that cannot be written gives answer 0 with nothing read |
| GdbRegs.ShortTextZeroes | uspike/gdblink.c:343-361 | text that ends early leaves the bytes it gives, then zeros |
| GdbRegs.ReplyInHex | uspike/gdblink.c:239-274 | every byte is appended as two digits, or E09 if some cannot be read; the call aborts for want of room |
| GdbRegs.Target.SendRegisters | uspike/gdblink.c:366-370 | the reply is all registers and the pc in hexadecimal |
| GdbRegs.Target.SetRegisters | uspike/gdblink.c:371-379 | registers, pc and reply after a `G` packet |
| GdbRegs.RegistersComeBack | uspike/gdblink.c:366-379 | registers sent by `g` and returned in a `G` packet are received whole and restored byte for byte |
| GdbRegs.ReplyIsOkIff | uspike/gdblink.c:371-379 | the reply is OK iff the text is hexadecimal with registers and pc, or registers alone; then the pc is zero |
| Perf.CellInside | caveat/perf.cc:28-44 | every counter lies inside the segment, behind the header |
| Perf.CellsDoNotAlias | caveat/perf.cc:18-26 | counters of different cores, pcs or kinds never alias |
| Perf.CellBytes | caveat/perf.h:5-16 | where a reader of the shared segment finds each counter, in bytes, and how long the segment is |
| Perf.Counters.constructor | caveat/perf.cc:18-26 | a core's pointers are at their offsets; a core too many gets none |
| Perf.Counters.Inc | caveat/perf.h:33-36 | one counter of one pc of this core grows; every other counter, core and the header stay |
| Ledger.Mem.constructor | caveat/simulator.cc:121-128 | a core starts with its clock at zero |
| Ledger.Mem.InsnModel | caveat/simulator.cc:53-63 | clock, counters and instruction cache after one fetch |
| Ledger.Mem.JumpModel | caveat/simulator.cc:65-70 | the jump cost goes to the clock and to the target pc |
| Ledger.Mem.LoadModel | caveat/simulator.cc:72-80 | clock, counters and data cache after a load |
| Ledger.Mem.StoreModel | caveat/simulator.cc:82-90 | clock, counters and data cache after a store |
| Ledger.Mem.AmoModel | caveat/simulator.cc:92-99 | clock, counters and data cache after an atomic operation |
| Ledger.BooksBalance | caveat/simulator.cc:53-99 | over any calls the clock grows by the cycles charged to all pcs, which are instructions, jump costs and miss penalties; misses charged are the caches' own |
| Ledger.ParcelBalances | caveat/simulator.cc:53-99 | the same for each parcel by itself: it is charged with its own instructions, the jumps to it and the misses of its own accesses |
| Ledger.CachesAreTold | caveat/simulator.cc:53-99 | fetches and loads read, stores and atomic operations write; each cache ends as its own references leave it, and its counters count them |
| Stack.Loader.constructor | uspike/elf_loader.c:185-188 | the stack top is the end of the segment |
| Stack.Loader.PushStrings | uspike/elf_loader.c:204-226 | strings are copied one below the other and their addresses kept |
| Stack.Loader.CountAux | uspike/elf_loader.c:229-232 | entries up to and including the first null key |
| Stack.Loader.PushAux | uspike/elf_loader.c:255-282 | exactly the kept entries are pushed, in order |
| Stack.Loader.InitializeStack | uspike/elf_loader.c:194-285 | a store faults iff the image does not fit; otherwise the finished image: aligned stack pointer, words, untouched zeros, strings, headers, none overlapping |
| Stack.KeptDropsNull | uspike/elf_loader.c:274-277 | the null entry is never pushed, so the reserved space is not used up |
| Stack.GuestReadsBack | uspike/elf_loader.c:246-282 | a guest walking memory from sp recovers argc, all argument and environment strings in order and exactly the kept entries |
| Stack.GuestReadsAux | uspike/elf_loader.c:255-282 | the guest reads exactly the known keys before the first zero, in order, and beside each what it is to tell: where the headers lie in memory, their size and number, the page size, the entry point, zero, the stack pointer |
| Stack.BottomIsHighest | uspike/elf_loader.c:233-248 | the stack pointer is the highest multiple of sixteen with room for the words and the unused copy of the vector |

## Left out

- Fusion.FusionIsSound: asks that LR, SC and fused accesses are aligned, that a lone SC holds a reservation on the machine that runs the original, and that a test register holds a value of the operand width whenever it matters; where the interpreter then differs from the ISA is `CasTurnIsExact` and `ScTurnIsExact`.
- Sites.SiteIsGoodIff: memory is usable from address 0 on, which a guest never has mapped; `GoodSite` names the two corner kinds of site whose verdict hangs on it.
- Interpreter.Core.Run: a trap of any kind ends the loop as a breakpoint does; host signals and `die` are not part of this model.
- FsmTable.Generator.Emit: keys are orders rather than their names (`NameIsUnique`); for zero ways, where the script stops at an empty name, a header alone is emitted here.
- LruCache.Cache.Lookup: the report cell is per cache here, where the source shares one static cell among caches.
- Packing.DecoderRoundTrip: says nothing of the registers a long immediate overlays, and of odd long immediates (`csrr*i`) only what `LongReads` says.
- Amo.AddsAreNeverLost: covers threads that only add to one word; other mixtures are covered by `RunIsAtomic`.
- HartCount.NothingIsLost: counts are unbounded integers; wrap-around at 64 bits is not modelled.
- Clone.ChildStartsRight: floating-point, vector and control state is one value, copied in one step.
- Clone.HandshakeFinishes: a scheduler that starves the parent or its child is outside the model.
- Pool.BlocksAreDisjoint: assumes both reads of an attempt agree, for the slack of 1 to 16 bytes; the general case is `FittingBlocksAreDisjoint` and `RunIsClearIffFits`.
- GdbPacket.Link.ReceivePacket: where the input ends, the source blocks; here the call reports it.
- GdbRegs.RcvHexToMemory: memory is taken as accessible up to some point from the address on, which is all the source can see of it; the commands `P`, `m`, `M`, `s`, `c` and `?` are left out.
- Perf.Counters.constructor: pointers the source leaves unset are zero here; the message is left out.
- Stack.Loader.InitializeStack: nothing is mapped below the stack segment here, and after a fault nothing is said of memory.
- Spike's `golden` semantics, floating point, vector and CSR instructions: a parameter of the machines, any function of instruction, hart, memory and outside input.
- The rest of the fast RV64I table: one-line cases.
- ELF file reading, symbols, shared-memory open and close, sockets, signals and host system calls: outside calls; futex wait and wake are single steps of `Clone`.
- The timing of fused instructions: the source makes no data-cache call for them.
- Option parsing, disassembly, status printing, the debug trace and the `erised` display: formatting.
