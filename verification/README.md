# CKB-VM interpreter: fusion, caches, paged memory and snapshots

A Dafny model of the Rust interpreter half of the vendored CKB-VM (`forks/ckb-vm-asm`): RV64 with macro-op fusion
at VERSION2, 64-bit registers. The interpreter makes something fast or compact four times over, and each time it
has to agree with something simple:

- **Fusion.** The decoder looks up to five instructions ahead and replaces them with one (`Fusion`, `Decoder`). One
  fused step is the steps it replaces (`FusionProofs`), and what fuses is what a list of assembly listings says
  (`FusionPatterns`); a whole run with fusion ends as the run without it (`FusedRun`), and the other way round but
  for the cycles saved (`ReflectedRun`, with the limit of that result in `StrayLanding`).
- **Caches.** The direct-mapped instruction cache (`Decode`, `Decoder`) and the 8192 trace slots (`Trace`) cannot be
  noticed. Both rest on code that cannot change: stores are kept off executable pages and freezing keeps later
  segments off (`CodeFreeze`, `KeepCode`).
- **Memory and snapshots.** A sparse page store and a flat buffer behind one guard (`Sparse`, `Flat`, `WXorX`,
  `Traffic`) agree with a value that holds bytes, flags and a reservation (`Pages`). A snapshot names clean pages by
  their place in a data source and copies dirty ones; the page map behind it stays true over any history
  (`Tracking`, `History`), and resuming rebuilds the memory (`Snapshot`, `Resume`, `SnapshotContext`), so that a
  run suspended at its cycle limit and resumed elsewhere ends as if never interrupted (`Suspension`). What a snapshot
  loses after a segment that failed halfway is in `PartialLoad`, what the guest and the map see of a data load in
  `DataLoads`. Programs get into memory through `Loading` and `LoadBinary`; counts, headers and marked pages are in
  `ProgramLaws`, reads and refusals in `MemoryLaws`.
- **Instructions.** What each opcode does to numbers in registers and bytes in memory (`InstructionLaws`), which the
  machine's in-place handlers (`Machine`) are proved to do.
- **Arithmetic and layout.** Carry chains, 128-bit products, total division (`Arith`, `FusedArith`), carry-less
  products (`Clmul`), reservations (`Atomics`), the offsets in instruction bits and why a pc stays even (`Immediates`,
  `EvenPc`), the argument stack and its reader (`Stack`), cycles as the measure that ends a run (`Run`, `Machine`).

What the source updates in place is a class here (`FlatMemory`, `SparseMemory`, `WXorXMemory`, `DefaultDecoder`,
`DefaultMachine`, `TraceMachine`, `Snapshot2Context`, `FlattenedArgsReader`); each method is proved against a
function of the old state, and the laws are proved about the functions.

Hypotheses that the laws carry, all of them visible in `requires` clauses:

- No SBB match whose first SLTU leaves the second source open: `rule_sbb` compares `rs2` with itself
  (`forks/ckb-vm-asm/src/decoder.rs:446`). `FusionProofs.SbbExact` shows the rule is right exactly then.
- One fused step needs LUI+JALR immediates that do not overflow 32 bits
  (`forks/ckb-vm-asm/src/decoder.rs:589-591`). Whole runs do not: a run that halts without fusion never
  executes such a pair. The converse asks for a memory of at most 0x7FFFF800 bytes, where such a jump finds nowhere
  to land (4 MB is the default), or for a program without such a pair; `StrayLanding` shows that it needs one of them.
- Instruction factories are any functions of bits and version; laws that need it ask for 20 high bits in LUI, 12
  signed bits in JALR, lengths of 2 or 4, branch and jump offsets taken from the bits as the source takes them
  (`Immediates`), and no fused opcode.
- System calls leave executable memory alone; for the comparison of fused and raw runs they also do not read the
  cycle counter, on which the two differ; for suspension they work on memory through its own calls and through the
  context, and leave the cycle limit to the machine. `Suspension.DataCallFits` is such a call.
- The run loops need every instruction to cost at least one cycle to end.
- The data source is stable: each answer is a piece of fixed content, and every non-empty piece inside it can be had.

Three things a reader of the source may not expect. A comment in `rule_adcs` gives both orders of the addition's
sources (`forks/ckb-vm-asm/src/decoder.rs:369-376`); the code sees the second only where the destination is one of
them (`FusionPatterns.OtherOrderStays`). A comment on the instruction cache speaks of a local region of 8192 bytes
(`forks/ckb-vm-asm/src/decoder.rs:106-111`); the slots repeat after 512 (`Decode.SlotsShared`). And a
segment that fails to load on a freezed page has already put its flags on the pages before it without marking them
dirty (`forks/ckb-vm-asm/src/memory/wxorx.rs:57-63`), and a snapshot taken then loses flags.
`PartialLoad.FailedLoadRoundTrip` says exactly when, and `PartialLoad.ForgottenFlags` shows a case.

## Model

| member | source | states |
|---|---|---|
| FusionProofs.FusedStep | forks/ckb-vm-asm/src/decoder.rs:139-858 | Whatever fused instruction the rules form at VERSION2 or later, executing it equals executing the 2, 3 or 5 raw instructions it replaces, in every register (aliases and x0 included) and pc, unless the match is one of the two that match too much |
| FusionProofs.SbbExact | forks/ckb-vm-asm/src/decoder.rs:429-517 | An SBB match executes as its five instructions on every state if and only if its first SLTU compares with the subtrahend, which line 446 does not check |
| FusionProofs.LooseSbbExample | forks/ckb-vm-asm/src/decoder.rs:429-517 | A five-instruction window that the decoder fuses although its borrow compares with x0, and a state in which the fused instruction and the five part ways |
| FusionProofs.FarJumpAbsExact | forks/ckb-vm-asm/src/decoder.rs:570-617 | A fused LUI+JALR goes where the pair goes if and only if the two immediates do not overflow 32 bits |
| FusionProofs.WrappingJumpExample | forks/ckb-vm-asm/src/decoder.rs:570-617 | LUI -0x80000000 with JALR -2 is fused, and from every state the fused jump goes to 0x7FFFFFFE and the pair to 0xFFFFFFFF7FFFFFFE |
| FusionProofs.AdcMeans | forks/ckb-vm-asm/src/decoder.rs:144-226 | The five-instruction add-with-carry pattern and ADC leave the same registers |
| FusionProofs.Add3Means | forks/ckb-vm-asm/src/decoder.rs:227-364 | Each of the three add-compare-add patterns is its ADD3A, ADD3B or ADD3C |
| FusionProofs.AdcsMeans | forks/ckb-vm-asm/src/decoder.rs:365-427 | Whenever add-then-compare forms ADCS, the pair and ADCS leave the same registers |
| FusionProofs.SbbsMeans | forks/ckb-vm-asm/src/decoder.rs:518-569 | Subtract-then-compare is SBBS, under its aliasing conditions |
| FusionProofs.FarJumpRelMeans | forks/ckb-vm-asm/src/decoder.rs:618-685 | AUIPC+JALR through RA is one relative far jump: same target, same link |
| FusionProofs.LoadImmMeans | forks/ckb-vm-asm/src/decoder.rs:618-685 | AUIPC+ADDI is one load of pc plus both immediates, x0 as destination included |
| FusionProofs.LuiAddiwMeans | forks/ckb-vm-asm/src/decoder.rs:570-617 | LUI+ADDIW is one load of the wrapped 32-bit sum, sign-extended |
| FusionProofs.WideMeans | forks/ckb-vm-asm/src/decoder.rs:686-858 | MULH, MULHU, MULHSU with MUL, DIV with REM and DIVU with REMU are one wide instruction, even when the second overwrites a source |
| FusionPatterns.FuseExact | forks/ckb-vm-asm/src/decoder.rs:139-858 | A window fuses if and only if one of the listings fits, each a short assembly text with registers for names, and then into the instruction and the length that the listing says: five instructions before three before two, and every other window stays as it is |
| FusionPatterns.HoldsExactly | forks/ckb-vm-asm/src/decoder.rs:139-147 | The window is what memory holds from pc on: five instructions, or as many as decode |
| FusionPatterns.MopExact | forks/ckb-vm-asm/src/decoder.rs:876-882 | The decoder with fusion gives what the listings form of the instructions in memory, and without it the first of them |
| FusionPatterns.CarryFuses | forks/ckb-vm-asm/src/decoder.rs:384-427 | a += b with its carry fuses into ADCS, whichever way round the sources of the addition stand |
| FusionPatterns.OtherOrderStays | forks/ckb-vm-asm/src/decoder.rs:369-386 | add r0, r2, r1 with sltu r3, r0, r1 does not fuse for three different registers, although the comment names that order |
| FusedRun.FusionPreservesRuns | forks/ckb-vm-asm/src/machine/mod.rs:666-682 | Stuttering simulation over whole runs, for any cost under which fusion pays: a run that halts without fusion halts with it in no more steps, with the same exit code, registers, pc and memory and no more cycles |
| FusedRun.EstimatedRunsAgree | forks/ckb-vm-asm/src/cost_model.rs:15-93 | The same for the estimated cycle costs, from one start state |
| ReflectedRun.FusionReflectsRuns | forks/ckb-vm-asm/src/machine/mod.rs:666-682 | The converse: a run that halts with fusion halts without it in the same way, unless it runs out of the cycles that fusion saves; besides the SBB hypothesis, memory ends at or below 0x7FFFF800 or no LUI+JALR pair of the program has immediates that overflow |
| ReflectedRun.StrayJumpDies | forks/ckb-vm-asm/src/decoder.rs:570-617 | In a memory of at most 0x7FFFF800 bytes a fused run that takes an overflowing LUI+JALR never halts |
| StrayLanding.StrayProgramHalts | forks/ckb-vm-asm/src/decoder.rs:570-617 | In a memory of 2^31 bytes the converse fails: a program that meets every other hypothesis exits with fusion and jumps out of memory without it |
| ReflectedRun.GroupForward | forks/ckb-vm-asm/src/machine/mod.rs:762-771 | Without fusion a fusable group runs through with its whole cost paid, or runs out of cycles |
| ReflectedRun.RunBoth | forks/ckb-vm-asm/src/machine/mod.rs:666-682 | Both directions for the two machines and their loops, in memory of that size or without such pairs: the fusing one returns what the plain one returns, and the plain one what the fusing one returns unless it lacks the cycles |
| FusedRun.EstimatePays | forks/ckb-vm-asm/src/cost_model.rs:15-93 | No fused instruction is estimated dearer than the instructions it replaces together |
| FusedRun.ConstantPays | forks/ckb-vm-asm/src/cost_model.rs:9-11 | Nor dearer when every instruction costs one cycle |
| FusedRun.RawGroup | forks/ckb-vm-asm/src/machine/mod.rs:762-771 | A raw run that halts has executed and paid for every instruction of a fusable group, and is then where the group alone leads |
| FusedRun.NoWrappingFarJump | forks/ckb-vm-asm/src/decoder.rs:589-591 | A run that halts never meets a LUI+JALR pair whose immediates overflow: the pair jumps beyond every memory |
| Decode.CacheIsInvisible | forks/ckb-vm-asm/src/decoder.rs:97-130 | Over any interleaving of fetches, lawful memory calls and cache resets, the cached decoder answers as one that never caches, whatever slots collide |
| Decode.EmptyIsTrusted | forks/ckb-vm-asm/src/decoder.rs:884-887 | The filler key of an empty cache is never hit: every answer is the uncached one |
| Decode.TrustKept | forks/ckb-vm-asm/src/decoder.rs:97-130 | A filled cache stays right under anything that keeps the code |
| Decode.FetchFollowsRule | forks/ckb-vm-asm/src/decoder.rs:79-95 | At every even address the page-aware fetch equals reading 16 bits, then 16 more if the low two bits are 11 (section 1.5 of the RISC-V Unprivileged ISA 20191213), errors included |
| MemoryLaws.InstructionFetched | forks/ckb-vm-asm/src/decoder.rs:79-95 | At an even address the bits are the two bytes there, or the four if the low two bits are 11, on one page or two |
| Decode.DecodeRawExact | forks/ckb-vm-asm/src/decoder.rs:97-130 | An address in memory decodes to what the first factory that knows its bits makes of them with the decoder's version, and to an error with pc and bits if none does; outside memory and on a failed fetch the error is theirs |
| Decode.CacheFills | forks/ckb-vm-asm/src/decoder.rs:97-130 | A decoded instruction stays in its slot and hits next time; a failure leaves the cache alone, and no other slot changes |
| Decode.SlotsShared | forks/ckb-vm-asm/src/decoder.rs:103-114 | Two instructions share a slot exactly when bits 1-8 and 13-16 of their addresses agree, so local code spans 512 bytes, not the 8192 of the comment |
| Decoder.DefaultDecoder.DecodeRaw | forks/ckb-vm-asm/src/decoder.rs:97-130 | Answers as decoding without a cache does, fills one slot on success, and keeps every slot true |
| Decoder.DefaultDecoder.DecodeMop | forks/ckb-vm-asm/src/decoder.rs:139-858 | The rules, reading ahead through the cache and giving up at any failed lookahead, choose what the patterns over the uncached instruction stream choose, which FusionPatterns.MopExact gives by listings; a failed lookahead never turns a decodable head into an error |
| Decoder.DefaultDecoder.Decode | forks/ckb-vm-asm/src/decoder.rs:876-882 | With or without fusion, the answer does not depend on the cache |
| Decoder.DefaultDecoder.ResetInstructionsCache | forks/ckb-vm-asm/src/decoder.rs:884-887 | Leaves an empty cache, which every memory satisfies |
| EvenPc.StepKeepsEven | forks/ckb-vm-asm/src/machine/mod.rs:762-771 | If every branch and direct jump takes its offset from the bits by the formulas of the four encodings, every step, fused or failing, keeps an even pc even |
| Immediates.BTypeOffsets | forks/ckb-vm-asm/src/instructions/utils.rs:7-52 | Some word has a given branch offset, put together by shifts and ors as in the source, if and only if the offset is even and fits 13 bits signed |
| Immediates.JTypeOffsets | forks/ckb-vm-asm/src/instructions/utils.rs:54-60 | The same for direct jumps and 21 bits |
| Immediates.CompressedBOffsets | forks/ckb-vm-asm/src/instructions/rvc.rs:82-90 | The same for compressed branches and 9 bits |
| Immediates.CompressedJOffsets | forks/ckb-vm-asm/src/instructions/rvc.rs:36-46 | The same for compressed jumps and 12 bits |
| Immediates.CompressedJValue | forks/ckb-vm-asm/src/instructions/rvc.rs:36-46 | The eight fields ored together are one signed number: fields at weights 2, 16, 32, 64, 128, 256 and 1024, and the sign at -2048 |
| EvenPc.RunFetchesByTheRule | forks/ckb-vm-asm/src/decoder.rs:79-95 | Every fetch of a run from an even pc, the lookahead fetches of the fusing decoder included, follows the two-halves rule |
| Run.StepStaysWithinLimit | forks/ckb-vm-asm/src/machine/mod.rs:95-105 | After every successful step, processed system calls included, the cycles are within the limit, the limit is unchanged, and the cost was paid |
| Run.StepOutcome | forks/ckb-vm-asm/src/machine/mod.rs:762-771 | A step that cannot decode or cannot pay does nothing, overflow of the counter reported before excess of the limit; otherwise the instruction executes with its cost on the counter |
| Run.StepCost | forks/ckb-vm-asm/src/machine/mod.rs:762-771 | A successful step that is no system call costs exactly its instruction |
| Run.RunEnds | forks/ckb-vm-asm/src/machine/mod.rs:666-682 | With costs of at least 1, no run makes more steps than it has cycles left |
| Machine.DefaultMachine.RunWithDecoder | forks/ckb-vm-asm/src/machine/mod.rs:666-682 | The loop ends, and its result and final state are those of the run function after a number of steps that the cycle limit bounds |
| Machine.DefaultMachine.Step | forks/ckb-vm-asm/src/machine/mod.rs:762-771 | Decoding through the cache, charging and executing in place is one step of the run function; the decoder stays right about memory |
| Machine.DefaultMachine.Execute | forks/ckb-vm-asm/src/instructions/execute.rs:1569-1578 | The next pc is prepared before and committed after the handler, error or not; the outcome is the one InstructionLaws describes opcode by opcode |
| InstructionLaws.BranchLaw | forks/ckb-vm-asm/src/instructions/execute.rs:621-703 | From every state each of the six branches goes to pc plus immediate exactly when its comparison of the two numbers holds, signed or unsigned as the opcode says, to the next instruction otherwise, and changes nothing else |
| InstructionLaws.JumpLaw | forks/ckb-vm-asm/src/instructions/execute.rs:546-559 | Target and link of JAL, JALR and the far jumps, the target taken before the link is written and made even where the source does so |
| InstructionLaws.LoadLaw | forks/ckb-vm-asm/src/instructions/common.rs:100-199 | A load goes through exactly in bounds, and leaves the number that its 1, 2, 4 or 8 bytes stand for, extended with or without sign; a refused one reports where it left memory and changes nothing |
| InstructionLaws.StoreLaw | forks/ckb-vm-asm/src/instructions/common.rs:203-250 | A store goes through exactly in bounds and where no touched page is executable, writes the low bytes of the register, marks its pages dirty and changes nothing else; a refused one reports the bound or the first executable page |
| InstructionLaws.SumLaw | forks/ckb-vm-asm/src/instructions/common.rs:13-69 | Sums, differences, comparison and constants as numbers modulo 2^64, and other register operations as given |
| InstructionLaws.AddWordLaw | forks/ckb-vm-asm/src/instructions/common.rs:71-80 | ADDIW is the sum modulo 2^32, read as two's complement |
| InstructionLaws.OrLaw | forks/ckb-vm-asm/src/instructions/common.rs:278-288 | OR is bit by bit |
| InstructionLaws.ProductLaw | forks/ckb-vm-asm/src/instructions/execute.rs:748-793 | MUL, the three MULH and the wide forms leave the words of the exact 128-bit product, which determines both |
| InstructionLaws.DivisionOnRegisters | forks/ckb-vm-asm/src/instructions/execute.rs:795-862 | DIV, DIVU, REM, REMU and the wide forms leave a quotient and a remainder that zero divisors, overflow and truncation determine |
| InstructionLaws.AtomicWidths | forks/ckb-vm-asm/src/instructions/execute.rs:248-281 | Every atomic opcode is the operation of its width that Atomics is about |
| InstructionLaws.ExitLaw | forks/ckb-vm-asm/src/machine/mod.rs:598-620 | Call 93 stops the machine with the low byte of a0 as a signed number |
| InstructionLaws.CallLaw | forks/ckb-vm-asm/src/machine/mod.rs:598-620 | The first handler that knows the number decides; its cycles are added, overflow of the counter before excess of the limit |
| InstructionLaws.UnknownCallLaw | forks/ckb-vm-asm/src/machine/mod.rs:598-620 | A call nobody knows fails with its number |
| InstructionLaws.StillLaw | forks/ckb-vm-asm/src/instructions/execute.rs:729-740 | Fences and breakpoints do nothing; an invalid opcode fails with its number |
| InstructionLaws.EstimateLaw | forks/ckb-vm-asm/src/cost_model.rs:15-93 | Which opcodes cost 500, 32, 5, 4, 3 and 2 cycles; all others cost 1 |
| Machine.DefaultMachine.AddCycles | forks/ckb-vm-asm/src/machine/mod.rs:95-105 | Overflow is reported before excess, and neither changes the counter |
| Machine.DefaultMachine.Ecall | forks/ckb-vm-asm/src/machine/mod.rs:598-620 | Exit stops the machine with the low signed byte of a0; otherwise the first handler that processes the call decides; a failing one may leave registers and memory changed; unprocessed calls fail |
| Machine.DefaultMachine.HandleAdc | forks/ckb-vm-asm/src/instructions/execute.rs:1369-1392 | Five in-place updates, each reading what the last left, are the register function of ADC |
| Machine.DefaultMachine.HandleSbb | forks/ckb-vm-asm/src/instructions/execute.rs:1394-1417 | The same for SBB |
| Machine.DefaultMachine.HandleWide | forks/ckb-vm-asm/src/instructions/execute.rs:1285-1338 | Both halves are computed from the old sources before either is written |
| Machine.DefaultMachine.HandleStoreConditional | forks/ckb-vm-asm/src/instructions/execute.rs:257-270 | The in-place handler is the function that Atomics.ConditionalLaw is about |
| Machine.DefaultMachine.HandleAtomic | forks/ckb-vm-asm/src/instructions/execute.rs:272-281 | The in-place handler, which writes the destination before it stores, is the function that Atomics.UpdateLaw is about |
| Atomics.ReservedLaw | forks/ckb-vm-asm/src/instructions/execute.rs:248-255 | Load-reserved remembers the address exactly when the load is in bounds, and sign-extends the word into rd |
| Atomics.ConditionalLaw | forks/ckb-vm-asm/src/instructions/execute.rs:257-270 | Succeeds exactly where a store would. On success the reservation is dropped, rd is 0 exactly if it was held, and the word is stored if it was held and no byte changes otherwise. On failure registers, memory and reservation are as before |
| Atomics.UpdateLaw | forks/ckb-vm-asm/src/instructions/execute.rs:272-281 | rd holds the sign-extended old word even if the store fails; on success the new word, cut to its width, is all that changed; the reservation is untouched |
| Atomics.ReservationIsUsedOnce | forks/ckb-vm-asm/src/instructions/execute.rs:248-270 | After a load-reserved the first store-conditional to its address stores, and an immediate second one changes no byte |
| Machine.DefaultMachine.HandleJump | forks/ckb-vm-asm/src/instructions/execute.rs:546-559 | The target is taken from the registers before the link is written to them |
| KeepCode.ExecuteKeepsCode | forks/ckb-vm-asm/src/instructions/execute.rs:1569-1578 | No instruction changes a byte of executable memory or makes other bytes executable |
| Trace.TraceMachine.RunWithDecoder | forks/ckb-vm-asm/src/machine/trace.rs:131-187 | A trace run that returns an exit code leaves exactly the state the stepping run halts in; one that fails stops with the error and in the state of the stepping run, or names an instruction ahead that does not decode, and then the stepping run comes through that very state and goes on to fail as well |
| Trace.ExceedsAlike | forks/ckb-vm-asm/src/machine/trace.rs:131-187 | A trace run that exceeds its cycles stops in exactly the state where the stepping run does |
| Trace.RunBoth | forks/ckb-vm-asm/src/machine/trace.rs:131-187 | One machine returns an exit code exactly when the other does, and then the same code, registers, memory, pc and cycles; where the traced one exceeds its cycles the other does so in the same state |
| Trace.TraceMachine.Fill | forks/ckb-vm-asm/src/machine/trace.rs:156-174 | A filled slot holds the straight-line block at its address with each instruction's own handler, cut only at a block end or after 16 instructions; a failure names the instruction that did not decode |
| Trace.TraceMachine.Replay | forks/ckb-vm-asm/src/machine/trace.rs:175-184 | Replaying a slot is stepping, instruction by instruction |
| Trace.GoesOn | forks/ckb-vm-asm/src/instructions/mod.rs:411-419 | An instruction that is not a block end goes on to the next one and does not stop the machine |
| Trace.BlockEnds | forks/ckb-vm-asm/src/instructions/mod.rs:411-419 | Exactly AUIPC, branches, jumps, far jumps, calls, breakpoints and fences end a block |
| Trace.StuckAhead | forks/ckb-vm-asm/src/machine/trace.rs:160-170 | Where decoding a block ahead fails, stepping fails too |
| Trace.BlockKept | forks/ckb-vm-asm/src/machine/trace.rs:148-156 | A slot stays true while the code does |
| Trace.SlotsApart | forks/ckb-vm-asm/src/machine/trace.rs:44-47 | Code words less than 32 KB apart have traces of their own |
| Traffic.ServeBoth | forks/ckb-vm-asm/src/memory/wxorx.rs:19-161 | Sparse and flat memories behind the guard end with the same contents over any sequence of calls, and give the same replies but for an out-of-bound load, where the sparse one names the first page it could not reach |
| Traffic.Serve | forks/ckb-vm-asm/src/memory/wxorx.rs:19-161 | Every call on either backend does what it does to the flat value, and its reply is determined by that value |
| Sparse.SparseMemory.FetchPage | forks/ckb-vm-asm/src/memory/sparse.rs:27-39 | Allocating changes no byte; slots stay one to a page and below the reserved number |
| Sparse.SparseMemory.Load | forks/ckb-vm-asm/src/memory/sparse.rs:41-67 | Little-endian words across a page boundary; off the end, the first page that could not be reached is reported |
| Sparse.SparseMemory.StoreBytes | forks/ckb-vm-asm/src/memory/sparse.rs:164-184 | The page walk is one write of the whole slice with its pages marked dirty; off the end, what landed stays, and the first page outside is reported |
| Sparse.SparseMemory.StoreByte | forks/ckb-vm-asm/src/memory/sparse.rs:186-204 | The page walk is one fill, with the same failures |
| Sparse.SparseMemory.LoadBytes | forks/ckb-vm-asm/src/memory/sparse.rs:206-226 | The page walk reads the whole slice, or reports as the flat memory does |
| Sparse.FreeSlot | forks/ckb-vm-asm/src/memory/sparse.rs:27-39 | While a page is unallocated, fewer pages are stored than exist |
| Sparse.SlotLasts | forks/ckb-vm-asm/src/memory/sparse.rs:27-39 | A new page keeps a slot of its own exactly while fewer than 65535 are stored; the next one would take the reserved number |
| Flat.FlatMemory.StoreBytes | forks/ckb-vm-asm/src/memory/flat.rs:191-202 | In-place write and dirty marking |
| WXorX.WXorXMemory.InitPages | forks/ckb-vm-asm/src/memory/wxorx.rs:28-67 | Argument checks, flag loop stopped by a freezed page, fill: the state left by every failure included |
| WXorX.WXorXMemory.StoreBytes | forks/ckb-vm-asm/src/memory/wxorx.rs:143-151 | Only where no touched page is executable |
| WXorX.WXorXMemory.ExecuteLoad | forks/ckb-vm-asm/src/memory/wxorx.rs:85-97 | Only where every touched page is executable |
| WXorX.Backend.FillPageData | forks/ckb-vm-asm/src/memory/mod.rs:78-102 | Padding, source prefix and zeros written in turn |
| Pages.CheckNoOverflow | forks/ckb-vm-asm/src/memory/mod.rs:104-114 | Passes exactly on ranges inside memory |
| Pages.CheckPermission | forks/ckb-vm-asm/src/memory/mod.rs:125-137 | Passes exactly when every page has the wanted executable bit |
| PageLemmas.RoundUpBits | forks/ckb-vm-asm/src/bits.rs:2-6 | The bit expression rounds up to a page, wrapping |
| Loading.StoreThenLoad | forks/ckb-vm-asm/src/memory/flat.rs:137-189 | A stored word, cut to its width, is loaded back, and loads apart from it are unchanged, errors included |
| MemoryLaws.StoreThenLoadBytes | forks/ckb-vm-asm/src/memory/flat.rs:191-224 | Stored bytes are read back |
| MemoryLaws.BytesRead | forks/ckb-vm-asm/src/memory/flat.rs:215-224 | A read of many bytes returns those of the range, or where it left memory |
| MemoryLaws.CodeRead | forks/ckb-vm-asm/src/memory/wxorx.rs:85-97 | A fetch reads exactly where every touched page is executable, and else reports the bound or the first page that is not |
| MemoryLaws.SegmentRefused | forks/ckb-vm-asm/src/memory/wxorx.rs:28-67 | What a refused segment reports: address, size, bounds, padding, then the first freezed page |
| MemoryLaws.FlagCalls | forks/ckb-vm-asm/src/memory/flat.rs:61-95 | Flags are read, added to and taken from one page, bit by bit |
| CodeFreeze.ConvertFlags | forks/ckb-vm-asm/src/elf.rs:15-32 | Succeeds exactly on readable segments that are not both writable and executable; all but writable ones come out freezed, and those too where that is allowed; the error says which |
| CodeFreeze.CodeIsImmutable | forks/ckb-vm-asm/src/memory/wxorx.rs:28-161 | With flags from convert_flags, every executable page is freezed in every reachable state, and no store, fill or later segment changes a byte that was executable |
| CodeFreeze.InitPagesKeepsCodeExactly | forks/ckb-vm-asm/src/memory/wxorx.rs:28-67 | Over any memory, freezed or not, loading a segment keeps the code if and only if the segment is refused or brings the bytes that are there |
| CodeFreeze.UnfreezedCodeIsOverwritten | forks/ckb-vm-asm/src/memory/wxorx.rs:28-67 | In every memory that has a non-zero byte on an executable page that is not freezed, a segment of zeros over that page goes through and overwrites it |
| Loading.InitPagesSucceeds | forks/ckb-vm-asm/src/memory/wxorx.rs:28-67 | Succeeds exactly on an aligned range inside memory with no freezed page and padding that fits |
| Loading.InitPagesExact | forks/ckb-vm-asm/src/memory/wxorx.rs:28-67 | Then the range holds padding, source prefix and zeros, its pages are dirty and carry the flags, and all else is unchanged |
| LoadBinary.LoadBinary | forks/ckb-vm-asm/src/machine/mod.rs:136-174 | Loads action by action and sets pc only on request and success; the count it returns is ProgramLaws.CountExact's |
| ProgramLaws.CountExact | forks/ckb-vm-asm/src/machine/mod.rs:136-174 | Succeeds exactly when every action loads and the file bytes of all actions together stay below 2^64, and returns that sum |
| ProgramLaws.CountFails | forks/ckb-vm-asm/src/machine/mod.rs:160-164 | Fails for the count exactly when every action so far loads and the sum first reaches 2^64 |
| ProgramLaws.HeaderIsTaken | forks/ckb-vm-asm/src/elf.rs:179-209 | A header is taken exactly when its slice lies within the file and its permissions convert, and the flags are the converted ones |
| LoadBinary.LoadExact | forks/ckb-vm-asm/src/machine/mod.rs:136-174 | After a successful load on disjoint pages, every page of every action holds exactly its part of that segment, dirty and flagged, and every other page is untouched |
| LoadBinary.LoadedCodeIsFreezed | forks/ckb-vm-asm/src/machine/mod.rs:136-174 | A program loaded with converted flags leaves every executable page freezed |
| LoadBinary.ActionCoversHeader | forks/ckb-vm-asm/src/elf.rs:179-209 | The action has the header's slice, whole pages and padding up to the address; it covers the header with the fewest whole pages if and only if padding and size reach no further than the last page of the address space, where the source wraps |
| SnapshotContext.SuspendAndResume | forks/ckb-vm-asm/src/snapshot2.rs:52-223 | Snapshot, then resume on a fresh machine: same bytes, flags, registers, pc, cycles and reservation; the second snapshot equals the first, merged runs included |
| Suspension.RunSuspendRun | forks/ckb-vm-asm/tests/test_resume2.rs:203-223 | Run until the cycle limit stops the machine, snapshot, resume on a new machine, raise the limit, run on: result, registers, memory, pc and cycles are those of the run that was never interrupted; system calls may load data through the context and change its page map on the way |
| Suspension.PassesLimit | forks/ckb-vm-asm/src/machine/mod.rs:95-105 | Where a run stops at its cycle limit, the same run with a higher limit passes by, in the state where the other stopped |
| Suspension.RunKeepsGood | forks/ckb-vm-asm/src/snapshot2.rs:117-134 | At every point of a run, system calls that load, track and untrack included, the page map is right about the memory |
| Suspension.RunTracked | forks/ckb-vm-asm/src/snapshot2.rs:117-134 | The run loop with a context beside it: result and state are those of the run, the page map is the one its calls leave, and it is right about the memory |
| Suspension.DoAllBlind | forks/ckb-vm-asm/src/snapshot2.rs:117-134 | What tracking, untracking and loading do to the memory does not depend on the page map |
| Suspension.DataCallFits | forks/ckb-vm-asm/src/snapshot2.rs:117-134 | A system call that loads data through the context keeps the code, does only fine acts and leaves the cycle limit alone |
| LoadBinary.SnapshotOfProgram | forks/ckb-vm-asm/src/snapshot2.rs:148-159 | New machine, program loaded on disjoint pages and marked, any history of memory calls and data loads: the snapshot resumes to the same memory |
| Resume.ResumeRebuilds | forks/ckb-vm-asm/src/snapshot2.rs:52-105 | A snapshot of a memory whose page map is right rebuilds every byte, flag and the reservation, and the clean part of the map |
| Resume.SnapshotIsStable | forks/ckb-vm-asm/src/snapshot2.rs:162-223 | Dirty and source runs of the resumed pair are the ones resumed from |
| Snapshot.DirtyRunsTrue | forks/ckb-vm-asm/src/snapshot2.rs:163-178 | The dirty runs are the dirty pages, each once, in order, with bytes and flags |
| Snapshot.DirtyRunsMerged | forks/ckb-vm-asm/src/snapshot2.rs:163-178 | No two neighbouring dirty runs could be one |
| Snapshot.SourceRunsTrue | forks/ckb-vm-asm/src/snapshot2.rs:179-206 | The source runs are the tracked pages that are still clean, each once, with the place the map names |
| Snapshot.SourceRunsMerged | forks/ckb-vm-asm/src/snapshot2.rs:179-206 | No two neighbouring source runs could be one |
| History.HistoryKeepsGood | forks/ckb-vm-asm/src/snapshot2.rs:117-134 | After any history every page is dirty, or backed by the data source as the map says, or untouched |
| History.HalfLoaded | forks/ckb-vm-asm/src/memory/wxorx.rs:57-63 | The flags a half-loaded segment puts on pages leave the page map right exactly when the pages were dirty, or the flags say so or were there already |
| PartialLoad.SnapshotForgets | forks/ckb-vm-asm/src/snapshot2.rs:162-223 | A snapshot taken after flags were put on clean pages resumes, and gives back everything but those flags |
| PartialLoad.FailedLoadRoundTrip | forks/ckb-vm-asm/src/memory/wxorx.rs:57-63 | After a failed init_pages the snapshot gives back the memory if and only if the arguments were refused, or the flags say DIRTY, or every page before the freezed one was dirty or had the flags |
| PartialLoad.ForgottenFlags | forks/ckb-vm-asm/src/memory/wxorx.rs:57-63 | A memory of two pages and a segment for which it does not |
| SnapshotContext.Snapshot2Context.StoreBytes | forks/ckb-vm-asm/src/snapshot2.rs:117-134 | Report, untrack, write, track, as the function that DataLoads.StoreBytesLaw is about; every failure in between keeps the map right |
| DataLoads.StoreBytesLaw | forks/ckb-vm-asm/src/snapshot2.rs:117-134 | Succeeds exactly when the source answers and both writes may go ahead; then the guest reads the full length at size_addr unless the data lies over it, the data is at addr, every other byte is as before, whole pages of the data are clean and on the map with their place in the source, other touched pages are dirty and off it, and the caller gets both lengths. A failure has written at most the length |
| SnapshotContext.Snapshot2Context.TrackPages | forks/ckb-vm-asm/src/snapshot2.rs:242-267 | Tracks the whole pages of the range, and only those |
| DataLoads.TrackPagesExact | forks/ckb-vm-asm/src/snapshot2.rs:242-267 | A range in memory, aligned or not, enters exactly the pages wholly within it, each with its place in the source and its flags, and takes their dirty bit away |
| SnapshotContext.Snapshot2Context.UntrackPages | forks/ckb-vm-asm/src/snapshot2.rs:269-284 | Marks dirty before removing, page by page |
| DataLoads.UntrackPagesExact | forks/ckb-vm-asm/src/snapshot2.rs:269-284 | Every page the range touches becomes dirty and leaves the map, and no other |
| SnapshotContext.Snapshot2Context.MakeSnapshot | forks/ckb-vm-asm/src/snapshot2.rs:162-223 | The machine's registers and counters with both lists of runs |
| SnapshotContext.Snapshot2Context.Resume | forks/ckb-vm-asm/src/snapshot2.rs:52-105 | Refuses another version untouched; otherwise replays runs in order and stops at the first failure |
| Resume.DirtyInOrder | forks/ckb-vm-asm/src/snapshot2.rs:85-103 | Dirty runs are replayed in order, and the first failure ends it |
| Resume.SourcesInOrder | forks/ckb-vm-asm/src/snapshot2.rs:60-84 | So are source runs |
| Resume.SourceRunRefused | forks/ckb-vm-asm/src/snapshot2.rs:60-84 | An unaligned address is refused before the source is asked, a missing piece right after; neither changes anything |
| Resume.UnalignedRunRefused | forks/ckb-vm-asm/src/snapshot2.rs:60-103 | Content at an unaligned address or of unaligned length is refused with nothing changed |
| LoadBinary.MarkProgram | forks/ckb-vm-asm/src/snapshot2.rs:148-159 | Marks every action in turn |
| ProgramLaws.MarkExact | forks/ckb-vm-asm/src/snapshot2.rs:148-159 | The pages wholly within some segment's file bytes, and only those, are on the map, each with its place in the source, and no longer dirty |
| LoadBinary.MarkKeepsGood | forks/ckb-vm-asm/src/snapshot2.rs:225-238 | Sound while the marked pages still hold the program's bytes |
| Stack.InitializeStack | forks/ckb-vm-asm/src/machine/mod.rs:186-273 | Succeeds if and only if every argument could be read and the layout, at a place computed from their lengths, fits above the stack's start on pages in memory that are not executable. Then sp is exactly that place, 16-byte aligned and within the stack, the strings lie end to end below the top, argc, argv and a null argv[argc] are in place with every string behind its pointer, the return value is top minus sp, and nothing outside is written |
| Stack.ReadArgs | forks/ckb-vm-asm/src/machine/mod.rs:881-908 | Reading from sp gives every argument up to its first NUL, so exactly the arguments if and only if none contains one |
| Stack.ArgsRoundTrip | forks/ckb-vm-asm/src/machine/mod.rs:186-273 | What is pushed is read back in order |
| Stack.LoadCString | forks/ckb-vm-asm/src/memory/mod.rs:155-170 | The bytes up to the first zero, or the first failing load |
| Stack.FlattenedArgsReader.Next | forks/ckb-vm-asm/src/machine/mod.rs:884-907 | Ends at argc; an error does not advance the reader |
| FusedArith.AdcExact | forks/ckb-vm-asm/src/instructions/execute.rs:1369-1392 | With a carry-in of 0 or 1, sum and carry-out are exact |
| FusedArith.AdcLosesCarry | forks/ckb-vm-asm/src/instructions/execute.rs:1369-1392 | For any carry-in, ADC is exact if and only if the three operands sum below 2^65 |
| FusedArith.SbbExact | forks/ckb-vm-asm/src/instructions/execute.rs:1394-1417 | With a borrow-in of 0 or 1, difference and borrow-out are exact |
| FusedArith.AddChain | forks/ckb-vm-asm/src/instructions/execute.rs:1369-1392 | Chained over limbs of any number, ADC adds big integers |
| FusedArith.SubChain | forks/ckb-vm-asm/src/instructions/execute.rs:1394-1417 | Chained over limbs of any number, SBB subtracts big integers |
| FusedArith.WideMultiplications | forks/ckb-vm-asm/src/instructions/execute.rs:1285-1316 | rd and rs3 hold the exact 128-bit product, signed, unsigned or mixed, aliases included (section 7.1 of the RISC-V Unprivileged ISA 20191213) |
| FusedArith.WideDivisions | forks/ckb-vm-asm/src/instructions/execute.rs:1318-1338 | Quotient times divisor plus remainder is the dividend modulo 2^64 for every input, and both are the ones that zero divisors, overflow and truncation determine |
| Arith.WideMulSigned | forks/ckb-vm-asm/src/instructions/register.rs:504-509 | High and low word are the exact signed product |
| Arith.WideMulUnsigned | forks/ckb-vm-asm/src/instructions/register.rs:511-516 | High and low word are the exact unsigned product |
| Arith.WideMulSignedUnsigned | forks/ckb-vm-asm/src/instructions/register.rs:518-523 | High and low word are the exact mixed product |
| Arith.DivisionLaw | forks/ckb-vm-asm/src/instructions/register.rs:465-502 | The division law modulo 2^64 for every input; the values by zero and on overflow are in Arith.UnsignedQuotient and Arith.SignedQuotient (section 7.2 of the RISC-V Unprivileged ISA 20191213) |
| Arith.UnsignedQuotient | forks/ckb-vm-asm/src/instructions/register.rs:465-479 | By zero the quotient is 2^64-1 and the remainder the dividend; otherwise they restore the dividend exactly with a remainder below the divisor |
| Arith.SignedQuotient | forks/ckb-vm-asm/src/instructions/register.rs:481-502 | The same by zero; -2^63 by -1 gives 2^63 and 0; otherwise the quotient is truncated and the remainder has the dividend's sign |
| Arith.QuotientUnique | forks/ckb-vm-asm/src/instructions/register.rs:465-502 | No other quotient or remainder is like that |
| Arith.DivisionIsTruncating | forks/ckb-vm-asm/src/instructions/register.rs:481-502 | Away from those, quotient and remainder are the truncating ones, unwrapped |
| Clmul.CarrylessMul | forks/ckb-vm-asm/src/instructions/register.rs:557-565 | The loop returns bits 63..0 of the carry-less product |
| Clmul.CarrylessMulHigh | forks/ckb-vm-asm/src/instructions/register.rs:567-575 | The loop, starting at 1, returns bits 127..64 |
| Clmul.CarrylessMulReversed | forks/ckb-vm-asm/src/instructions/register.rs:577-585 | The loop returns bits 126..63 |
| Clmul.Windows | forks/ckb-vm-asm/src/instructions/register.rs:557-585 | The three are windows on one product of at most 127 bits; the reversed one is (high << 1) | (low >> 63), per the Zbc section of RISC-V Bitmanip 1.0.0 |

## Left out

- Machine memory: `DefaultMachine` holds the guarded memory's value, not a `WXorXMemory` object; `Traffic.Serve` is
  the link from either backend to that value. An out-of-bound load on the sparse backend reports another address
  (`Traffic.SparseReply`).
- Page flags: three named bits, with WRITABLE as the absence of EXECUTABLE; the byte's other bits are not modelled.
- Sparse.SparseMemory.FetchPage: at most 65535 pages, because beyond that the source's 16-bit slot numbers clash
  with the reserved one; `Sparse.SlotLasts` has the exact bound. Slot numbers of the sparse backend are not part of
  what is compared.
- ALU and AMO operations that take no part in fusion, and the per-opcode decoding tables, are parameters.
- Trace.TraceMachine.RunWithDecoder: VERSION2 and later only, because before that a slot is matched on 32 bits of pc.
- Stack.InitializeStack: VERSION1 and later on 64 bits only; VERSION0 pushes 32-bit values without alignment. Which
  error a failing call returns, and what it has written by then, is not stated.
- Machine.DefaultMachine.Ecall: a system call may change registers and memory and add cycles, and the first error
  ends the step with the registers and memory the call left; it cannot move pc, reset the machine, keep state of its
  own between calls or, when it fails, have added cycles.
- Suspension.RunSuspendRun: what the system calls of a run do to the shared page map is computed beside the run, from
  the list of acts each call stands for, and not by the calls as they happen.
- Arithmetic that would overflow `u64` in page tracking wraps, as in a release build; a debug build stops instead.
- VERSION0 and VERSION1 differences, 32-bit registers, pause and reset signals, the debugger.
- The packed 64-bit instruction word: decoded instructions are records.
- ELF header parsing and the byte count of `parse_elf`, `snapshot.rs`, symbolic values, printing, the assembly machine,
  and the host and guest crates.
