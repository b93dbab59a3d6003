# Verified models of three parts of the Optimism monorepo

Three components of the repository are modelled here in Dafny, in their own
imperative form, and proved against specifications written as functions on
values.  Each has one main question.

**Cannon's MIPS VM (`cannon/mipsevm`).**  Do the proofs it hands out suffice to
follow it without its memory?  `Memory` keeps a sparse 2^32-byte memory behind
four layers of caches.  All of them are shown to agree with one thing, the flat
memory (`FlatMemory.Flat`) and the naive Merkle tree over its 2^27 leaves
(`Merkle.Tree`), through every operation.  `InstrumentedState.Step` is shown to
do exactly what the function `Cpu.StepVm` does on a flat memory, with or without
proof generation.  `StepCheck` then gives a step verifier on bytes: an encoded state,
the proof bytes of a `StepWitness` and the one pre-image it carries.  On what `Step`
hands out it arrives at the encoding of the next state, and no other evidence can
make it accept anything else, unless that contains a hash collision, which is
handed out, or the VM panics where no witness can show it.  It shares the function for one instruction with the VM; what is
proved is that nothing else of the VM is needed.

| file | content |
|---|---|
| `Words`, `Wrappers` | machine words over the integers; Option, Min |
| `Merkle`, `FlatMemory`, `InclusionProof` | trees, flat memory, cached nodes, proofs |
| `Page`, `Memory`, `MemoryRange` | the classes `CachedPage`, `Memory`, `MemReader` |
| `Alu`, `LoadStoreBytes`, `Cpu` | one instruction as a function; loads and stores as bytes |
| `Instrumented`, `Witness`, `StepCheck` | the class `InstrumentedState`; the commitment; the step verifier |
| `VmRun`, `VmHistory`, `UnalignedSteps` | what holds over whole runs |
| `Instructions`, `ArithmeticSteps`, `MemorySteps` | the instruction set: what a step does for each assembled instruction |
| `SystemCalls` | the kernel: what a step does for each system call |

**The batcher's channels (`op-batcher/batcher`).**  Does every L2 block get to
L1?  `ChannelBuilder`, `Channel` and `ChannelManager` are classes tied to
values of the datatypes `Builder`, `Chan` and `Manager`, and runs are sequences
of `ChannelRuns.Event`.  No accepted block is ever lost; for each step it is
known exactly when it repeats a block or upsets the order; frames are conserved;
a channel that is dropped as submitted is confirmed in full and in time.

| file | content |
|---|---|
| `ChannelBuilder`, `Channel`, `ChannelManager` | the three classes and their values |
| `ChannelDeadlines` | deadlines and fullness of one channel |
| `ChannelRuns` | events, histories, consistency of the tables |
| `ChannelBlocks`, `ChannelOrder`, `ChannelRepeats` | what becomes of blocks |
| `ChannelFrames` | what becomes of frames |
| `ChannelCalls` | what each call does and returns, in terms of the tables |

**The RPC proxy (`proxyd`).**  Does response i answer request i, and do the
backends agree on what is published?  `Server.HandleBatchRpc` fills every slot
with a response to its very call, parameters included, through duplicate ids,
cache hits, small batches, sorting and splicing.  `ConsensusPoller` publishes the
highest block all candidates agree on; when its finalized number is above its
safe one is known exactly, for one visiting order and for all.

| file | content |
|---|---|
| `ProxyBackend` | sorting, splicing, `BackendGroup.Forward` |
| `ProxyServer` | the batch handler |
| `ConsensusPoller` | candidates, the walk back, publication |

Where the code and its comments differ, the code is followed: `srav` uses its
whole amount register (`cannon/mipsevm/mips.go:431-432`), a failing request keeps
blocks it has already added (`op-batcher/batcher/channel_manager.go:231-238`), a
late confirmation brings blocks back again
(`op-batcher/batcher/channel_manager.go:95-101`), loading bytes leaves cached
hashes above existing pages as they are (`cannon/mipsevm/memory.go:270-288`), a
range that wraps around into an absent first page is read as zeroes
(`cannon/mipsevm/memory.go:313-317`), and zero heights restart the running
minimum (`proxyd/consensus_poller.go:370-381`).  Each has its exact
condition or a counterexample among the lemmas below.

## Model

| member | source | states |
|---|---|---|
| Merkle.TreeFrame | cannon/mipsevm/memory.go:76-100 | changing one leaf changes no node that is not above it: what makes clearing only the branch of an address enough |
| Merkle.ZeroTree | cannon/mipsevm/memory.go:30-37 | every node of an all-zero subtree is the precomputed zero hash of its level |
| Merkle.BranchFolds | cannon/mipsevm/memory.go:144-162 | the siblings of any branch, folded along the bits of the path, give the root |
| Merkle.SiblingsSnoc | cannon/mipsevm/memory.go:153-161 | the recursion of traverseBranch: one level further up appends one sibling |
| Merkle.RefoldGivesNewRoot | cannon/mipsevm/memory.go:144-162 | after a change of one leaf the old siblings with the new leaf fold to the new root |
| Merkle.FindCollision | cannon/mipsevm/memory.go:102-133 | two trees that agree on a node but differ below it have, between the two, a node that hashes different children to one value, and it is computed |
| Merkle.NodeBindsLeaves | cannon/mipsevm/memory.go:102-133 | two subtrees with the same leaves have one hash; two with different leaves and one hash contain a collision among their nodes, which is handed out |
| Page.CachedPage.constructor | cannon/mipsevm/page.go:26-32 | a new page is all zero and has no valid cached node |
| Page.CachedPage.Invalidate | cannon/mipsevm/page.go:34-45 | exactly the cached nodes above the address become invalid, and the cache stays coherent |
| Page.CachedPage.InvalidateFull | cannon/mipsevm/page.go:47-49 | no cached node stays valid |
| Page.CachedPage.MerkleRoot | cannon/mipsevm/page.go:51-74 | with any mix of valid and invalid cached nodes the result is the naive Merkle root of the page, and all 127 nodes are then valid |
| Page.CachedPage.MerkleizeSubtree | cannon/mipsevm/page.go:76-87 | every node of the page, bottom nodes included, is the naive Merkle hash |
| FlatMemory.NodeInPage | cannon/mipsevm/memory.go:107-115 | the page and the node inside it that a deep generalized index selects are the right ones |
| FlatMemory.SplitNode | cannon/mipsevm/memory.go:107-111 | a deep generalized index is its page and the low bits inside the page, put together again |
| FlatMemory.AbsentNodeIsZero | cannon/mipsevm/memory.go:120-124 | a node above no allocated page is the zero hash of its level |
| FlatMemory.AbsentPageIsZero | cannon/mipsevm/memory.go:113-115 | a node of a page that does not exist is the zero hash of its level |
| FlatMemory.ClearedEntries | cannon/mipsevm/memory.go:224-229 | the loop to the root sets exactly the ancestors to nil and leaves all other nodes |
| FlatMemory.WriteKeepsNodes | cannon/mipsevm/memory.go:76-90 | a write into a page without valid ancestors keeps every cached node right: the reason why Invalidate may return early |
| FlatMemory.PageChangeKeepsNodes | cannon/mipsevm/memory.go:270-288 | any change inside a page without valid ancestors keeps every cached node right |
| FlatMemory.StaleExactlyWhenCovered | cannon/mipsevm/memory.go:270-288 | the cached nodes left after a load are right if no valid node that survives the allocation of pages lies above a leaf that has changed, and only then, unless a collision among the nodes of the memory before and after is handed out |
| FlatMemory.LoadKeepsNodesExactly | cannon/mipsevm/memory.go:270-288 | after a load the cached nodes have all that later operations rely on if and only if no valid node survives above a loaded page that was there before |
| InclusionProof.ProofFolds | cannon/mipsevm/memory.go:135-162 | for every memory and address the 28 nodes start with the leaf of the address and fold along address bits 5 to 31 to the root |
| InclusionProof.WriteRefolds | cannon/mipsevm/memory.go:189-206 | for every aligned write the siblings from before, with the leaf from after, fold to the root after the write |
| InclusionProof.ConcatAt | cannon/mipsevm/memory.go:135-142 | the encoded proof holds the i-th node in bytes 32*i to 32*i+31 |
| VmMemory.ComputeZeroHashes | cannon/mipsevm/memory.go:30-37 | the table holds the root of an all-zero subtree for each of 256 levels |
| VmMemory.Memory.constructor | cannon/mipsevm/memory.go:55-61 | a new memory is coherent and all zero |
| VmMemory.Memory.PageLookup | cannon/mipsevm/memory.go:168-187 | the two-entry cache is transparent: the result is the page map's |
| VmMemory.Memory.GetMemory | cannon/mipsevm/memory.go:208-219 | the word read is the flat memory's, absent pages included; nothing observable changes |
| VmMemory.Memory.AllocPage | cannon/mipsevm/memory.go:221-231 | adding an absent page keeps all four layers coherent and the flat memory as it is |
| VmMemory.Memory.Invalidate | cannon/mipsevm/memory.go:76-100 | afterwards nothing valid lies above the address, early return included, and the memory stays coherent |
| VmMemory.Memory.SetMemory | cannon/mipsevm/memory.go:189-206 | the flat memory changes in exactly the one word, and all four cache layers stay coherent; on a memory with wrong hashes above its pages the words and pages are still right |
| VmMemory.Memory.MerkleizeSubtree | cannon/mipsevm/memory.go:102-133 | for every generalized index the result is the naive Merkle hash of that subtree of the flat memory, which does not change |
| VmMemory.Memory.MerkleRoot | cannon/mipsevm/memory.go:164-166 | the result is the naive Merkle root of the flat memory |
| VmMemory.Memory.TraverseBranch | cannon/mipsevm/memory.go:144-162 | the leaf of the address followed by its siblings up to the parent |
| VmMemory.Memory.MerkleProof | cannon/mipsevm/memory.go:135-142 | the encoded inclusion proof of the address; the flat memory does not change |
| MemoryRange.ReadInto | cannon/mipsevm/memory.go:279-285 | a reader may deliver any number of bytes per call, with or without end of file or an error |
| MemoryRange.SetMemoryRange | cannon/mipsevm/memory.go:270-288 | for any chunking by the reader the bytes delivered, and no others, are in memory from the address on; it ends; a coherent memory stays so if and only if no valid node survives above a page that was there before, in particular before any root has been computed; a wrong hash is left behind whenever a valid node that survives lies above a changed leaf, unless a collision is handed out, and never otherwise |
| MemoryRange.LoadUnderCachedRoot | cannon/mipsevm/memory.go:270-288 | a new memory, one word written, the root computed, then one byte loaded: the cache still has the root of the zero memory, which is wrong unless a collision is handed out |
| MemoryRange.LoadUnderCachedLeftRoot | cannon/mipsevm/memory.go:270-288 | a hash function for which that root is wrong |
| MemoryRange.WithBytesElsewhere | cannon/mipsevm/memory.go:270-288 | bytes outside the range are unchanged by a range write |
| MemoryRange.RangeRoundTrip | cannon/mipsevm/memory.go:270-325 | what is written to a range is read from it, for every address and every length up to the whole memory |
| MemoryRange.MemReader.Read | cannon/mipsevm/memory.go:296-321 | each call delivers the next bytes of the range and moves on; it ends exactly at count zero; for a range that wraps around into its own first page it panics exactly when that page is allocated, and takes the whole rest for zeroes when it is not |
| MemoryRange.ReadRange | cannon/mipsevm/memory.go:323-325 | reading to the end with any non-empty buffers panics exactly when the range wraps around into its own first page and that page is allocated, and else gives the bytes of the range, after zeroes for as many bytes as are skipped in a wrapping range; it ends |
| MemoryRange.DeliveredExactly | cannon/mipsevm/memory.go:296-325 | what comes out of the buffers is the range if and only if the bytes skipped are zero; none are skipped unless the range wraps around into its own first page, and then all of it or at least the rest of that page |
| MemoryRange.RangeEnd | cannon/mipsevm/memory.go:303-311 | start is above end exactly when the range wraps around into its own first page, the uint32 difference is then the whole rest of the range, and no later call is worse |
| Words.BytesRoundTrip | cannon/mipsevm/mips.go:97-100 | big-endian encoding undoes decoding |
| Alu.CountLeadingOnes | cannon/mipsevm/mips.go:501-509 | the loop counts the leading ones and ends |
| Alu.LeadingOnesMeaning | cannon/mipsevm/mips.go:501-509 | the count is the length of the longest prefix of ones: that many high bits are set and the next one is not |
| Alu.RunAlu | cannon/mipsevm/mips.go:501-509 | the loop of clo and clz counts what the specification says it does; every other instruction is the specification's own |
| Alu.SignExtend | cannon/mipsevm/mips.go:560-569 | sign extension keeps the signed value of the low bits |
| Alu.ArithmeticShift | cannon/mipsevm/mips.go:424-426 | sra divides the signed value by a power of two, rounding down |
| Alu.SravExactly | cannon/mipsevm/mips.go:431-432 | srav, whose amount is not masked, is an arithmetic shift by the low five bits if and only if the amount is below 32 or nothing but zero is left |
| LoadStoreBytes.Lwl | cannon/mipsevm/mips.go:517-520 | lwl puts the bytes from the address to the end of the word into the high bytes of the register and keeps the others |
| LoadStoreBytes.Lwr | cannon/mipsevm/mips.go:527-530 | lwr puts the bytes from the start of the word to the address into the low bytes of the register and keeps the others |
| LoadStoreBytes.Swl | cannon/mipsevm/mips.go:539-542 | swl stores the high bytes of the register from the address to the end of the word |
| LoadStoreBytes.Swr | cannon/mipsevm/mips.go:545-548 | swr stores the low bytes of the register from the start of the word to the address |
| LoadStoreBytes.Lb | cannon/mipsevm/mips.go:513-514 | lb and lbu load the addressed byte with and without its sign |
| LoadStoreBytes.Lh | cannon/mipsevm/mips.go:515-516 | lh and lhu load the addressed half word with and without its sign |
| LoadStoreBytes.Sb | cannon/mipsevm/mips.go:531-534 | sb replaces the addressed byte only |
| LoadStoreBytes.Sh | cannon/mipsevm/mips.go:535-538 | sh replaces the addressed half word only |
| Instrumented.State.EncodeWitness | cannon/mipsevm/state.go:40-62 | the bytes are the encoding of the naive Merkle root and all fields; only caches change |
| Instrumented.InstrumentedState.HandleJump | cannon/mipsevm/mips.go:252-263 | as the specification Jump, panic in a delay slot included |
| Instrumented.InstrumentedState.HandleBranch | cannon/mipsevm/mips.go:182-214 | as the specification Branch, panic in a delay slot included; BranchLands says when it is taken and where it leads |
| Instrumented.InstrumentedState.HandleRd | cannon/mipsevm/mips.go:265-275 | as the specification Rd; register 0 is not written |
| Instrumented.InstrumentedState.HandleHiLo | cannon/mipsevm/mips.go:216-250 | as the specification HiLo, panic on division by zero included |
| Instrumented.InstrumentedState.TrackMemAccess | cannon/mipsevm/mips.go:35-43 | the proof kept is that of the address against the memory before any write; the panic on a second address is unreachable |
| Instrumented.InstrumentedState.ReadPreimage | cannon/mipsevm/mips.go:19-33 | the bytes are the next ones of the length-prefixed pre-image, fetched once per key; a panic exactly when the offset is behind the end |
| Instrumented.InstrumentedState.SysPreimageRead | cannon/mipsevm/mips.go:83-102 | as the specification PreimageRead on the flat memory |
| Instrumented.InstrumentedState.SysPreimageWrite | cannon/mipsevm/mips.go:135-152 | as the specification PreimageWrite on the flat memory |
| Instrumented.InstrumentedState.HandleSyscall | cannon/mipsevm/mips.go:45-180 | every system call does what the specification Syscall says, call by call in SystemCalls, and panics besides exactly when an output call reads a range that wraps around into its own allocated first page; the panic of the hint loop on a partial hint is not modelled |
| Instrumented.InstrumentedState.MemStep | cannon/mipsevm/mips.go:331-393 | every load and store does what the specification MemOp says, and its address has been tracked |
| Instrumented.InstrumentedState.MipsStep | cannon/mipsevm/mips.go:277-394 | one instruction takes the abstract machine to StepVm, allocated pages included, panics where StepVm does, and records the one data address it touches; the panic of the hint loop on a partial hint is not modelled |
| Instrumented.InstrumentedState.Step | cannon/mipsevm/instrumented.go:56-82 | with and without proof the step is the same StepVm; the witness is the encoded state, the two inclusion proofs against the memory before the step, and the pre-image exactly when one is read; the panic of the hint loop on a partial hint is not modelled |
| Instrumented.InstrumentedState.Run | cannon/cmd/run.go:297-367 | whatever steps ask for proofs, the run is RunVm: proof generation is silent; the panic of the hint loop on a partial hint is not modelled |
| Witness.EncodeInjective | cannon/mipsevm/state.go:40-62 | equal encodings agree on the root and on every encoded field |
| Witness.DecodeEncode | cannon/mipsevm/state.go:40-62 | the root and every field can be read back from the bytes |
| Witness.CommitmentBinds | cannon/mipsevm/state.go:40-62 | equal encodings agree on every field and on the whole memory, or a collision among the nodes of the two memories is handed out |
| StepCheck.ParsedAt | packages/contracts-bedrock/src/cannon/MIPS.sol:489-551 | each half of the proof bytes reads back as the leaf and the 27 siblings that went into it |
| StepCheck.ExecSeesData | packages/contracts-bedrock/src/cannon/MIPS.sol:605-768 | what an instruction does depends on the processor, the two words read and the data of the pre-image, on nothing else of the VM |
| StepCheck.HonestStepChecks | packages/contracts-bedrock/src/cannon/MIPS.sol:605-768 | with the VM's own proofs the step verifier arrives at the VM's next root and processor, and refuses where the VM panics, but for reads of a pre-image it is not supplied with and for panics that depend on which pages are allocated |
| StepCheck.WitnessChecks | cannon/mipsevm/evm_test.go:70-100 | the bytes of the witness of any step take the encoded state before it to the encoded state after it, if and only if the step reads no pre-image or one that a witness can carry |
| StepCheck.RunChecks | cannon/mipsevm/evm_test.go:134-153 | the witnesses of a run check out one after the other, under the same condition on every step |
| StepCheck.ProofUnique | cannon/mipsevm/memory.go:135-162 | whatever folds to the root is the proof MerkleProof gives, or a collision between the proof and the memory is handed out |
| StepCheck.AcceptedStepIsRight | packages/contracts-bedrock/src/cannon/MIPS.sol:605-768 | whatever proof bytes and genuine pre-image make the step verifier accept a step, it arrives at the encoding of the VM's next state, or a collision between the proofs and the memory is handed out; where the VM panics on an output call, it arrives at the state after that call |
| StepCheck.AcceptsWherePrintStops | packages/contracts-bedrock/src/cannon/MIPS.sol:226-228 | on an output call on which the VM panics the step verifier accepts the VM's own proofs and takes the call for done |
| StepCheck.AcceptedRunIsRight | packages/contracts-bedrock/src/cannon/MIPS.sol:605-768 | the same for runs of any length that do not come to such a call |
| VmRun.StepOrderly | cannon/mipsevm/mips.go:277-394 | a step that does not exit moves the PC to the old NextPC and keeps register 0; a step that exits changes the exit fields only; an exited machine stays |
| VmRun.OneDelaySlot | cannon/mipsevm/mips.go:182-263 | a jump or branch lands at its destination after exactly one instruction in between |
| VmRun.RunSound | cannon/mipsevm/mips.go:56-68 | over every run register 0 stays zero and the heap page-aligned |
| VmRun.RunCountsSteps | cannon/mipsevm/mips.go:277-281 | the step counter grows by one per step until exit, after which the whole state is frozen |
| Cpu.PanicIsFinal | cannon/mipsevm/mips.go:277-394 | a run that has panicked has no later state |
| VmHistory.MmapRegionsDisjoint | cannon/mipsevm/mips.go:56-68 | regions handed out by two anonymous mmap calls of one run do not overlap while the heap has room |
| VmHistory.KeyIsStreamTail | cannon/mipsevm/mips.go:135-152 | over any run the pre-image key is the last 32 bytes of all bytes ever written to it |
| VmHistory.DataIsPrefix | cannon/mipsevm/mips.go:83-102 | over any mix of short and misaligned reads and key writes the bytes delivered since the last key write are the first PreimageOffset bytes of length prefix and data |
| VmHistory.ReadsNeverPanic | cannon/mipsevm/mips.go:19-33 | in such a run the slice in readPreimage is always in range |
| VmHistory.FetchExactly | cannon/mipsevm/mips.go:19-29 | the one-entry pre-image cache is transparent if and only if it is not the zero key before the first fetch |
| UnalignedSteps.StoreUnaligned | cannon/mipsevm/mips.go:331-393 | two steps, swl at a and swr at a+3, store the register as the four bytes a to a+3 and change nothing else |
| UnalignedSteps.LoadUnaligned | cannon/mipsevm/mips.go:331-393 | two steps, lwl at a and lwr at a+3, load the four bytes a to a+3 |
| UnalignedSteps.UnalignedRoundTrip | cannon/mipsevm/mips.go:331-393 | four steps bring the stored word back, at every alignment, and no byte outside a to a+3 changes |
| Instructions.AssembledR | cannon/mipsevm/mips.go:282-307 | the fields the instruction theorems speak of are those of the assembled word, and of no other word: register instructions |
| Instructions.AssembledI | cannon/mipsevm/mips.go:282-325 | the same for instructions with an immediate operand, branches, loads and stores |
| Instructions.BranchLands | cannon/mipsevm/mips.go:182-214 | beq, bne, blez, bgtz, bltz and bgez: after the instruction in the delay slot the program is at pc + 4 + 4 times the signed offset if the comparison of the registers holds, and at pc + 8 if not; no other field of opcode 1 branches |
| Instructions.BranchStep | cannon/mipsevm/mips.go:182-214 | the branch itself moves the program counters only, and panics exactly in the delay slot of another transfer |
| Instructions.JumpStep | cannon/mipsevm/mips.go:252-263 | j and jal lead into the 256 MB region of the delay slot, and jal leaves pc + 8 in register 31 |
| Instructions.JumpRegisterStep | cannon/mipsevm/mips.go:252-263 | jr and jalr lead to the address in a register, and jalr leaves pc + 8 in another |
| ArithmeticSteps.SumStep | cannon/mipsevm/mips.go:464-471 | add, addu, sub and subu: the sum and difference modulo 2^32 |
| ArithmeticSteps.BitwiseStep | cannon/mipsevm/mips.go:472-479 | and, or, xor and nor: each of the 32 bits by the two bits of the operands |
| ArithmeticSteps.CompareStep | cannon/mipsevm/mips.go:480-489 | slt and sltu: one if the first operand is less, as a signed or an unsigned number |
| ArithmeticSteps.ShiftStep | cannon/mipsevm/mips.go:419-432 | the six shifts: multiplication by a power of two modulo 2^32, and division by one rounding down, of the unsigned or the signed operand |
| ArithmeticSteps.SpecialStep | cannon/mipsevm/mips.go:493-510 | mul: the product modulo 2^32; clz and clo: between which powers of two the operand, or its complement, lies |
| ArithmeticSteps.ImmediateArithmetic | cannon/mipsevm/mips.go:396-417 | the immediate forms and lui, with the immediate read as signed, or as it is for andi, ori and xori |
| ArithmeticSteps.ProductStep | cannon/mipsevm/mips.go:227-234 | mult and multu: hi and lo together are the whole product, signed or not |
| ArithmeticSteps.QuotientStep | cannon/mipsevm/mips.go:235-240 | div and divu: dividend is quotient times divisor plus rest, the rest smaller than the divisor and of the sign of the dividend; a zero divisor panics, and the least number by -1 wraps around |
| ArithmeticSteps.HiLoMoveStep | cannon/mipsevm/mips.go:218-226 | mfhi, mthi, mflo and mtlo; the last two clear their destination register |
| ArithmeticSteps.MoveStep | cannon/mipsevm/mips.go:362-367 | movz and movn move if a register is zero or is not; sync moves always |
| ArithmeticSteps.UnknownStep | cannon/mipsevm/mips.go:396-558 | an unknown instruction below opcode 0x20 panics |
| MemorySteps.LoadStep | cannon/mipsevm/mips.go:331-393 | lb, lbu, lh, lhu, lw and ll: the bytes of the flat memory at the address, big-endian, with or without sign |
| MemorySteps.StoreStep | cannon/mipsevm/mips.go:331-393 | sb, sh, sw and sc: exactly the addressed bytes of the flat memory change, to the low bytes of the register; sc leaves 1 in it |
| MemorySteps.UnknownMemoryStep | cannon/mipsevm/mips.go:511-558 | an opcode from 0x20 on that is no load or store panics |
| SystemCalls.ExitCall | cannon/mipsevm/mips.go:73-76 | exit_group leaves the low byte of its argument as exit code and changes nothing else but the step count |
| SystemCalls.ExitsOnlySo | cannon/mipsevm/mips.go:73-76 | a step that exits is exit_group, with that code |
| SystemCalls.RunExits | cannon/mipsevm/mips.go:73-76 | a run that has exited did so in a call of exit_group, and still has its code |
| SystemCalls.MmapCall | cannon/mipsevm/mips.go:56-68 | mmap returns the address asked for, or the heap, which then moves up by the size in whole pages |
| SystemCalls.ConstantCall | cannon/mipsevm/mips.go:69-72 | brk and clone return their constants, and calls the kernel does not know return zero |
| SystemCalls.ReadCall | cannon/mipsevm/mips.go:77-110 | reading stdin, the hint channel or a bad descriptor: the two values returned |
| SystemCalls.PreimageReadCall | cannon/mipsevm/mips.go:83-102 | reading the pre-image puts the next bytes of length prefix and data, to the end of the word, of the count or of the pre-image, at the address given, and panics exactly when the offset is past the end |
| SystemCalls.OutputCall | cannon/mipsevm/mips.go:111-134 | writing to stdout, stderr or the hint channel returns the count, and panics exactly when the range runs past the end of memory back into the page it starts in and that page is allocated; the panic of the hint loop on a partial hint is not modelled |
| SystemCalls.KeyWriteCall | cannon/mipsevm/mips.go:135-152 | writing the pre-image key shifts the bytes at the address in from the right and resets the offset |
| SystemCalls.BadWriteCall | cannon/mipsevm/mips.go:153-157 | writing to any other descriptor is an error |
| SystemCalls.FcntlCall | cannon/mipsevm/mips.go:158-173 | fcntl tells how a descriptor may be used; bad descriptors and commands are errors |
| ChannelBuilding.ChannelBuilder.UpdateTimeout | op-batcher/batcher/channel_builder.go:265-270 | an earlier deadline, or the first one, replaces the timeout and its reason |
| ChannelBuilding.ChannelBuilder.RegisterL1Block | op-batcher/batcher/channel_builder.go:225-228 | the duration deadline is registered, then the channel is marked full if its deadline has come |
| ChannelBuilding.ChannelBuilder.FramePublished | op-batcher/batcher/channel_builder.go:233-236 | the channel deadline is registered, with uint64 wrap-around |
| ChannelBuilding.ChannelBuilder.AddBlock | op-batcher/batcher/channel_builder.go:192-217 | a block is kept and its sequencing window registered, or the channel becomes full, or nothing changes, as the encoder answers |
| ChannelBuilding.ChannelBuilder.TakeFrames | op-batcher/batcher/channel_builder.go:334-359 | the loops take frames until the encoder has no more, delivers the last one or fails |
| ChannelBuilding.ChannelBuilder.OutputFrames | op-batcher/batcher/channel_builder.go:322-390 | ready frames while open, all remaining ones once full, numbered as uint16 |
| ChannelDeadlines.TimeoutIsEarliest | op-batcher/batcher/channel_builder.go:260-270 | over every run the timeout is one of the registered deadlines with its reason, and it is the earliest if and only if none is zero or the last one is |
| ChannelDeadlines.FullnessStays | op-batcher/batcher/channel_builder.go:272-312 | once full, a channel stays full, whatever is called |
| ChannelDeadlines.OpenIsAhead | op-batcher/batcher/channel_builder.go:219-284 | a channel still open after L1 block n is ahead of every block's sequencing window, every published frame's channel timeout and its own maximal duration, less the safety margin |
| Channels.Channel.TxFailed | op-batcher/batcher/channel.go:46-59 | the frame of a known transaction goes back into the queue |
| Channels.Channel.TxConfirmed | op-batcher/batcher/channel.go:65-93 | a known transaction moves from pending to confirmed; the result says whether the channel is done and what blocks come back |
| Channels.Channel.IsTimedOut | op-batcher/batcher/channel.go:98-114 | the minimum and maximum loop decides whether two inclusion blocks are the channel timeout or more apart |
| Channels.Channel.NextTxData | op-batcher/batcher/channel.go:129-139 | the first frame of the queue becomes pending under its own name |
| Channels.DoneExactly | op-batcher/batcher/channel.go:65-93 | a confirmation ends a channel if and only if the inclusion blocks now span the timeout, or the channel is full and all frames it ever made are confirmed; blocks come back exactly in the first case |
| Channels.TimeoutIsFinal | op-batcher/batcher/channel.go:98-114 | a channel that has timed out stays timed out |
| Channels.PullAllConserves | op-batcher/batcher/channel_builder.go:364-390 | making frames keeps queued, pending and confirmed frames a partition of those made |
| ChannelManagement.ChannelManager.Clear | op-batcher/batcher/channel_manager.go:59-69 | all tables are emptied |
| ChannelManagement.ChannelManager.AddL2Block | op-batcher/batcher/channel_manager.go:310-322 | a block is accepted exactly when it extends the tip, or nothing is known of one |
| ChannelManagement.ChannelManager.TxFailed | op-batcher/batcher/channel_manager.go:73-86 | the transaction leaves the table and its frame goes back to its channel |
| ChannelManagement.ChannelManager.TxConfirmed | op-batcher/batcher/channel_manager.go:92-107 | blocks that come back go in front of the saved ones, and a channel that is done leaves the queue |
| ChannelManagement.ChannelManager.RemovePendingChannel | op-batcher/batcher/channel_manager.go:110-126 | the first occurrence of the channel leaves the queue |
| ChannelManagement.ChannelManager.TxData | op-batcher/batcher/channel_manager.go:144-188 | the first queued channel with a frame is served; else saved blocks fill the current channel, or a new one, until it is full; what is returned and when is said by QueuedRequest, IdleRequest and FillingRequest |
| ChannelManagement.ChannelManager.ProcessBlocks | op-batcher/batcher/channel_manager.go:225-271 | the loop puts saved blocks into the channel until it is full or one fails, and on failure keeps them all saved |
| ChannelManagement.AddAllCount | op-batcher/batcher/channel_manager.go:225-271 | the blocks added are a prefix of the saved ones, appended in order |
| ChannelRuns.StepConsistent | op-batcher/batcher/channel_manager.go:73-211 | every operation keeps the tables of the manager consistent |
| ChannelRuns.ReachableTables | op-batcher/batcher/channel_manager.go:73-211 | in every reachable state a transaction is known exactly when one channel since the last Clear has it pending, and it is that one; the queue has no duplicates; the current channel is last in it, and all others are full |
| ChannelBlocks.StepAccounts | op-batcher/batcher/channel_manager.go:92-126 | each step changes the count of every block by what it accepts and what it repeats, and by nothing else |
| ChannelBlocks.AtLeastOnce | op-batcher/batcher/channel_manager.go:92-271 | over every run each accepted block is answered for at least as often as it was accepted: saved, in a queued channel, or in one dropped as fully submitted |
| ChannelBlocks.AcceptedIsSomewhere | op-batcher/batcher/channel_manager.go:92-271 | the same, as where to find the block |
| ChannelBlocks.ExactlyOnceStep | op-batcher/batcher/channel_manager.go:95-101 | a step keeps the count exact if and only if it is neither a late confirmation that ends a dropped channel again nor a request that fails behind an added block |
| ChannelBlocks.ExactlyOnceRun | op-batcher/batcher/channel_manager.go:92-271 | runs without such steps count every block exactly as often as it was accepted |
| ChannelOrder.InOrderStep | op-batcher/batcher/channel_manager.go:144-322 | a step keeps channels and saved blocks in the accepted order if and only if it is neither a timeout of a channel with blocks nor a request that fails behind an added block |
| ChannelOrder.OrderInRun | op-batcher/batcher/channel_manager.go:144-322 | in runs without such steps the channels in order of creation, followed by the saved blocks, are exactly the accepted chain |
| ChannelOrder.AcceptedAreChained | op-batcher/batcher/channel_manager.go:310-322 | in every run each accepted block names the one before it as its parent |
| ChannelFrames.ConservedExactly | op-batcher/batcher/channel.go:46-139 | in every reachable state each frame made is in exactly one place, queued, pending or confirmed, if and only if the uint16 frame number has not wrapped around |
| ChannelFrames.SubmittedIsConfirmed | op-batcher/batcher/channel.go:85-119 | a channel of up to 65536 frames dropped as fully submitted has all of them confirmed, and every channel so dropped has its confirmations in L1 blocks that span less than the channel timeout |
| ChannelFrames.SubmittedIsFinished | op-batcher/batcher/channel_builder.go:347-359 | if the encoder never fails, a channel of at most 65535 frames dropped as fully submitted has got the last frame from it; with SubmittedIsConfirmed, that frame is confirmed like all others |
| ChannelCalls.RequestExactly | op-batcher/batcher/channel_manager.go:130-188 | in every reachable state a request returns a transaction exactly when one becomes pending, and it is that one, new as long as the channel has made no more than 65536 frames; otherwise the tables of transactions stay as they are |
| ChannelCalls.OnlyReturnedIsPending | op-batcher/batcher/channel_manager.go:130-188 | over every run a transaction is pending or confirmed only if some request has returned its very frame |
| ChannelCalls.QueuedRequest | op-batcher/batcher/channel_manager.go:145-158 | while a queued channel has a frame, the request gets the first frame of the first such channel |
| ChannelCalls.IdleRequest | op-batcher/batcher/channel_manager.go:163-172 | with nothing queued and nothing saved there is nothing to send; without a channel that has space and can be made, the request fails |
| ChannelCalls.FillingRequest | op-batcher/batcher/channel_manager.go:165-188 | otherwise saved blocks go into the current or a new channel, frames come out of it, and the request gets the first of them, nothing if there is none, or a failure exactly if adding, closing or taking fails |
| ChannelCalls.FillDeadlines | op-batcher/batcher/channel_builder.go:192-228 | the channel filled has a deadline not behind the sequencing window of any block put in, less the margin, nor behind its duration |
| ChannelCalls.FramesTaken | op-batcher/batcher/channel_builder.go:364-390 | one frame for each answer of the encoder, in order, with its data and consecutive uint16 numbers, up to the last frame or a failure; number 65535 fills the channel |
| ChannelCalls.BytesCounted | op-batcher/batcher/channel_builder.go:364-390 | the output bytes of a channel grow by exactly the data of the frames taken |
| ChannelCalls.BlocksTaken | op-batcher/batcher/channel_manager.go:225-271 | saved blocks go in in order until one fills the channel, no longer fits, or fails |
| ChannelCalls.FilledByEvent | op-batcher/batcher/channel_builder.go:192-312 | what makes an open channel full, and the reason recorded for it |
| ChannelCalls.NewBlockCall | op-batcher/batcher/channel_manager.go:310-322 | a block is accepted exactly if nothing is accepted yet, the last accepted block has no hash, or it is the parent |
| ChannelCalls.TxFailsCall | op-batcher/batcher/channel_manager.go:73-86 | the frame of a known failed transaction goes to the end of its channel's queue, and nothing else changes |
| ChannelCalls.TxConfirmsCall | op-batcher/batcher/channel_manager.go:92-107 | a known confirmed transaction moves from pending to confirmed, tightens its channel's deadline, and drops the channel exactly if that has timed out or is fully submitted; blocks come back exactly in the first case |
| ChannelRepeats.MalformedBlockRepeats | op-batcher/batcher/channel_manager.go:231-238 | a malformed block behind a good one makes every request add the good one again |
| ChannelRepeats.LateConfirmationRepeats | op-batcher/batcher/channel_manager.go:95-101 | a run from the start: of three frames sent one is confirmed in time and two too late, and the block of the channel comes back twice |
| ChannelRepeats.LateConfirmationsRepeat | op-batcher/batcher/channel_manager.go:95-101 | in any consistent state, a confirmation that comes after its channel was dropped as timed out brings all blocks of the channel back once more |
| ProxyBackends.SortBatchRpcResponse | proxyd/backend.go:645-660 | the responses are sorted by the place of their id in the request; the panic on duplicate ids is unreachable |
| ProxyBackends.SortingAligns | proxyd/backend.go:645-660 | sorting puts response i at request i if and only if the ids sent back are the ids sent, in any order |
| ProxyBackends.Backend.Forward | proxyd/backend.go:576-607 | a reply of the wrong length is an error; any other is sorted, and aligned exactly when it has the right ids |
| ProxyBackends.SpliceIsMerge | proxyd/backend.go:766-774 | inserting the overridden responses one after the other is merging them with the replies in the order of the requests |
| ProxyBackends.PlaceIsReached | proxyd/backend.go:767-770 | each insertion is inside the responses gathered so far, so the slice is in range |
| ProxyBackends.MergeAligns | proxyd/backend.go:691-776 | the merged answers are aligned with all requests exactly when the replies are with the requests passed on |
| ProxyBackends.MergeElements | proxyd/backend.go:691-776 | overridden answers stand unchanged, and all others are replies |
| ProxyBackends.BackendGroup.Divide | proxyd/backend.go:691-720 | one pass gathers overridden responses with their places and the other requests, and leaves every request with its rewritten parameters |
| ProxyBackends.BackendGroup.RewriteMeaning | proxyd/backend.go:678-720 | a group with consensus answers a call itself, or passes it on with the parameters the rewriting of block tags gives; a group without passes it on as it is |
| ProxyBackends.OutcomeExactly | proxyd/backend.go:724-781 | posting comes out well if and only if some backend answers and none before it fails for good, with a final error if and only if some backend fails with it and none before it answers or fails for good, and else nobody has answered; the three errors that are final are named |
| ProxyBackends.BackendGroup.Forward | proxyd/backend.go:668-781 | answer i has the id of request i; overridden answers are the proxy's; all others come from the first backend at which the search ends; the error is exactly the outcome of that search |
| ProxyServers.RpcCache.Get | proxyd/methods.go:33-64 | a hit carries the id of the request at hand and the value stored for its method and parameters |
| ProxyServers.Server.Group | proxyd/server.go:403-471 | each request is answered at once or waits, with the parameters it came with, in a group of its backend; no group has an id twice and no request is in two groups |
| ProxyServers.Server.FromCache | proxyd/server.go:477-485 | each element of a group is answered from the cache or missing; none is missing that the cache had from the start |
| ProxyServers.Server.ForwardElems | proxyd/server.go:502-535 | every slot of a small batch is filled with what the post gives for its call, an error only if the post ended with that error; the batch fails only if the post failed on receipts |
| ProxyServers.Server.ForwardMisses | proxyd/server.go:488-536 | the small batches cover all misses, unless time is up before one of them or one fails on receipts |
| ProxyServers.Server.HandleBatchRpc | proxyd/server.go:387-540 | the batch fails only if its time is up or a post fails on receipts, and never in a reliable world; else every slot is filled: with the proxy's own answer, exactly where one is due, or with a response that has the id of call i: the value known to the cache for exactly its method and parameters, always so if the cache had one from the start, or what a post of calls of the batch, that call among them, gives for it: its group's own answer, a reply of the first backend at which the search ends, or the error the post ended with; that post is made before time is up; results that may be cached are in the cache afterwards, and the flag for cached answers is up if the cache had an answer from the start, and only if it may have come to have one |
| ProxyServers.Server.SlotMeaning | proxyd/server.go:403-456 | what a slot holds, in the order of the checks: a parse error, an invalid request, the empty array for eth_accounts, an error for a method without a group, one over its rate limit, a raw transaction over its sender's, and else what the cache knows or a post gives |
| ProxyServers.Server.ReliableAnswers | proxyd/server.go:387-540 | if time never runs out, and every pool has a backend that answers whatever is posted and none that fails for good, every routed call is answered from the cache, by its group, or by a backend |
| ConsensusPolling.LowestIsLeast | proxyd/consensus_poller.go:366-381 | the running minimum, in which zero means nothing yet, is the minimum if and only if no height is zero or the last one is |
| ConsensusPolling.LowestSinceZero | proxyd/consensus_poller.go:366-381 | whatever the heights, the running minimum is the minimum of those after the last zero, and zero if there are none |
| ConsensusPolling.FinalizedBelowSafe | proxyd/consensus_poller.go:345-381 | for heights that passed the tag check, in the order visited, the finalized number published is not above the safe one if and only if the last candidate has nothing finalized, or some candidate since the last one without a finalized block has finalized no more than every candidate's safe block since the last one without one |
| ConsensusPolling.BelowInEveryOrder | proxyd/consensus_poller.go:356-381 | whatever order the candidates are visited in the finalized number published is not above the safe one, if and only if nobody has a safe block without a finalized one, or no finalized block is above any safe one |
| ConsensusPolling.FinalizedAboveSafe | proxyd/consensus_poller.go:370-381 | two candidates, visited in this order, for which the finalized number published is above the safe one |
| ConsensusPolling.StartHashIsAgreement | proxyd/consensus_poller.go:385-407 | starting with the stored hash demands no more than agreement, if the candidate still has that block |
| ConsensusPolling.AskAll | proxyd/consensus_poller.go:397-421 | one round finds agreement exactly when all that answer have the block asked for with one hash, in whatever order they are asked |
| ConsensusPolling.WalkBack | proxyd/consensus_poller.go:395-431 | the walk ends at the highest block not above the start on which all agree, and reports broken consensus exactly when that is below the block published before |
| ConsensusPolling.ConsensusPoller.Ban | proxyd/consensus_poller.go:490-500 | the heights of a banned backend start over from zero, and unless it is forced it is no candidate before its ban has ended |
| ConsensusPolling.ConsensusPoller.SetBackendState | proxyd/consensus_poller.go:598-614 | the state of one backend is replaced, its ban kept |
| ConsensusPolling.ConsensusPoller.UpdateBackend | proxyd/consensus_poller.go:252-339 | while a backend is banned nothing happens; one that is healthy, with tags in order that have not gone back, is taken over as it answers and is eligible from now on if in sync and with enough peers; any other is banned |
| ConsensusPolling.ConsensusPoller.GetConsensusCandidates | proxyd/consensus_poller.go:626-677 | the candidates are exactly the eligible backends that do not lag behind the highest of them |
| ConsensusPolling.ConsensusPoller.CandidatesMeaning | proxyd/consensus_poller.go:626-677 | in terms of the fields: a candidate that is not forced has served its ban, is healthy, in sync, with enough peers and updated recently; such a backend, or a forced one, is a candidate if it is not too far behind any backend; there are none exactly if none is eligible |
| ConsensusPolling.ConsensusPoller.UpdateBackendGroupConsensus | proxyd/consensus_poller.go:356-465 | what is published: the highest block, not above any candidate's latest, on which all candidates agree; a finalized number not above the safe one exactly under the condition of FinalizedBelowSafe; and exactly the candidates as group |

## Left out

- HashPair: Keccak is a parameter, any total function of two 32-byte values; nothing takes it to be injective: where different inputs with one output would matter, a pair of them is handed out and said to be among the nodes at hand.
- Hints and output: the hint buffer with its loop (`cannon/mipsevm/mips.go:121-134`) and the bytes copied to stdout and stderr are not modelled; that these writes read a memory range, and panic when it wraps into its own allocated first page, is. A panic of the hint loop itself is not.
- MemoryRange.MemReader.Read: for an absent first page of a wrapping range the code allocates almost 4 GiB of zeroes; that this may fail is not modelled.
- VmMemory.Memory.AllocPage: for absent pages only, as all callers in the file do; JSON encoding and decoding of the memory are left out.
- VmMemory.Memory.GetMemory and SetMemory: an unaligned address is a panic of the callee and a precondition here; StepVm models the panic of an unaligned PC.
- Instrumented.InstrumentedState.Step: when an instruction touches no data, the second proof is the one kept from before, as in the code; the contract says so.
- Instrumented.InstrumentedState.Run: the driver loop of `cannon/cmd/run.go` without its stop, snapshot and logging hooks; it steps on after exit, which changes nothing.
- VmHistory.DataIsPrefix: for pre-images shorter than 2^32 minus 8 bytes, as the offset is a uint32; before the first fetch the zero key reads nothing, see FetchExactly.
- VmHistory.MmapRegionsDisjoint: while the heap does not wrap around 2^32.
- StepCheck.CheckStep: one instruction is the function Exec, as for the VM, not a second model of the contract's own arithmetic; whether a pre-image is genuine is a parameter, with the contract that stores pre-images and localizes keys behind it; the zero key is refused here, where the contract relies on the type byte of the keys stored; malformed encoded states are refused.
- StepCheck.AcceptedStepIsRight: not for a step on which the VM panics because an output call reads a range that wraps into its own allocated first page; no witness exists for such a step, and the contract accepts it.
- StepCheck.AcceptedRunIsRight: likewise, for a run that comes to such a step.
- ELF loading, patching, ABI encoding of witnesses, and metadata of cannon.
- ChannelManagement.ChannelManager: Close and shutdown (`op-batcher/batcher/channel_manager.go:335-361`, and the branch of TxFailed for a closed manager) drop blocks by design and are not modelled; nor is Reset of the builder, which nothing calls.
- ChannelBuilding.ChannelBuilder: the encoder, the compressor and the conversion of blocks are parameters, any answers; random channel ids are numbers in order of creation; metrics and logs are left out.
- Slices of blocks are values: that saved blocks can share memory with the blocks of a dropped channel, so that a late confirmation may bring back overwritten entries, is not captured.
- ChannelDeadlines.OpenIsAhead: for deadlines that neither wrap around nor are zero.
- Channels.PullAllConserves: up to 65536 frames; ConservedExactly says when this fails.
- The batcher's driver loop, transaction manager and reorg detection beyond the parent check.
- ProxyBackends.SortByPlace: stands for the library's sort.Slice by an insertion sort; only its specification is used.
- ProxyBackends.Backend.Forward: a backend is a function from what is posted to its reply; retries, rate limits, HTTP and the translation of receipts calls are left out.
- ProxyBackends.BackendGroup.Forward: aligned answers need backends that send back the ids they were sent (Honest); rewriting of block tags is a parameter.
- ProxyServers.Server.HandleBatchRpc: parsing, validation, rate limits and the deadline are parameters; the cache never evicts.
- ConsensusPolling.ConsensusPoller.UpdateBackendGroupConsensus: backends are fixed functions from block numbers to blocks with a shared genesis; listeners are reduced to the flag for a broken consensus; locks are dropped, each method is one step.
- Peer counts, sync checks and latency windows of backends are parameters of a probe; WebSockets, Redis and metrics are left out.
