# A MIPS R4300 to ARMv6 dynamic recompiler: model and proofs

The recompiler cuts MIPS code into segments, turns each segment into a linked list of
instructions, rewrites that list in a series of passes until it consists of ARM instructions, and
emits the result into a buffer. The Dafny modules here follow that path. Objects the program
rewrites in place (the instruction list, segments, the address map, the literal pools, the code
buffer, the page tables) are classes, and every pass over them is a method with the program's own
loop, proved equal to a specification function of the old contents. What the pass is for is proved
about that function, for all inputs. Where the code falls short of its purpose, the exact condition
under which it is right is proved (an if-and-only-if), or a lemma gives the input that fails.

| modules | subject |
|---|---|
| Ir, Machine | registers, instructions, the linked list; runs of a list for any meaning of the opcodes |
| Bits, Arm, DoubleWords | 32-bit words, flags, shifts, the ARM data-processing instructions, 64-bit values as two words |
| RegisterAllocation, AllocationCorrectness, AllocationSuccess, AllocationExample, AllocationLimits, AllocationFlag, RegisterCaching, CachedOnce, SkippedCaching, Registers | the three register passes |
| Lowering, LoweringSteps, LoweringCorrectness, LoweringRefinement, LoweringFlags, Multiplication, LoweringRuns | 64-bit MIPS operations as ARM sequences |
| LoweredCaching, LoweredCachingRuns, LoweredConstants | the lowering followed by register caching, and by the encoding of constants |
| Encoding | immediate operands and branch fields, encoded and decoded |
| CleanUp, CleanUpMeaning, InterCode, ListPasses | deleting instructions, retargeting and resolving branches inside a segment |
| Segments, SegmentStarts, SegmentMap, SegmentChain, SegmentDeletion | cutting, mapping, chaining and deleting segments |
| Literals, Emission, LiteralPasses | literal pools, their offsets, and the emitted buffer |
| BranchTargets, ChainEmission, SuperBlockEmission | the addresses in branches, and the emission of a chain of segments |
| SegmentTranslation, SuperBlockTranslation | the passes up to Translate_Branch on a segment's list, and a super block from its words to the buffer |
| CountRegister, CountRuns, BranchConditions, DelaySlots, BranchPass, BranchOfSegment | the COUNT update, branches, delay slots and the flag handed from segment to segment |
| SuperBlocks, DelaySlotRuns, ExtendedRuns, DelaySlotLimits | runs of whole super blocks |
| Tlb, TlbTranslation | the page tables of the translation lookaside buffer, and the translation they give |

The main results, in the order of difficulty:

- the lists Translate_Branch leaves for the segments of a super block do what the MIPS program does,
  over every run and every sequence of branch outcomes, internal loops included, with every delay
  slot run once: branches follow the addresses found for them, and what is asked of a run is stated
  for the places it gets to (`DelaySlotRuns.BlockRefinesMips`); cutting, mapping and emitting a block
  gives the segments, lists and addresses this rests on (`SuperBlocks.SupportedIsSegmented`,
  `SuperBlockEmission.CompileAndEmit`, `SuperBlockTranslation.CompileAndTranslate`), and whole families of blocks meet the rest
  (`ExtendedRuns.ExtendedRunIsTame`);
- linear-scan allocation and register caching preserve meaning, for every meaning of the
  instructions (`AllocationCorrectness.AllocationPreservesRuns`,
  `RegisterCaching.CachingRefinesMemory`); allocation finishes if and only if fewer than seven registers
  are in use behind each instruction (`AllocationSuccess.AllocationSucceeds`), and with the first word of a
  segment skipped caching is right if and only if nothing loaded for it is read behind it
  (`SkippedCaching.SkippingIsRightExactly`);
- a lowered program is one the caching passes are right on, and lowered, cached and cleaned up it leaves
  the MIPS registers in the register file (`LoweredCaching.LoweredIsCacheable`,
  `LoweredCachingRuns.CachedRunRefinesMips`, `CleanUpMeaning.CleanedRunRefinesMips`);
- the 64-bit lowerings compute the MIPS result exactly under a stated condition on operands and
  registers, one by one and over whole programs (`LoweringRefinement.LoweringRefinesMips`,
  `Multiplication.DmultIsCorrect`, `LoweringRuns.LoweredRunRefinesMips`);
- deleting no-ops erases exactly the no-op steps from every run, leaves none, keeps what every list with
  branches ends in, and leaves every branch resolvable (`CleanUp.RunsAreErased`, `CleanUp.NoOtherRuns`,
  `CleanUpMeaning.CleanedEndsAlike`, `InterCode.CleanedBranchReachesTarget`);
- the segments form a partition exactly when no branch target wraps, begin exactly at the words control
  flow and loops say, the map leads each word to its segment, and deletion takes away exactly a prefix
  (`Segments.PiecesArePartition`, `SegmentStarts.PiecesBeginExactly`, `SegmentChain.CompileCodeAt`,
  `SegmentDeletion.DeleteFromFreshChain`);
- the chain is emitted back to back, a branch reaches its target exactly if that is the first word of
  an earlier segment, fall-through is physical, and literals resolve in the emitted words
  (`ChainEmission.EmitChain`, `BranchTargets.BranchReachesTarget`, `Emission.BlockFallsThrough`,
  `Emission.LocalLiteralsResolve`, `Literals.GlobalLiteralsKeepResolving`);
- the page tables equal a scan of the mapped entries, and an address is translated as the entry that
  holds it says, or not at all (`Tlb.TablesAgreeWithEntries`, `TlbTranslation.ServedAddress`,
  `.MissedAddress`);
- a segment advances COUNT by the number of its instructions and calls the interrupt handler if COUNT is
  not negative, under a stated condition on its reads of COUNT (`CountRuns.UpdateRuns`,
  `CountRuns.CountIsConserved`).

## Where the code and its purpose differ

The model keeps the code as it is. Each of these is proved by the member named.

- A register written again without being read in between, or a branch inside the segment, can make
  the allocator give one host register to two live registers (`AllocationLimits.MeaningIsLost`, two
  such lists; that every such list is affected is not claimed).
- The flag register R5 is in the allocator's pool, and a segment in front of an internal loop does
  not mention it behind its test: it can be given away and the flag lost (`AllocationFlag.FlagIsLost`,
  and `AllocationCorrectness.KeptIsNotGiven` for when it is not; that it is given away in all other
  cases is not claimed).
- Loads put in front of the first word of a SANDWICH or END segment are skipped with it when the flag is
  set, although the registers count as loaded behind it (`SkippedCaching.SkippingIsRightExactly`,
  `.SkippedLoadIsLost`).
- The upper half of a coprocessor register shares its word with the next numbered one
  (`RegisterCaching.OffsetsCollide`).
- DSRA with destination and source equal reads a half it has overwritten; DSRL32 and DSRA32 by 0
  shift by 64; DSLL, DSRL and DSRA by 0 cannot be emitted (`LoweringRefinement.LoweringRefinesMips`,
  `.OverwrittenSourceIsNotExact`, `.ZeroShiftIsNotEmitted`).
- ANDI, ORI and XORI take one step for constants the encoder refuses
  (`LoweringRefinement.LogicImmediatesFit`; for whole programs, `LoweredConstants.ProgramImmediatesFit`).
- DMULTU can lose a carry into the top word, and DMULT negates wrongly when a low word is zero
  (`Multiplication.CarryCanBeLost`, `.DmultuIsExact`, `.DmultIsCorrect`).
- BLTZ, BGEZ, BLEZ and BGTZ compare the low words as signed numbers and are decided wrongly on some
  64-bit values (`BranchConditions.BranchIsDecidedRightly`).
- A likely branch with a no-op in its delay slot is always taken
  (`DelaySlotLimits.LikelyWithNopIsAlwaysTaken`).
- The segment in front of an internal loop does not clear the flag it was entered with, so that the
  first word of the loop is skipped exactly if the flag was set
  (`DelaySlotRuns.LoopWordIsSkipped`).
- A branch into the middle of an earlier segment enters that segment's first word
  (`BranchTargets.BranchReachesTarget`, `.BranchIntoMiddle`), and a J whose delay slot is the last
  word of a region of 2^28 bytes is looked up in the next region (`BranchTargets.JumpKeepsRegion`).
- COUNT is updated wrongly by segments from 2^16 instructions, and the pass runs off the end of a
  segment of several words without a branch, as one in front of an internal loop is
  (`CountRegister.UpdateIsRight`, `.CountedExactly`). Behind a second read of COUNT in one segment it is
  too far on, because the additions start from the head of the segment again (`CountRuns.ReadIsUpToDate`).
- Allocation aborts where seven registers are in use at once, since the code that would save one ends in
  an abort (`AllocationSuccess.AllocationSucceeds`).
- If the first branch of a super block leads back to its first word, an empty segment is made in
  front of the others (`Segments.FirstWordLoop`, `.FirstWordLoopExample`); a branch further back
  makes segments that overlap or leave words out (`Segments.PiecesArePartition`).
- The segment recorded for a branch is looked up at the start of the branching segment plus the
  offset, although the offset counts from its end (`Segments.RecordedTargetIsOff`).
- Deleting a segment that has a predecessor reads the predecessor after it has been freed
  (`SegmentDeletion.DeleteFromFreshChain`).
- The offset returned for a value that is already in a segment's literals is 4 too large, a zero
  literal is handed a slot that the next value overwrites, and slot 1024 is out of reach of a load
  (`Literals.LocalOffsetIsRight`, `Emission.RepeatedValueMisses`, `Literals.ZeroLiteralIsLost`,
  `Emission.GlobalAccessReachesSlot`).
- Deleting the head of a list leaves branches to it dangling (`CleanUp.BranchesStayInside`).
- `tlb_unmap` clears pages `tlb_map` would not have entered, and both loop forever on an end above
  the last page (`Tlb.UnmapUndoesMap`, `Tlb.LoopTerminates`).

## Model

| member | source | states |
|---|---|---|
| AllocationCorrectness.AllocationPreservesRuns | Translations/Registers.c:430-559 | for straight-line code of any length with registers in define-use order, if allocation does not abort: after any number of instructions the renamed list and the original are in the same world, every lasting register is in its home, and every pool register the code names itself, such as the flag, holds its value while it is mentioned further on, and to the end unless it can be given away; for every meaning of the instructions |
| AllocationCorrectness.AllocationIsDisjoint | Translations/Registers.c:390-559 | the result is the input renamed throughout by one map, t0-t3 going to h0-h3 and all others into the pool, and an instruction never writes a register whose host register holds a value still needed |
| AllocationCorrectness.StretchAgrees | Translations/Registers.c:430-559 | from agreeing register files, every stretch of the original and of the renamed list ends in agreeing states |
| AllocationCorrectness.KeptIsNotGiven | Translations/Registers.c:430-559 | a pool register the code names is given to no other register if none is mentioned for the first time from its last mention on |
| AllocationCorrectness.StepAgrees | Translations/Registers.c:430-559 | one renamed instruction keeps the register files in agreement on all registers still live |
| AllocationCorrectness.VisitFieldKeeps | Translations/Registers.c:484-559 | renaming one register field keeps the invariant: code renamed by the map so far, sharers disjoint, next candidate free |
| AllocationCorrectness.ProbeIsUnused | Translations/Registers.c:390-417 | the register the round-robin search settles on occurs in no later instruction |
| AllocationCorrectness.UnusedIsUnread | Translations/Registers.c:103-124 | when the scan reports no further use, the register does not occur again, provided its last occurrence is a read and each unconditional overwrite reads it |
| AllocationSuccess.NextUseExactly | Translations/Registers.c:103-124 | the scan gives the distance to the next read if there is one with no branch and no unconditional write in front of it, but for a write in the very next instruction, and otherwise something negative |
| AllocationSuccess.ProbeFails | Translations/Registers.c:390-417 | the search fails if and only if every register of the pool is used again |
| AllocationSuccess.ProbeIsFirst | Translations/Registers.c:390-417 | otherwise it settles on the first register from the given one on, counted round the table, that is not |
| AllocationSuccess.AllocationSucceeds | Translations/Registers.c:430-559 | on straight-line code with registers in define-use order the pass finishes if and only if fewer than seven registers are in use behind each instruction: pool registers the code names and others defined so far, mentioned later |
| AllocationExample.RegistersAreKeptApart | Translations/Registers.c:430-559 | a list in the domain of the preservation result, and what allocation gives for it: two registers in use at once end in different host registers |
| AllocationLimits.SharesOneRegister | Translations/Registers.c:103-124 | for a list with an unread overwrite, or with an internal branch, two live registers get the same host register |
| AllocationLimits.MeaningIsLost | Translations/Registers.c:103-124 | on those two lists allocation changes what the program stores |
| AllocationFlag.FlagIsGivenAway | Translations/Registers.c:390-417 | what allocation gives for the code in front of a loop: its second register gets the flag register |
| AllocationFlag.FlagIsLost | Translations/Registers.c:390-417 | on that code the flag register is not kept, and holds another register's value at the end, where the original leaves it alone |
| RegisterCaching.OffsetsCollide | Translations/Registers.c:69-90 | two emulated registers share a word of the register file if and only if one is the upper half of a coprocessor register and the other is numbered one above its lower half |
| RegisterCaching.CachingSimulates | Translations/Registers.c:218-655 | with any set of registers already cached, the translated list of cacheable code ends with the same world, host registers and memory as the original run directly on memory; a register may be written under opposite conditions by two instructions in a row |
| RegisterCaching.CachingRefinesMemory | Translations/Registers.c:218-655 | after both passes the whole register file in memory, the rest of memory, the host registers and the world are those of the original run on memory |
| RegisterCaching.FirstKeeps | Translations/Registers.c:218-655 | loads, instruction and stores of one step keep cache and memory related, memory being behind only for registers written again later |
| RegisterCaching.SecondDestinationIsLost | Translations/Registers.c:598-655 | the condition on second destinations cannot be dropped in general: one that is read again and not written again is never stored (no lowered program has one, LoweredCaching.LoweredIsCacheable) |
| CachedOnce.LoadedOnce | Translations/Registers.c:218-337 | a register of the file is loaded exactly once if it is read before it is written, and otherwise not at all |
| CachedOnce.NextUpdatedExactly | Translations/Registers.c:126-139 | the search for the next update succeeds if and only if an unconditional instruction further on names the register as a destination |
| CachedOnce.StoresAreLast | Translations/Registers.c:598-655 | no store put in is followed by an unconditional write of its register |
| SkippedCaching.TranslatedInParts | Translations/Registers.c:218-655 | both passes keep the flag test and the branch over the first word; the branch leads in front of the loads of the second word, behind all loads and stores of the first |
| SkippedCaching.SkippingIsRight | Translations/Registers.c:218-655 | with the first word skipped, the rest of the translated list does what the original rest does on memory, for every meaning, if no register the first word mentions is read behind it before it is written |
| SkippedCaching.SkippingIsWrong | Translations/Registers.c:218-337 | where one is, there are a meaning and a state for which the two end in different worlds |
| SkippedCaching.SkippingIsRightExactly | Translations/Registers.c:218-655 | the rest is right for all meanings and states if and only if no register the skipped word mentions is read behind it before it is written |
| SkippedCaching.SkippedLoadIsLost | Translations/Registers.c:240-258 | two copies of one register: with the first one skipped the second copies what the host register happens to hold |
| LoweredCaching.LoweredIsCacheable | Translations/ALU.c:595-1389 | the lowering of any program of supported instructions is cacheable: its registers have words of their own, a conditionally written register has a value, a second destination read again is written again |
| LoweredCachingRuns.CachedRunRefinesMips | Translations/ALU.c:595-1389 | lowered, with loads and stores of cached registers put in, and run, a program leaves in the register file exactly what the MIPS program leaves in its registers, HI and LO |
| LoweredConstants.ProgramImmediatesFit | Translations/ALU.c:1318-1389 | the encoder accepts every constant of a lowered program if and only if it does those of its ANDI, ORI and XORI instructions |
| Registers.FindRegNextUsedAgain | Translations/Registers.c:103-124 | the loop returns the distance, or the reason it stopped, that the specification gives for the rest of the list |
| Registers.UpdateRegWithReg | Translations/Registers.c:141-195 | from the given node on every occurrence of one register is replaced by the other; nothing else in the list changes |
| Registers.GetNextRegister | Translations/Registers.c:390-417 | the loop returns the index, or the failure, of the specified search (AllocationSuccess.ProbeFails, .ProbeIsFirst) |
| Registers.TranslateField | Translations/Registers.c:484-559 | one register field is handled as specified: renamed in the whole rest of the list, or the pass aborts |
| Registers.TranslateIns | Translations/Registers.c:430-559 | the six fields of an instruction, in the order of the code, are handled as specified |
| Registers.TranslateRegisters | Translations/Registers.c:430-559 | the pass on the linked list renames in place to exactly the specified list and keeps all nodes, or aborts exactly when specified |
| Registers.LoadSources | Translations/Registers.c:218-337 | the loads put in front of one instruction, in order, and the registers marked loaded |
| Registers.LoadStep | Translations/Registers.c:218-337 | one round of the loop keeps done part plus specified rest equal to the specified result |
| Registers.TranslateLoadCachedRegisters | Translations/Registers.c:218-337 | the pass leaves exactly the specified list, whatever the input |
| Registers.FindRegNextUpdated | Translations/Registers.c:126-139 | the search answers whether an unconditional instruction further on names the register as a destination |
| Registers.StoreFirst | Translations/Registers.c:598-655 | a store of the first destination is inserted exactly when it is emulated, not just loaded and not updated again |
| Registers.StoreSecond | Translations/Registers.c:598-655 | a store of the second destination is inserted exactly when it is emulated, not just loaded and the scan finds no later use |
| Registers.TranslateStoreCachedRegisters | Translations/Registers.c:598-655 | the pass leaves exactly the specified list, whatever the input |
| Ir.InstrList.InsertAfter | Translations/Translate.h:38-40 | a new node is linked in behind the given one: node and instruction sequences grow by one in that place and nothing else changes |
| Ir.InstrList.InsertAllAfter | Translations/Translate.h:38-40 | a run of insertions puts exactly the given instructions behind the given node, in order |
| LoweringCorrectness.AdderHalves | Translations/ALU.c:928-957 | for all operand halves, the two-instruction carry chain gives the 64-bit sum or difference modulo 2^64, and its overflow flag the signed 64-bit overflow |
| LoweringCorrectness.WrappingIsCorrect | Translations/ALU.c:950-957 | DADDU and DSUBU: the destination holds the wrapped 64-bit result, all other registers but the scratch ones unchanged, for all register choices |
| LoweringCorrectness.TrappingIsCorrect | Translations/ALU.c:928-949 | DADD and DSUB: as the wrapping forms when the signed result fits 64 bits, and the destination unchanged exactly when it does not |
| LoweringCorrectness.LogicIsCorrect | Translations/ALU.c:881-903 | AND, OR, XOR: the 64-bit bitwise result for all register choices |
| LoweringCorrectness.DsllIsCorrect | Translations/ALU.c:966-988 | DSLL by 1 to 31: the value times 2^n modulo 2^64 |
| LoweringCorrectness.DsrlIsCorrect | Translations/ALU.c:989-1010 | DSRL by 1 to 31: the value divided by 2^n |
| LoweringCorrectness.DsraIsCorrect | Translations/ALU.c:1011-1028 | DSRA by 1 to 31: the signed quotient, if and only if the incoming bits taken from the high word are the original ones |
| LoweringCorrectness.Dsll32IsCorrect | Translations/ALU.c:1029-1038 | DSLL32: the value times 2^(n+32) modulo 2^64, for n from 0 |
| LoweringCorrectness.Dsrl32IsCorrect | Translations/ALU.c:1039-1048 | DSRL32: the quotient by 2^(n+32), if and only if n is not 0 or the high word is 0 |
| LoweringCorrectness.Dsra32IsCorrect | Translations/ALU.c:1049-1061 | DSRA32: the signed quotient by 2^(n+32), if and only if n is not 0 or the high word is all zeros or all ones |
| LoweringCorrectness.AndiIsCorrect | Translations/ALU.c:1318-1344 | ANDI, in one step or three: the 64-bit AND with the zero-extended constant |
| LoweringCorrectness.ImmediateIsCorrect | Translations/ALU.c:1345-1389 | ORI and XORI, in one step or two: the 64-bit result with the zero-extended constant |
| LoweringRefinement.LoweringRefinesMips | Translations/ALU.c:881-1389 | for every modelled operation, all register values and all register choices: the emitted sequence computes the MIPS result in the destination and changes no other emulated register, if and only if a stated condition on high word, shift amount and register equality holds |
| LoweringRefinement.ZeroShiftIsNotEmitted | Translations/ALU.c:966-1028 | DSLL, DSRL, DSRA fit the five-bit shift field if and only if the shift is not 0 |
| LoweringRefinement.OverwrittenSourceIsNotExact | Translations/ALU.c:1015-1027 | an input on which DSRA with equal registers is outside the exact condition |
| LoweringRefinement.LogicImmediatesFit | Translations/ALU.c:1318-1389 | all constants of ANDI, ORI, XORI can be encoded if and only if the constant is below 256, or takes two steps, or has an even first shift or a quotient up to 127 |
| LoweringFlags.LowerAborts | Translations/ALU.c:966-1028 | the pass aborts on an instruction if and only if it is a DSLL, DSRL or DSRA whose shift does not fit its field |
| LoweringFlags.FlagsAreKept | Translations/ALU.c:677-1389 | the sequences of the bitwise operations, of DMULTU and of all shifts but DSRA32 leave the ARM flags as they were |
| Multiplication.CrossProductsAreCorrect | Translations/ALU.c:703-721 | the three accumulations: the 128-bit result plus the lost carry times 2^96 is the product |
| Multiplication.NoCarryIsLost | Translations/ALU.c:710-714 | no carry is lost when both operands are below 2^63 |
| Multiplication.CarryCanBeLost | Translations/ALU.c:710-714 | operands of all ones lose one |
| Multiplication.DmultuIsCorrect | Translations/ALU.c:677-722 | for all operands, LO/HI plus lost carry times 2^96 equals the unsigned product, and only product and scratch registers change |
| Multiplication.DmultuIsExact | Translations/ALU.c:677-722 | LO/HI is the product if and only if the middle sum stays below 2^64, which holds for all operands below 2^63 |
| Multiplication.MagnitudeIsExact | Translations/ALU.c:597-626 | the sign step gives the magnitude, less 2^32 for a negative operand with a zero low word; it is below 2^63 |
| Multiplication.FixSignRun | Translations/ALU.c:660-674 | the last five instructions negate the product exactly when the signs of the operands differ, wrongly by 2^32 when its low word is zero |
| Multiplication.DmultValueIsExact | Translations/ALU.c:595-676 | the value computed equals the signed product modulo 2^128 if and only if a stated condition on signs and low words holds |
| Multiplication.DmultIsCorrect | Translations/ALU.c:595-676 | DMULT leaves the two's-complement 128-bit product in LO/HI if and only if that condition holds, and changes only product and scratch registers |
| LoweringRuns.LoweredRunRefinesMips | Translations/ALU.c:136-1389 | for any straight-line program of modelled operations whose shifts fit their field and whose operands meet the exact conditions along the run, lowering succeeds and the ARM run ends in the state of the MIPS run, before the constants are encoded (LoweredConstants.ProgramImmediatesFit) |
| LoweringRuns.LowerStep | Translations/ALU.c:136-160 | the instruction's node is overwritten by the first lowered instruction and the others are linked in behind it; the rest of the list is unchanged |
| LoweringRuns.TranslateAlu | Translations/ALU.c:136-160 | on a list of modelled operations and of opcodes the pass has no case for, it leaves exactly the concatenated lowerings, or aborts exactly when one of them does |
| LoweringRuns.HostCodeStays | Translations/ALU.c:136-160 | ARM instructions, branches inside the segment and no-ops that earlier passes have put in stay as they are |
| Encoding.ComputeImm8Shift | InstructionSets/InstructionSetARM6hf.c:92-107 | the loop returns the specified shift or error |
| Encoding.AluOp2 | InstructionSets/InstructionSetARM6hf.c:40-74 | the loop returns the twelve-bit field, or refuses, as specified |
| Encoding.ImmediateRoundTrip | InstructionSets/InstructionSetARM6hf.c:592-599 | decoding the field of any accepted constant gives the constant back |
| Encoding.AcceptedExactly | InstructionSets/InstructionSetARM6hf.c:40-74 | a constant is accepted if and only if it is b times 4^k with b below 256 and k below 16 |
| Encoding.FieldIsReduced | InstructionSets/InstructionSetARM6hf.c:49-60 | above 255 the byte in the field does not end in a zero bit pair: the constant is shifted as far as it can be |
| Encoding.AcceptedByShift | InstructionSets/InstructionSetARM6hf.c:92-107 | above 255, a constant is accepted if and only if Imm8Shift gives an even shift, or an odd one with a quotient up to 127 |
| Encoding.BranchRoundTrip | InstructionSets/InstructionSetARM6hf.c:142-159 | for all addresses and targets, the decoded branch leads to the target if and only if the distance is a multiple of 4 from -2^25+8 to 2^25+4 |
| Encoding.RelativeRoundTrip | InstructionSets/InstructionSetARM6hf.c:155-159 | a relative branch is decoded to the node it counts to if and only if the count is from -2^23+2 to 2^23+1 |
| CleanUp.FreeKeepsTargets | InstructionSets/InstructionSet.c:790-832 | deleting one node keeps all other instructions in order, and each branch leads to the moved position of its old target or of the successor of the deleted node |
| CleanUp.CleanUpErases | Translations/CleanUp.c:31-72 | the pass keeps exactly the instructions that are not removable, in order, with branches led to the first kept instruction from their old target on |
| CleanUp.BranchesStayInside | Translations/CleanUp.c:31-72 | after the pass every branch target is in the list if and only if no deleted head was a target |
| CleanUp.CleanUpAborts | InstructionSets/InstructionSet.c:818-822 | the pass aborts if and only if a branch leads into a removable tail of the list |
| CleanUp.DanglingToTheEnd | InstructionSets/InstructionSet.c:797-803 | a target that has left the list is never repaired by later deletions |
| CleanUp.RunsAreErased | Translations/CleanUp.c:31-72 | every run of the old list, any number of steps, corresponds to the run of the new one with the no-op steps erased: same position, same world |
| CleanUp.NoOtherRuns | Translations/CleanUp.c:31-72 | conversely every run of the new list is such an erased run of the old one |
| CleanUp.ReachesKept | Translations/CleanUp.c:31-72 | from any position the old list reaches the next kept instruction by no-op steps that change nothing |
| CleanUpMeaning.NothingIdleIsLeft | Translations/CleanUp.c:31-72 | no instruction is left that does nothing: no no-op, no shift into register 0, no LUI, CACHE, SYSCALL, BREAK or SYNC |
| CleanUpMeaning.CleanedEndsAlike | Translations/CleanUp.c:31-72 | for every meaning under which these do nothing, and every list with branches, no deleted head being a target: the cleaned list runs to its end in a state if and only if the list does |
| CleanUpMeaning.CleanedRunRefinesMips | Translations/CleanUp.c:31-72 | lowered, cached, cleaned up and run, a program leaves in the register file what the MIPS program leaves in its registers |
| ListPasses.FindPrevious | InstructionSets/InstructionSet.c:805-824 | the loop finds the predecessor and retargets every branch to the node to its successor, or aborts exactly if there is a branch to the last node |
| ListPasses.Unlink | InstructionSets/InstructionSet.c:805-830 | a node that is not the head is taken out, the rest of the chain unchanged |
| ListPasses.InstrFree | InstructionSets/InstructionSet.c:790-832 | the linked list becomes exactly the specified one, and the successor is returned |
| ListPasses.TranslateCleanUp | Translations/CleanUp.c:22-72 | the pass on the linked list leaves exactly the specified list, or aborts exactly when specified |
| ListPasses.FindInstructionIndex | Translations/Branching.c:71-83 | the position of the node, or the length of the list if it is absent or null |
| ListPasses.ResolveStep | Translations/Branching.c:97-121 | one instruction is resolved against the positions of the whole list |
| ListPasses.TranslateInterCodeBranch | Translations/Branching.c:85-129 | every branch of the list is resolved, all nodes stay |
| InterCode.BranchReachesTarget | Translations/Branching.c:97-106 | the resolved and encoded branch lands on the address of its target node if and only if the count fits the field |
| InterCode.LinkHoldsTarget | Translations/Branching.c:107-121 | the resolved link-register instruction leaves the address of the target node in LR, for targets in front and behind |
| InterCode.CleanedBranchReachesTarget | Translations/CleanUp.c:31-72 | after deletion, resolution and encoding, a branch lands on the first kept instruction from its old target on |
| InterCode.OthersAreNotResolved | Translations/Branching.c:85-129 | instructions other than branches inside the segment and those that set the link register stay, and these keep their condition and destinations |
| Segments.BlockLength | Recompiler/CodeSegments.c:234-251 | the scan stops at the first unlinked jump, with no stop before it, or gives nothing at an invalid word |
| SegmentStarts.BlockLengthExactly | Recompiler/CodeSegments.c:234-251 | the length found is n if and only if word n - 1 is the first unlinked jump and no word up to it is invalid |
| Segments.CutFromCovers | Recompiler/CodeSegments.c:275-414 | from any word on, the segments cut cover the rest exactly if and only if no branch behind has x + offset below 0 |
| Segments.CutIsPartition | Recompiler/CodeSegments.c:272-414 | the segments are non-empty, contiguous and cover the super block if and only if no branch has x + offset below 0 |
| Segments.PiecesArePartition | Recompiler/CodeSegments.c:272-414 | without an empty first segment, the segments are a partition if and only if no branch has x + offset below 0, but for a first branch back to the first word |
| Segments.FirstWordLoop | Recompiler/CodeSegments.c:327-369 | a first branch back to the first word makes an empty START segment in front, then the loop as a SANDWICH one |
| Segments.FirstWordLoopExample | Recompiler/CodeSegments.c:327-369 | what is cut from a loop of two words with a jump behind it |
| Segments.SegmentsAreSound | Recompiler/CodeSegments.c:302-369 | every segment has control flow in its last word at most, the right type for its place, a branch into itself leads to its first word, and where its branch leads is recorded exactly unless it is a loop cut off from the words in front of it |
| Segments.PiecesAreSound | Recompiler/CodeSegments.c:302-369 | the same for the segments that are not empty, but that the loop at the front is a SANDWICH segment |
| Segments.PiecesHaveWords | Recompiler/CodeSegments.c:327-414 | where delay slots are plain words, each segment has a word in front of its branch, or is one in front of a loop and followed by it |
| Segments.RecordedTargetIsOff | Recompiler/CodeSegments.c:386-396 | the word looked up for a branch out of a segment is off from its target by the length of the segment |
| Segments.PieceAtIsUnique | Recompiler/CodeSegments.c:272-414 | each word of the super block belongs to exactly one segment |
| SegmentStarts.PiecesBeginExactly | Recompiler/CodeSegments.c:272-414 | a segment begins at a word if and only if it is the first, or follows a word of control flow, or is where a branch leads back to with only plain words from the one in front of it to the branch |
| SegmentMap.MemState.constructor | Recompiler/mem_state_full.c:40-55 | a fresh map that leads nowhere at every address |
| SegmentMap.MemState.GetSegmentAt | Recompiler/mem_state_full.c:75-90 | the entry of the first block that contains the address, or null |
| SegmentMap.MemState.SetMemState | Recompiler/mem_state_full.c:92-128 | exactly the given number of entries from that of the address on are set, all others kept; it aborts exactly for an address in no block |
| SegmentChain.Link | Recompiler/callers.c:103-129 | the predecessor continues into the segment and is appended to its callers; nothing else changes |
| SegmentChain.ScanBlock | Recompiler/CodeSegments.c:234-251 | the loop computes the specified length |
| SegmentChain.AddBranching | Recompiler/CodeSegments.c:370-414 | a segment that branches away is chained and mapped, and what the map then says about the looked-up word is recorded |
| SegmentChain.AddPiece | Recompiler/CodeSegments.c:279-414 | adding a segment extends chain, map and recorded branches by exactly the next piece |
| SegmentChain.CutAt | Recompiler/CodeSegments.c:279-414 | the one or two segments made at a jump or branch, in the order of the code |
| SegmentChain.MakeSegments | Recompiler/CodeSegments.c:275-414 | the loop builds the specified chain and maps every word of the super block and no other |
| SegmentChain.OutsideIsUnchanged | Recompiler/CodeSegments.c:272-414 | words outside the part cut so far, within reach of a branch, look up as before |
| SegmentChain.TranslateChain | Recompiler/CodeSegments.c:416-436 | following pContinueNext from a segment of the chain visits every segment from it on once, in address order |
| SegmentChain.CompileCodeAt | Recompiler/CodeSegments.c:224-439 | for an empty range of the map: the chain of segments with callers, every word led to its segment and no other word to one of them, the map unchanged elsewhere, and the translation order of the segments that are not empty, or nothing for a length of 0 |
| SegmentDeletion.DelSegment | Recompiler/CodeSegments.c:155-208 | the recursion ends, frees exactly the segments down to the first one its predecessor branches to, clears exactly their words and that branch's record, and reads a freed segment if and only if it recursed |
| SegmentDeletion.LowestExactly | Recompiler/CodeSegments.c:174-196 | deletion goes down to a segment its predecessor branches to, or to the first one, and no segment above that is branched to by its predecessor |
| SegmentDeletion.FreshGoesToStart | Recompiler/CodeSegments.c:155-208 | if no predecessor branches to its successor, deletion goes down to the first segment |
| SegmentDeletion.CutIsContiguous | Recompiler/CodeSegments.c:272-414 | the segments follow one another from word 0, and only the first can be empty |
| SegmentDeletion.DeleteFromFreshChain | Recompiler/CodeSegments.c:155-208 | deleting segment k of a freshly built chain frees exactly segments 0 to k and takes exactly them out of the map; it reads a freed segment if and only if k is not 0 |
| SegmentDeletion.AfterDeletion | Recompiler/CodeSegments.c:201-203 | with the words up to the end of segment k cleared, those words look up nothing and later words their segments |
| Literals.AddKeepsPool | Recompiler/literals.c:71-137 | adding a non-zero literal keeps global slots distinct and non-zero up to the count and zero beyond it, keeps all old slots, and a global result holds the value |
| Literals.PoolOnlyGrows | Recompiler/literals.c:71-137 | over any sequence of additions the invariant holds and old slots keep their values |
| Literals.GlobalLiteralsKeepResolving | Recompiler/literals.c:77-106 | every global slot ever returned still holds its value after any later additions |
| Literals.ZeroLiteralIsLost | Recompiler/literals.c:77-84 | a zero literal gets the unused next slot without counting it, and the next new value overwrites it |
| Literals.LocalOffsetIsRight | Recompiler/literals.c:107-135 | the offset returned for a local literal holds the value if and only if the value was not in the list before |
| Literals.DistinctValuesStayInOrder | Recompiler/literals.c:107-135 | pairwise distinct values are appended in order, the j-th at offset 4j |
| Literals.AddLiteralExactly | Recompiler/literals.c:71-137 | addLiteral aborts if and only if the value is not in the pool, the segment cannot hold literals and the pool is full; a value in the pool stays there, another of such a segment goes to the next slot, and any other to the segment |
| Emission.AccessHitsLiteral | Translations/Literals.c:58-79 | the displaced load reads the word of its literal if and only if the displacement fits twelve bits and, for END, is not negative |
| Emission.LiteralIsEmitted | InstructionSets/InstructionSetARM6hf.c:831-874 | the word emitted at a literal's place is the literal |
| Emission.CodeIsEmitted | InstructionSets/InstructionSetARM6hf.c:831-874 | instruction i is emitted at its address and encoded for it |
| Emission.OthersAreNotDisplaced | Translations/Literals.c:40-87 | only loads and stores of literals change, and of these only the displacement and its sign |
| Emission.LocalLiteralsResolve | Translations/Literals.c:40-87 | for START, ALONE and END segments with pairwise distinct literals within reach, a load reads the value given when its literal was added |
| Emission.GlobalAccessReachesSlot | Translations/Literals.c:60-63 | with either sign of the offset, a load from a global slot reaches it if and only if the slot is below 1024 |
| Emission.RepeatedValueMisses | Recompiler/literals.c:107-128 | for a value added twice the second load reads the next literal, or the first instruction |
| Emission.RegionsDoNotOverlap | InstructionSets/InstructionSetARM6hf.c:806-875 | entry, code and end of one segment lie in front of what is emitted for later ones; ChainEmission.EmitChain ties these addresses to the buffer |
| Emission.EmittedAllLength | InstructionSets/InstructionSetARM6hf.c:806-875 | a segment begins where the words emitted for the ones before it end |
| Emission.FallThroughIsPhysical | InstructionSets/InstructionSetARM6hf.c:831-874 | a segment's code ends at the entry of its successor if and only if neither trailing nor leading literals lie between |
| Emission.BlockFallsThrough | Recompiler/CodeSegments.c:402-436 | in a super block without linking jumps, every segment's code ends where its successor's entry point is, whatever code and literals the segments have |
| LiteralPasses.AddLiteral | Recompiler/literals.c:71-137 | table, count, the segment's list and the returned place are as specified, or it aborts exactly when specified |
| LiteralPasses.AddToSegment | Recompiler/literals.c:107-135 | the search and append on the segment's own list return the specified list and offset |
| LiteralPasses.TranslateLiterals | Translations/Literals.c:25-87 | every literal load and store of the list is displaced as specified, in place |
| LiteralPasses.EmitArmCode | InstructionSets/InstructionSetARM6hf.c:806-875 | the buffer is extended by exactly leading literals, encoded instructions and trailing literals, and the entry point is the first instruction |
| ChainEmission.EmitSegment | InstructionSets/InstructionSetARM6hf.c:806-875 | one segment is emitted behind the words written so far, which are kept, and its entry point is set to its first instruction |
| ChainEmission.EmitChain | Recompiler/CodeSegments.c:416-436 | the segments, emitted in translation order, fill the buffer back to back from where it stood; each entry point is the specified one; and the address found for a branch is the entry point of an earlier segment, that of the code for unknown branches for a later one, and otherwise what the map led to before |
| ChainEmission.ChainHasLayout | Translations/Branching.c:28-69 | entry points and branch addresses of an emitted chain are a layout of its block: entry points differ, branches into the block have the entry point of the earlier segment that holds their target, branches out of it have none |
| BranchTargets.GetTgtAddress | Translations/Branching.c:28-69 | the address is the entry point of the segment the map gives for the target, if it has one, else that of the code for unknown branches |
| BranchTargets.OffsetLeadsToTarget | Translations/Branching.c:30 | a branch is looked up at its MIPS target as long as that is in the address space |
| BranchTargets.JumpKeepsRegion | Translations/Branching.c:50-53 | J is looked up at its MIPS target if and only if its delay slot is not the last word of a region of 2^28 bytes |
| BranchTargets.BranchReachesTarget | Translations/Branching.c:28-48 | the address in a branch enters its target word if and only if that is the first word of an earlier segment; inside an earlier segment it enters that segment's first word, and otherwise no segment of the block |
| BranchTargets.IntoMiddleIsCut | Recompiler/CodeSegments.c:272-414 | how a block with a branch into the middle of its first segment is cut |
| BranchTargets.BranchIntoMiddle | Translations/Branching.c:28-48 | on that block the branch to word 1 enters word 0 |
| SuperBlockEmission.OrderIsPieces | Recompiler/CodeSegments.c:416-436 | the segments CompileCodeAt translates are the pieces of the partition, in order |
| SuperBlockEmission.LeapsSayWhere | Translations/Branching.c:28-53 | what the words of a supported block say about where they lead, looked up as the code does, is where the MIPS program goes: for every branch, and for the J unless its delay slot ends a region |
| SuperBlockEmission.CompileBlock | Recompiler/CodeSegments.c:224-439 | the segments of the block, mapped, not emitted yet, and what the map gives for each branch: the segment of the block that holds its target, or one emitted before |
| SuperBlockEmission.CompileAndEmit | Recompiler/CodeSegments.c:224-439 | cutting, mapping and emitting a supported block, whatever the finished lists are, fills the buffer back to back and leaves entry points and branch addresses that are a layout of the block |
| SegmentTranslation.CountedList | Translations/CountReg.c:30-124 | the list of a segment's words after the COUNT pass |
| SegmentTranslation.TranslateFront | Translations/Branching.c:172-193 | Translate_Branch on the list of a segment in front of a loop puts the test and the skip in front and finds no branch |
| SegmentTranslation.TranslateBranching | Translations/Branching.c:145-493 | from the words of a segment through both passes: the specified list, with the address found at that time in its branch and the literal addLiteral added; it fails exactly where addLiteral does |
| SuperBlockTranslation.TranslateOne | Translations/Branching.c:145-493 | the same for any segment of a block, looping exactly where the block's branch leads back to its own segment, and adding a literal exactly if the segment leaves by its branch |
| SuperBlockTranslation.LiteralIsThere | Recompiler/literals.c:71-137 | the address of a segment that leaves by its branch is in the slot of the pool, or at the offset in the segment's own literals, that its list loads R0 from |
| SuperBlockTranslation.TranslateAll | Recompiler/CodeSegments.c:416-436 | each segment's list is made, gets its address and its literal, and is emitted with its literals behind the ones before it, so that later look-ups find it; it stops at the first segment for which addLiteral aborts |
| SuperBlockTranslation.CompileAndTranslate | Recompiler/CodeSegments.c:224-439 | from the words of a supported block to the buffer: what is emitted for each segment is exactly the list BlockRefinesMips is about, with the literal addLiteral gave it and the address its branch goes by, and these addresses are a layout of the block; or it stops at the segment for which addLiteral aborts |
| Tlb.TablesAgreeWithEntries | tlb.c:37-91 | after any sequence of maps and unmaps of disjoint entries, the table for reads, or for writes, equals a scan of the entries mapped at the end, at every page |
| Tlb.UnmapUndoesMap | tlb.c:37-91 | unmap after map restores the table if and only if the pages it clears were empty |
| Tlb.LoopTerminates | tlb.c:37-91 | the loop over a range ends if and only if the index can step past the end without wrapping |
| Tlb.ScanOfCovered | tlb.c:60-91 | at a page of an entry the scan gives that entry's value if it is mapped and enterable, else nothing |
| Tlb.Tables.FillPages | tlb.c:70-74 | the loop enters the specified value at exactly the pages of the range |
| Tlb.Tables.ClearPages | tlb.c:43-47 | the loop clears exactly the pages of the range |
| Tlb.Tables.TlbMap | tlb.c:60-91 | both tables become the specified ones, for valid and dirty halves |
| Tlb.Tables.TlbUnmap | tlb.c:37-58 | both tables become the specified ones |
| TlbTranslation.PageTranslates | tlb.c:70-71 | for a half of whole pages, the entry of a page leads every address of it to 0x80000000 plus its physical address, if and only if that does not run past the segment |
| TlbTranslation.ServedAddress | tlb.c:37-91 | after any run of maps and unmaps, an address in a mapped half that is valid, dirty for writes, outside the unmapped segments and below the physical limit is translated as the half says |
| TlbTranslation.MissedAddress | tlb.c:37-91 | any other address is not translated |
| BranchConditions.CompareRun | Translations/Branching.c:203-455 | the two comparisons set the flags of the high words, or of the low words where the condition asks for them, and change no register |
| BranchConditions.FlagsDecide | Translations/Branching.c:203-1342 | for all register halves, the condition after the comparisons equals the MIPS condition if and only if the words are as required |
| BranchConditions.BranchIsDecidedRightly | Translations/Branching.c:203-1342 | the ARM branch is taken exactly when the MIPS branch is, if and only if a stated condition on the two words of the register holds; it always holds for BEQ, BNE, BEQL, BNEL |
| DelaySlots.PassJump | Translations/Branching.c:460-493 | the end of a J segment runs the delay slot once and leaves with the flag clear, with the segment's literal in R0 and the address of its branch in R1 |
| DelaySlots.PassConditional | Translations/Branching.c:203-263 | the end of a conditional segment runs the delay slot once, then leaves with the flag clear and the two arguments in R0 and R1, or goes back to the head of the list if it loops, or falls through with the flag set |
| DelaySlots.PassLikely | Translations/Branching.c:264-331 | the end of a likely segment runs a delay slot that is not a no-op only if the branch is taken, and leaves, loops or falls through in the same way |
| DelaySlots.PassSegment | Translations/Branching.c:145-493 | a pass through a segment, every instruction reading and writing the registers it names under its condition, runs the segment's instructions, without the first exactly when the flag is set on entry, then the delay slot, and hands on the flag; a taken self-loop goes to the head of the list, any other taken branch leaves with the literal in R0 and the branch's address in R1 |
| DelaySlots.PassFront | Translations/Branching.c:174-186 | the code of a segment in front of an internal loop tests the flag register and runs its instructions, without the first exactly when the flag is set, and leaves the flag as it was |
| CountRegister.CountedExactly | Translations/CountReg.c:85-97 | for a segment that does not read COUNT the pass ends if and only if there is one instruction or a branch behind the first one |
| CountRegister.UpdateBeforeBranch | Translations/CountReg.c:85-119 | the update is put directly in front of the branch, so that at least two instructions are in front of it |
| CountRegister.UpdateBehindWord | Translations/CountReg.c:85-119 | a segment of one instruction gets the update behind it |
| CountRegister.UpdateIsRight | Translations/CountReg.c:105-113 | what the update adds is the number of instructions if and only if that is below 2^16 |
| CountRegister.UpdateReads | Translations/CountReg.c:52-79 | behind each instruction that reads COUNT the number of instructions so far is added, in place, and subtracted from what remains |
| CountRegister.FindLast | Translations/CountReg.c:90-97 | the loop ends in front of the first branch behind the head, or runs off the end of the list exactly if there is none |
| CountRegister.TranslateCountRegister | Translations/CountReg.c:30-124 | the pass leaves exactly the specified list, or runs off its end exactly when specified |
| CountRuns.UpdateRuns | Translations/CountReg.c:100-119 | running the update of n instructions advances COUNT by n modulo 2^16, changes no other register of the program, the link register or the stack, and calls the handler at the literal if and only if the new COUNT is not negative |
| CountRuns.ReadIsUpToDate | Translations/CountReg.c:52-79 | behind an instruction that reads COUNT it has advanced by the number of instructions so far if and only if none in front reads it |
| CountRuns.CountIsConserved | Translations/CountReg.c:30-124 | the code of a segment advances COUNT by the number of its words if and only if what remains after the additions behind reads is below 2^16 |
| CountRuns.UpdateStays | Translations/ALU.c:136-160 | Translate_ALU leaves the update as it is |
| SuperBlocks.SupportedIsSegmented | Recompiler/CodeSegments.c:272-414 | a super block of modelled branches with plain delay slots is cut into a partition whose segments have words in front of their branches and the types that make them skip their first word |
| SuperBlocks.BodyIsCounted | Translations/CountReg.c:85-119 | the list in front of a segment's branch is what the COUNT pass makes of the segment's words, and has at least two instructions |
| DelaySlotRuns.EndAgrees | Translations/Branching.c:203-493 | at a place where code and program decide alike, the end of a segment and the MIPS branch with its delay slot lead to the same world and go the same way |
| DelaySlotRuns.StepMatches | Translations/Branching.c:145-493 | one pass through a segment, with or without a branch at its end, corresponds to a positive number of MIPS steps, and the branch leads to the code of the word the program goes to |
| DelaySlotRuns.BlockRefinesMips | Translations/Branching.c:145-493 | for any number of passes through the segments of a super block, internal loops included, and any branch outcomes, the MIPS program reaches the corresponding place with the same world; branches go to the addresses in them; the flag is clear where a segment is branched to and set where it is fallen into; asked of the run only at the places it gets to: the branch is decided as the program's, leads to no middle of an earlier segment, and falls into no loop whose first word does something |
| DelaySlotLimits.TwoWordSegmentLosesSlot | Translations/Branching.c:174-186 | a list of one instruction and a jump, which the COUNT pass never leaves (SuperBlocks.BodyIsCounted), would have its delay slot skipped |
| DelaySlotLimits.LikelyWithNopIsAlwaysTaken | Translations/Branching.c:264-331 | with a no-op in its delay slot a likely branch is taken whatever it compares |
| DelaySlotRuns.LoopWordIsSkipped | Recompiler/CodeSegments.c:327-369 | entered with the flag set or clear, a segment in front of an internal loop hands it on, and the first word of the loop is skipped exactly if it was set |
| ExtendedRuns.ExtendedIsDecidedAlike | Translations/Branching.c:203-1342 | a branch that tests a sign-extended 32-bit value its delay slot leaves alone is decided alike |
| ExtendedRuns.ExtendedRunIsTame | Translations/Branching.c:203-1342 | if the instructions keep the tested registers sign-extended, delay slots leave them alone and no branch leads into the middle of an earlier segment, every run is one BlockRefinesMips is about |
| ExtendedRuns.LoopBlockIsEnteredInFront | Recompiler/CodeSegments.c:327-369 | a loop closed by BGEZ with a jump behind it is such a block, whatever its instructions, unless the jump leads into its middle |
| BranchOfSegment.FindExit | Translations/Branching.c:203-263 | the self-loop test, the branch address and the literal are what map, entry points and literal pool say at that time |
| BranchOfSegment.TranslateSegmentBranch | Translations/Branching.c:145-493 | Translate_Branch on the list of a segment leaves the specified list with that address and literal, or aborts exactly as addLiteral does |
| BranchPass.SkipFirst | Translations/Branching.c:174-186 | the flag test and the skip are put at the head of SANDWICH and END segments whose first instruction is not a no-op, the skip leading to the second old node |
| BranchPass.FindBranch | Translations/Branching.c:193-203 | the loop stops in front of the first branch it handles |
| BranchPass.InsertSlot | Translations/Branching.c:205-212 | the delay slot is linked in between, moving the positions branches lead to |
| BranchPass.EndJump | Translations/Branching.c:460-493 | the nodes that replace J |
| BranchPass.EndConditional | Translations/Branching.c:203-263 | the nodes that replace a conditional branch, leaving or looping to the head of the list |
| BranchPass.EndLikely | Translations/Branching.c:264-331 | the nodes that replace a likely branch, the skip put in last and leading to the flag-setting node |
| BranchPass.TranslateBranch | Translations/Branching.c:145-493 | the pass turns the list of a segment, with its internal branch pointers, into exactly the specified one, for the address, literal and self-loop test BranchOfSegment.FindExit computes |

## Left out

- AllocationCorrectness.AllocationPreservesRuns: straight-line code only, because an internal branch ends the scan for the next use (AllocationLimits.MeaningIsLost); every prefix of the list is covered, so a branch out of the segment may be taken anywhere. A host register of the pool that the code names itself, as the flag register R5, is allowed where every instruction naming it reads it and the first instruction does not write it.
- RegisterCaching.CachingRefinesMemory: straight-line code (SkippedCaching for the skip of the first word) on registers no two of which share a word; a register conditionally written must have a value before, or be written under the opposite condition by the next instruction, and a second destination that is read again must be written again. Lowered code meets all this (LoweredCaching.LoweredIsCacheable); that the conditions are necessary is not claimed.
- LoweringRuns.LoweredRunRefinesMips: register 0 is an ordinary register, as it is for the lowering; a write to it is not discarded.
- DelaySlotRuns.BlockRefinesMips: about the lists Translate_Branch leaves, before lowering, caching and allocation. Super blocks without JAL/JALR, with plain delay slots, likely branches without a no-op in their slot, and one word in front of each internal loop; no instruction reads COUNT. A branch to a later segment or to the segment itself by J leaves through the code for unknown branches. What an instruction does is a parameter.
- BranchPass.TranslateBranch: whether the first instruction is a no-op is read off the list instead of the MIPS word.
- SegmentChain.CompileCodeAt: starts from a range of the map without segments, and requires that no branch leads to before the first word (Segments.PiecesArePartition), that the super block lies in one block of memory, and that it is not within branch reach of the ends of the address space. The words' classes and offsets are inputs, since the decoding tables are not part of this model.
- SegmentDeletion.DelSegment: free is a mark on the segment; callers that only branch to the segment, and the code invalidateBranch patches, are not modelled.
- SegmentMap.MemState.SetMemState: the leak message is left out, and the range to be set must not run past the end of the address's block.
- SuperBlockEmission.CompileAndEmit: the finished list of each segment is a parameter; SuperBlockTranslation.CompileAndTranslate makes the lists and ties the addresses to their branches.
- SuperBlockTranslation.CompileAndTranslate: the passes between Translate_Branch and the emission are left out, so that the list Translate_Branch leaves is what is emitted; the literal for cc_interrupt is given, and the buffer must have room. A J whose delay slot is the last word of a region is excluded (BranchTargets.JumpKeepsRegion).
- AllocationSuccess.AllocationSucceeds: about the lists AllocationPreservesRuns is about; NextUseExactly, ProbeFails and ProbeIsFirst hold for all lists.
- CountRuns.UpdateRuns: a call of the interrupt handler is recorded and changes the link register only, which the update restores; what the handler does to the program is not modelled.
- LoweringRuns.TranslateAlu: lists with operations the pass lowers and the model does not are excluded.
- CleanUp.RunsAreErased: the removed opcodes are assumed to do nothing when they are run, which CleanUpMeaning proves for the ARM instructions modelled. The pass also deletes LUI, CACHE, SYSCALL, BREAK and SYNC that earlier passes have not translated.
- Literals.GlobalLiteralsKeepResolving: values are not zero and the pool stays below 1024 slots at the end; outside that, Literals.ZeroLiteralIsLost and Emission.GlobalAccessReachesSlot say what happens.
- Emission.LocalLiteralsResolve: the encoding of an instruction is a parameter, and the reach of the load is a precondition, exact by Emission.AccessHitsLiteral.
- Tlb.Tables.TlbMap: requires that the loops end (Tlb.LoopTerminates); addresses are 32-bit words.
- Operations that call C functions, abort or do not compute the MIPS result: DSLLV and other register shifts, NOR, MULT and MULTU, division, the ADDI and SLTI families, traps, floating point, MFHI and MFLO, stores.
- The cases JAL, JR, JALR, the AL forms and the likely forms of the sign tests in Translate_Branch.
- branchUnknown and other self-patching code, return registers, segment timing, the saturating form of the COUNT update, and what cc_interrupt does.
- Segments already in the map when CompileCodeAt starts: the code reads freed objects there and can skip words.
- Decoding of MIPS words, the remaining ARM encodings, the debugger, signal handlers, memory mapping, ROM loading and cache flushing.
