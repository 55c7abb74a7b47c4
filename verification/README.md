# A verified model of the BPF backend

The repository is an LLVM 3.2–3.4 code generator for 64-bit BPF.  This project models the parts of it that
must preserve the meaning of programs, in one semantics, and proves that they do.

* `Words`, `Bits`, `Isa`, `Mir`, `Cfg`: wrapped machine words, what one instruction does to registers and byte
  memory, machine instructions as opcode and operand list, and machine functions as laid-out basic blocks with
  PHIs.  `Cfg.Run` runs a function block by block.
* `SelectExpansion`, `SelectWellFormed`, `Dominance`, `RegisterUses`, `MachineBlocks`: the expansion of the Select
  pseudo into a control-flow diamond.  All but the last work on functions as values; `MachineBlocks` performs the
  expansion on block objects in place and is proved to produce exactly that function.
* `CondCodes`: condition codes on their way to a jump.
* `BranchEditing`: AnalyzeBranch, RemoveBranch, InsertBranch.
* `AddressSelect`, `FrameIndex`, `AddressPipeline`: address expressions, frame objects, and their way into bytes.
* `Encoding`, `Decoding`, `Fixups`, `Assembler`, `ByteMachine`, `FunctionAssembly`, `Linking`: lowering, bit
  layout, emission, fixups, a decoder after RFC 9669, an interpreter over 8-byte slots, and the proof that the byte
  image of a function, its symbols filled in if it has any, runs like the function.
* `Constants`, `StringTable`: the 64-bit constant rewrites and the string table.

`dafny verify dfyconfig.toml` checks everything.

## What the statements rest on

* Every theorem holds for every `Isa.Env`: operations other than ADD, calls, the register result of an atomic
  add, symbol addresses, the frame pointer and the frame layout are parameters.  The shift and mask rewrite alone
  (`Constants.ShiftsMask`) fixes what shifts and AND mean.
* A well-formed function (`Cfg.WellFormed`) lists as the successors of a block what its terminators and its
  fall-through reach.  A block whose end is known not to be reached, as after a call that does not return, may leave
  the fall-through out (`Cfg.SuccsMatch`).
* A register or byte never written reads as 0.  Blocks are named by number; a successor list holds numbers.
* The assembler theorems are for functions without PHIs over R0 to R11: register allocation and PHI elimination
  happen before and belong to LLVM.  Branch targets are blocks of the function.
* A symbol operand leaves a section-relative fixup and a zero field.  Bytes as assembled are claimed to run only
  without such operands (`Decoding.InRange`); with them, `Linking` writes any values into the fields and asks that
  the symbols have those values (`Linking.Agrees`).
* A register read is an explicit register operand.  Physical registers, which arguments and calls define, are the
  `given` ones of `RegisterUses.UsesReached`.
* LLVM's condition-code numbers come from ISDOpcodes.h, which is not part of this model; the ten integer codes
  are written out in `CondCodes.Number`.
* LLVM's MaskedValueIsZero is a parameter that is right when it says yes (`AddressSelect.Sound`).
* The host is little-endian, as `applyFixup` assumes when it stores a `uint16_t` through a pointer.

## What the code does and its comments do not say

* `eliminateFrameIndex` computes the offset in an `int` and then asks `isInt<32>` of it: the check cannot fail.
  The folded address is right exactly when the sum fits 32 bits
  (`FrameIndex.FoldExactWhenFits`), and the encoded one exactly when the final offset fits 16
  (`AddressPipeline.AddressSurvives`), which nothing checks.
* A displacement outside 16 bits is truncated silently (`Fixups.DisplacementReachesTarget`).
* The XADD format has a field `rX` that names no operand; the first operand fills it, and the constraint that
  ties it to the addend makes that right.  `Decoding.InRange` asks for the tie.
* NOP has the bytes of `mov r0, r0`, and its immediate is not encoded (`Decoding.NopIsMove`).
* AnalyzeBranch looks no further up than the last instruction that is neither a jump nor a debug value.  For any
  block its report is right about a run exactly when the code above does not return or jump elsewhere
  (`BranchEditing.ReportIsRight`).  LLVM keeps terminators at the end of a block, which is enough
  (`BranchEditing.DestinationIsReal`); `BranchEditing.EarlyJumpOverlooked` is a block that breaks that rule.
* The position getStrtabIndex finds is returned as an `int`, which it is exactly below 2^31.

## Model

| member | source | states |
|---|---|---|
| MachineBlocks.MachineFunction.EmitInstrWithCustomInserter | lib/Target/BPF/BPFISelLowering.cpp:590-682 | the in-place edits (two blocks inserted, tail spliced, successors and PHIs transferred, jump and PHI added, pseudo erased) turn the function into exactly ExpandSelect of it; the fatal default is reached exactly for a code without a jump |
| MachineBlocks.MachineFunction.TransferSuccessorsAndUpdatePHIs | lib/Target/BPF/BPFISelLowering.cpp:620-625 | the successors move, in order, and every PHI of each of them, the moved block itself included, names the new block where it named the old; nothing else changes |
| MachineBlocks.MachineFunction.BuildDiamond | lib/Target/BPF/BPFISelLowering.cpp:613-680 | contents and successors of all blocks after the edits |
| MachineBlocks.MachineBasicBlock.UpdatePHIs | lib/Target/BPF/BPFISelLowering.cpp:625 | the loop over the leading PHIs renames exactly the block operands, and only in PHIs |
| SelectExpansion.DiamondIsSelect | lib/Target/BPF/BPFISelLowering.cpp:630-678 | jump, copy0 and PHI together leave the machine as the Select does, from either side |
| SelectExpansion.EnterExpanded | lib/Target/BPF/BPFISelLowering.cpp:622-625 | entering any old block from its renamed predecessor gives the PHIs their old values, also when the split block is its own successor, and when it falls into a block it does not list |
| SelectExpansion.ExpansionSimulates | lib/Target/BPF/BPFISelLowering.cpp:604-682 | the expanded function passes through every state of every original run, within three steps for one |
| SelectExpansion.ExpansionReflects | lib/Target/BPF/BPFISelLowering.cpp:604-682 | from every point of every expanded run at most two more steps reach a state of the original run |
| SelectExpansion.ExpansionSameResults | lib/Target/BPF/BPFISelLowering.cpp:604-682 | both functions return the same registers and memory, get stuck together and diverge together |
| SelectWellFormed.ExpandedPreds | lib/Target/BPF/BPFISelLowering.cpp:620-669 | the predecessors of every block after the expansion |
| SelectWellFormed.ExpansionWellFormed | lib/Target/BPF/BPFISelLowering.cpp:618-682 | successor lists still match what terminators and fall-through reach, and every PHI has exactly one entry per predecessor |
| SelectWellFormed.ExpansionProgress | lib/Target/BPF/BPFISelLowering.cpp:615-680 | one Select fewer, two blocks more |
| SelectWellFormed.AnyOrderCorrect | lib/Target/BPF/BPFISelLowering.cpp:590-682 | every sequence of expansions, in any order, keeps the function well formed and every register read behind its definition, and takes one Select and adds two blocks at each step |
| SelectWellFormed.AnyOrderSameResults | lib/Target/BPF/BPFISelLowering.cpp:590-682 | and it keeps the results of every run |
| SelectWellFormed.AnyOrderEnds | lib/Target/BPF/BPFISelLowering.cpp:590-682 | any Select left can be expanded next, and none is left exactly after as many expansions as there were Selects |
| SelectWellFormed.ExpandAllCorrect | lib/Target/BPF/BPFISelLowering.cpp:590-682 | repeating it in layout order terminates with no Select, two blocks for each, a well-formed function, every register read still behind its definition, and the same results |
| Dominance.CollapsedPath | lib/Target/BPF/BPFISelLowering.cpp:618-669 | without the new blocks, every walk from the entry is a walk of the original to the same place |
| RegisterUses.UseBack | lib/Target/BPF/BPFISelLowering.cpp:630-678 | every register read after the expansion, the jump's and each PHI entry's at the end of its block included, was read before it at the same place or by the Select |
| RegisterUses.UsesStillReached | lib/Target/BPF/BPFISelLowering.cpp:618-680 | if every register read has a definition in front of it on all ways from the entry, it still has |
| Dominance.DefinitionsStillReach | lib/Target/BPF/BPFISelLowering.cpp:618-680 | the dominance behind it: a point that came before another on all ways from the entry still does, at the moved places and at the three places that read for the Select |
| CondCodes.NegateCC | lib/Target/BPF/BPFISelLowering.cpp:491-513 | swaps the operands exactly for the four less-than codes and reports it; leaves every other comparison as it is |
| CondCodes.CodeBits | lib/Target/BPF/BPFInstrInfo.td:88-99 | a code's number says, bit by bit, whether it holds on equal, greater and less, unsigned or not: the number determines the comparison |
| CondCodes.NegationSound | lib/Target/BPF/BPFISelLowering.cpp:491-513 | after it the code has a jump exactly when it was an integer comparison, and the swapped comparison has the same truth value for all 64-bit pairs |
| CondCodes.LoweredBranch | lib/Target/BPF/BPFISelLowering.cpp:515-532 | for all ten codes and all operands, constants on either side included, the selected code jumps exactly when the source comparison holds; a constant that cannot stay in the jump goes into a fresh register, and nothing else changes |
| CondCodes.JumpRuns | lib/Target/BPF/BPFInstrInfo.td:102-142 | register or 32-bit immediate form, whichever the patterns accept, tests the same comparison |
| CondCodes.BranchEmittable | lib/Target/BPF/BPFInstrInfo.td:123-142 | for all ten codes and all operands every emitted instruction fits its format with any 16-bit displacement, and LD_imm64 loads only what does not fit MOV_ri |
| CondCodes.OneJump | lib/Target/BPF/BPFISelLowering.cpp:491-532 | a register against a constant that fits 32 bits is one immediate jump, with the constant on the right for six codes and on the left for the other four |
| CondCodes.BranchLength | lib/Target/BPF/BPFISelLowering.cpp:515-532 | otherwise one instruction more for each constant that cannot stay in the jump |
| CondCodes.LoweredSelect | lib/Target/BPF/BPFISelLowering.cpp:534-562 | the selected pseudo yields the true value exactly when the comparison holds, and its expansion never meets the fatal default |
| BranchEditing.AnalyzeBranch | lib/Target/BPF/BPFInstrInfo.cpp:70-123 | gives up exactly at a terminator above the trailing jumps and debug values; the block and all three outputs, with and without modification |
| BranchEditing.EraseBelow | lib/Target/BPF/BPFInstrInfo.cpp:100-102 | erases everything after an instruction and nothing else |
| BranchEditing.TrimmingKeepsExit | lib/Target/BPF/BPFInstrInfo.cpp:93-117 | what the analysis erases changes no exit of the block, for any block, whether it succeeds or gives up |
| BranchEditing.TrimmingKeepsRuns | lib/Target/BPF/BPFInstrInfo.cpp:93-117 | nor any state of any run of the function |
| BranchEditing.ReportIsRight | lib/Target/BPF/BPFInstrInfo.cpp:77-122 | for any block and run, the reported block, or the next one when none is reported, is where the run goes if and only if the code above the trailing jumps does not return or jump elsewhere |
| BranchEditing.AgreeingBranchesAbove | lib/Target/BPF/BPFInstrInfo.cpp:77-122 | so it is right about every run when that code has no return and branches only to the same block |
| BranchEditing.DestinationIsReal | lib/Target/BPF/BPFInstrInfo.cpp:83-122 | in particular for a block with its terminators at the end, when the analysis does not give up |
| BranchEditing.EarlyTerminatorDecides | lib/Target/BPF/BPFInstrInfo.cpp:83-91 | for the runs that get to a terminator above the tail: a jump makes the report right exactly when both name the same block, a return makes it wrong, a conditional jump does as a jump when its comparison holds |
| BranchEditing.EarlyJumpOverlooked | lib/Target/BPF/BPFInstrInfo.cpp:83-86 | a block for which that condition fails on every run |
| BranchEditing.RemoveBranch | lib/Target/BPF/BPFInstrInfo.cpp:144-161 | erases exactly the trailing jumps, keeps the debug values among them, returns their number; ends although the scan restarts |
| BranchEditing.InsertBranch | lib/Target/BPF/BPFInstrInfo.cpp:125-142 | one jump at the end |
| BranchEditing.RewritingKeepsExit | lib/Target/BPF/BPFInstrInfo.cpp:125-161 | removing the branches and inserting the reported one keeps every exit |
| BranchEditing.RewritingKeepsCode | lib/Target/BPF/BPFInstrInfo.cpp:144-161 | and every other instruction, in order |
| BranchEditing.AnalyzeRemoveInsert | lib/Target/BPF/BPFInstrInfo.cpp:70-161 | analysis with modification, removal and insertion of what was reported keep every state of every run |
| FrameIndex.EliminateFrameIndex | lib/Target/BPF/BPFRegisterInfo.cpp:44-88 | the instruction at the iterator is replaced by the one or two of Eliminated; the rest of the block stays |
| FrameIndex.ReplaceFrameIndices | lib/Target/BPF/BPFRegisterInfo.cpp:44-88 | calling it for every instruction with a frame index rewrites the whole block |
| FrameIndex.FoldExactWhenFits | lib/Target/BPF/BPFRegisterInfo.cpp:79-87 | the folded offset gives the object's address plus the constant, modulo 2^64, exactly when the sum fits 32 bits |
| FrameIndex.FoldedOperands | lib/Target/BPF/BPFRegisterInfo.cpp:79-87 | every instruction but MOV_rr, debug values included: only base and offset change, the offset is the sum cut to an int, and the two name the same place exactly when the sum fits |
| FrameIndex.FoldedMove | lib/Target/BPF/BPFRegisterInfo.cpp:67-77 | a frame address becomes a copy of R10 and an addition to the register before the frame index, exact under the same condition |
| FrameIndex.OthersUntouched | lib/Target/BPF/BPFRegisterInfo.cpp:59-62 | code without a frame index stays as it is |
| FrameIndex.NoneLeft | lib/Target/BPF/BPFRegisterInfo.cpp:59-87 | no operand is a frame index afterwards |
| FrameIndex.EliminationKeepsBlock | lib/Target/BPF/BPFRegisterInfo.cpp:59-87 | for every frame layout with 32-bit offsets the block leaves the same registers and memory, the same way |
| FrameIndex.EliminationKeepsRuns | lib/Target/BPF/BPFRegisterInfo.cpp:59-107 | and so does every run of the function, with R10 always the frame pointer |
| AddressSelect.SelectionKeepsAddress | lib/Target/BPF/BPFISelDAGToDAG.cpp:78-130 | base plus offset is the address modulo 2^64, folded or not, through add or disjoint or; the offset fits 32 bits; exactly bare symbols are refused |
| AddressSelect.FoldableIsFolded | lib/Target/BPF/BPFISelDAGToDAG.cpp:80-129 | what can be folded is folded: a frame index, alone or with a constant of 32 bits added or or-ed into known zero bits, gives the frame object as base, any other such sum its other part; everything else stays whole |
| AddressPipeline.AccessDecodes | lib/Target/BPF/MCTargetDesc/BPFMCCodeEmitter.cpp:154-165 | the bytes of a load, store or atomic add with any offset decode to the same access with the low 16 bits of it |
| AddressPipeline.AddressSurvives | lib/Target/BPF/BPFISelDAGToDAG.cpp:78-130 | selection, frame elimination, lowering, encoding and decoding give back the address of the original expression exactly when the final offset fits 16 bits |
| AddressPipeline.FrameAccessOnR10 | lib/Target/BPF/BPFISelDAGToDAG.cpp:80-125 | an access at a frame object, alone or plus such a constant, becomes exactly one access on R10 and needs no register for its address |
| Encoding.Lower | lib/Target/BPF/BPFMCInstLower.cpp:45-77 | the loop skips implicit registers and masks and lowers the rest in order |
| Encoding.LoweredExplicit | lib/Target/BPF/BPFMCInstLower.cpp:45-77 | one MC operand for each explicit operand |
| Encoding.WordSplits | lib/Target/BPF/MCTargetDesc/BPFMCCodeEmitter.cpp:144-149 | shifting and masking the 64-bit word gives back opcode, registers, offset and immediate |
| Encoding.CodeEmitter.EmitLEConstant | lib/Target/BPF/MCTargetDesc/BPFMCCodeEmitter.cpp:104-112 | appends the low bytes, least significant first |
| Encoding.CodeEmitter.EmitBEConstant | lib/Target/BPF/MCTargetDesc/BPFMCCodeEmitter.cpp:115-121 | appends exactly the reverse |
| Encoding.ReverseAt | lib/Target/BPF/MCTargetDesc/BPFMCCodeEmitter.cpp:115-121 | byte i of the reverse is byte Size-1-i |
| Encoding.LittleEndianValue | lib/Target/BPF/MCTargetDesc/BPFMCCodeEmitter.cpp:104-112 | those bytes are worth the value modulo 256^size |
| Encoding.CodeEmitter.GetMachineOpValue | lib/Target/BPF/MCTargetDesc/BPFMCCodeEmitter.cpp:62-95 | register number, low 32 bits, or zero with the fixup of the operand's kind |
| Encoding.CodeEmitter.GetBinaryCodeForInstr | lib/Target/BPF/BPFInstrInfo.td:102-425 | every operand's value lands in its field of the 64-bit word |
| Encoding.CodeEmitter.EncodeInstruction | lib/Target/BPF/MCTargetDesc/BPFMCCodeEmitter.cpp:123-151 | one slot, or two for LD_imm64, in the bit layout, with the fixups |
| Decoding.RoundTrip | lib/Target/BPF/BPFInstrInfo.td:102-425 | the bytes of every instruction of every format decode, whatever follows, to exactly what its fields keep of it, which is all of it exactly when it is in range |
| Decoding.EmittedDecodes | lib/Target/BPF/MCTargetDesc/BPFMCCodeEmitter.cpp:60-95 | as emitted, before any fixup, the field of a label or symbol is zero and everything else is in place |
| Decoding.OpcodeTable | lib/Target/BPF/BPFInstrInfo.td:102-498 | the opcode byte of every instruction, written out |
| Decoding.StoreBytes | lib/Target/BPF/BPFInstrInfo.td:281-307 | the eight bytes of a store, written out |
| Decoding.JumpBytes | lib/Target/BPF/BPFInstrInfo.td:123-142 | the eight bytes of an immediate jump, written out |
| Decoding.WideRoundTrip | lib/Target/BPF/MCTargetDesc/BPFMCCodeEmitter.cpp:130-142 | the two slots of LD_imm64 give back all 64 bits |
| Decoding.SameBytesSameMeaning | lib/Target/BPF/BPFInstrInfo.td:102-498 | instructions in range that share bytes mean the same |
| Decoding.SameBytesSameInstruction | lib/Target/BPF/BPFInstrInfo.td:102-498 | apart from NOP they are the same instruction with the same displacement |
| Decoding.NopIsMove | lib/Target/BPF/BPFInstrInfo.td:386-408 | NOP and mov r0, r0 share their bytes |
| Fixups.ApplyFixup | lib/Target/BPF/MCTargetDesc/BPFAsmBackend.cpp:61-75 | section-relative fixups leave the buffer alone, the other kind stores the two bytes of the unsigned 64-bit computation |
| Fixups.DisplacementReachesTarget | lib/Target/BPF/MCTargetDesc/BPFAsmBackend.cpp:73-74 | for any distance the field read as signed leads from the next slot to the target exactly when the displacement fits 16 bits |
| Fixups.PatchOneBranch | lib/Target/BPF/MCTargetDesc/BPFAsmBackend.cpp:73-74 | only the displacement field of that instruction changes |
| Fixups.AppliedOnly | lib/Target/BPF/MCTargetDesc/BPFAsmBackend.cpp:69-74 | no fixup of any kind changes a byte outside the two of its displacement |
| Assembler.FragmentDenotes | lib/Target/BPF/BPFMCInstLower.cpp:45-77 | what is encoded means what the machine instruction means |
| Assembler.EmitCode | lib/Target/BPF/MCTargetDesc/BPFMCCodeEmitter.cpp:123-151 | the emitted stream and the fixups at their places |
| Assembler.PatchCode | lib/Target/BPF/MCTargetDesc/BPFAsmBackend.cpp:61-75 | all fixups applied one after the other |
| Assembler.PatchedIsImage | lib/Target/BPF/MCTargetDesc/BPFAsmBackend.cpp:61-75 | which gives every branch its own displacement and changes no other byte |
| Assembler.AssembleCode | lib/Target/BPF/MCTargetDesc/BPFMCCodeEmitter.cpp:123-151 | emission and patching yield the image |
| FunctionAssembly.CodeRoundTrip | lib/Target/BPF/MCTargetDesc/BPFMCCodeEmitter.cpp:130-150 | decoding the bytes of any code whose labels have a place gives its machine instructions in order, debug values left out and labels turned into slot displacements, if and only if every one of them is in range |
| FunctionAssembly.FunctionRoundTrip | lib/Target/BPF/MCTargetDesc/BPFMCCodeEmitter.cpp:130-150 | the same for the image of a laid-out function with its computed labels |
| FunctionAssembly.AssembleFunction | lib/Target/BPF/MCTargetDesc/BPFMCCodeEmitter.cpp:123-151 | a function in layout order becomes its image, each label the slot its block begins at |
| FunctionAssembly.FunctionLinks | lib/Target/BPF/MCTargetDesc/BPFMCCodeEmitter.cpp:88-93 | branches to existing blocks always find their label, and the image is faithful exactly when every placed instruction is in range |
| FunctionAssembly.SmallFunctionsAssemble | lib/Target/BPF/MCTargetDesc/BPFAsmBackend.cpp:61-75 | a function of at most 2^15 slots that branches to its own blocks, with fitting operands, always assembles to an image with its results |
| FunctionAssembly.FrameCodeInBytes | lib/Target/BPF/BPFRegisterInfo.cpp:59-88 | frame index elimination and assembly together: the bytes have the results of the function before its frame was laid out |
| ByteMachine.StepInBytes | lib/Target/BPF/MCTargetDesc/BPFMCCodeEmitter.cpp:123-151 | one block-level step, fall-through included, is a run of the bytes to the label of the next block |
| ByteMachine.BytesSimulate | lib/Target/BPF/MCTargetDesc/BPFMCCodeEmitter.cpp:123-151 | the bytes pass through the image of every state of every run of the function |
| ByteMachine.BytesReflect | lib/Target/BPF/MCTargetDesc/BPFMCCodeEmitter.cpp:123-151 | from every point of a run of the bytes some more steps reach such a state |
| ByteMachine.BytesSameResults | lib/Target/BPF/MCTargetDesc/BPFAsmBackend.cpp:61-75 | image and function return the same registers and memory, and neither returns when the other does not |
| ByteMachine.SecondSlotIsNoBoundary | lib/Target/BPF/MCTargetDesc/BPFMCCodeEmitter.cpp:137-142 | the second slot of LD_imm64 is never where an instruction begins |
| FunctionAssembly.RunsStayOnInstructions | lib/Target/BPF/MCTargetDesc/BPFAsmBackend.cpp:73-74 | no run of the image ever executes from anywhere but the first slot of an instruction |
| Linking.FilledIsLinked | lib/Target/BPF/MCTargetDesc/BPFMCCodeEmitter.cpp:82-89 | filling every section-relative field of an image with any values gives the image of the code with its symbols replaced by them |
| Linking.LinkedImageSameResults | lib/Target/BPF/MCTargetDesc/BPFMCCodeEmitter.cpp:82-94 | and those bytes have exactly the results of the function, where its symbols have those values |
| Linking.FrameLinkedSameResults | lib/Target/BPF/BPFRegisterInfo.cpp:59-88 | the same for the function before its frame was laid out: frame indices eliminated, code assembled, fields filled |
| StringTable.Strtab.GetStrtabIndex | lib/Target/BPF/MCTargetDesc/BPFMCCodeEmitter.h:38-49 | the position found resolves to the name; the table is extended exactly when the name was not in it; the int returned is that position exactly below 2^31 |
| StringTable.AppendedFoundAtEnd | lib/Target/BPF/MCTargetDesc/BPFMCCodeEmitter.h:43-46 | the second lookup finds a new name exactly at the old length of the table |
| StringTable.TableGrows | lib/Target/BPF/MCTargetDesc/BPFMCCodeEmitter.h:38-49 | a name already there leaves the table alone, a new one adds exactly itself and its NUL |
| StringTable.IndicesStayValid | lib/Target/BPF/MCTargetDesc/BPFMCCodeEmitter.h:38-49 | after any sequence of calls every index ever returned still resolves to its name |
| StringTable.IntsStayValid | lib/Target/BPF/MCTargetDesc/BPFMCCodeEmitter.h:38-49 | up to a table of 2^31 characters that holds of the ints returned |
| StringTable.RepeatedNameSameIndex | lib/Target/BPF/MCTargetDesc/BPFMCCodeEmitter.h:38-49 | the same name gets the same index at any later time |
| Constants.HalvesRebuild | lib/Target/BPF/BPFInstrInfo.td:43-60 | both halves fit signed 32 bits and rebuild the constant modulo 2^64, overflow of the subtraction included |
| Constants.ShiftsMask | lib/Target/BPF/BPFInstrInfo.td:458-459 | the two shifts leave what the AND with 0xffffFFFF would |

## Left out

- Call, return and formal-argument lowering, callee-saved registers and the ADJCALLSTACK pseudos: register
  assignment by fixed lists, with fatal errors for what is not supported.
- `BPFDAGToDAGISel::Select` for a bare frame index: one node replaced by `MOV_rr`; the instruction it yields is
  covered by `FrameIndex`.
- `copyPhysReg`, spilling and reloading, register classes and reserved registers.
- `BPFInstPrinter`, the assembly text, the ELF object writer's relocation types, `writeNopData`, the `llc` driver,
  target registration and subtargets.
- How a linker chooses the values of section-relative fixups, and the relocation records it reads.
- LLVM's own passes: the pass that calls the expansion, prologue/epilogue insertion and MC layout appear as plain
  loops (`SelectWellFormed.ExpandAll`, `FrameIndex.ReplaceFrameIndices`, `FunctionAssembly.AssembleFunction`).
- Atomicity and ordering of XADD: it is one instruction that reads and writes memory.
- Global operands with an offset, which `LowerSymbolOperand` treats as unreachable.
- FrameIndex.EliminationKeepsRuns: asks that no instruction of the function writes R10, which the backend reserves,
  and that it has no PHIs left.
- AddressSelect.SelectAddr: nodes other than the ones it tells apart are values in a register.
