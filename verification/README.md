# Registers, memory and load/store of the ARMv5 simulator, in Dafny

This project models the processor state of the simulator and the instructions that move data between
registers and memory, and proves what programs rely on: saving and restoring registers, copying
blocks, keeping the modes' registers apart. Check it with `dafny verify dfyconfig.toml`.

- `Words.dfy`: 32-bit words, bits of instruction words, the order of a word's bytes.
- `Registers.dfy`: the 37-word register array (`Registers`), and the banked register file of sections
  A2.3 and A2.4 of the ARM Architecture Reference Manual (DDI 0100) that it implements (`Banks`).
- `Excursions.dfy`: nested switches of mode (`Excursions`) and exception entry (`Exceptions`).
- `Memory.dfy`: byte-addressed memory, in either byte order.
- `Numbers.dfy`: bytes, half-words and words as numbers to the base 256, of any length and byte order.
- `LoadStore.dfy`: decoding and execution of LDR/STR and LDM/STM, as functions on states and as methods
  of the processor object that are proved equal to those functions.
- `Encoding.dfy`: instruction words from their fields, and the proof that they decode to them.
- `Accesses.dfy`: what one load or store of any width does to every byte of the memory and every cell of the
  register file.
- `Addressing.dfy`, `Blocks.dfy`, `Transfers.dfy`, `Singles.dfy`, `Stack.dfy`: the laws of loads and stores.
- `InsertionSort.dfy`, `Factorial.dfy`, `ByteReverse.dfy`: three of the sample programs, as whole runs.

A `State` holds the register array, the memory and its byte order. The C variables that the code reads
before it sets them are parameters: `stale` is the initial content of `val` in one call, each call has a
value of its own, and every theorem holds for all of them. `other` is what `shifter_operand` returns for the shifts that are not
modelled.

## What turned out false of the code, and exactly when it holds

- A store to an address that is unaligned or outside the memory is dropped. STM reports only what its last
  store returned (`Blocks.ResultExactlyLastWord`), and no caller looks at the result code. So STM followed by the matching LDM does not always restore: a listed register survives
  for all its values exactly when its word is aligned and inside the memory
  (`Transfers.SurvivesExactlyWhenLanded`; all words are lost at once in `Transfers.UnalignedStoreIsLost`, and
  `ByteReverse.UnalignedStackLosesR4` gives a stack pointer at which a sample program would fail).
- A load from outside the memory leaves the indeterminate `val` in the register, so LDM agrees with a row of
  LDRs for all contents of their `val` exactly when each word begins inside the memory
  (`Singles.AgreesExactlyWhenReadable`; one failing load in `Singles.LoadPastTheEndDisagrees`).
- A word transfer whose offset has bits 7 and 4 set runs as a half-word transfer
  (`Addressing.OffsetBitsMakeHalf`). So the instruction words of STR rd, [rn, #-k]! and LDR rd, [rn], #k keep a
  register for all its values exactly when the word lands and k does not have both bits
  (`Addressing.PairSurvivesExactlyWhen`); with both bits the low half comes back, and the register exactly when `val`
  happens to hold its upper half (`Addressing.HalfPairKeepsLowHalf`).
- Exception entry writes the SPSR and r14 before it changes the mode, so the handler finds the old CPSR and
  the return address exactly when it interrupts its own mode or its cells already held them
  (`Exceptions.EntrySavesExactlyWhen`; one failing state in `Exceptions.SoftwareInterruptFromUser`).
- Exception entry clears the condition flags, which the manual leaves alone, so they survive exactly if they were
  clear (`Exceptions.EntryStatus`); and for a PC that is a multiple of four the r14 it writes is always eight past the
  manual's return address (`Exceptions.ReturnRunsAhead`).
- A byte or half-word load changes only the low digits of `val`: after a store and a load of the same width the upper
  bits are those `val` held (`Accesses.StoreThenLoad`).
- A mode excursion around disciplined code keeps the CPSR exactly when the target mode has an SPSR (or the CPSR
  is 0), and keeps the SPSR in use exactly when it does not re-enter the running mode (or that SPSR already equals
  the CPSR) (`Excursions.ExcursionExact`; nested in `Excursions.ReentryReturnsWrongStatus`).
- `current_mode_has_spsr` agrees with the stored SPSRs exactly in the seven defined modes
  (`Banks.SpsrPredicateAgrees`).
- The factorial program leaves n! mod 2^32 exactly when n is not 0 (`Factorial.Run`).
- The byte-reversal program leaves the reversed word exactly when the indeterminate upper bits of its four byte
  loads cancel out, as they do when `val` is 0 (`ByteReverse.Program`).

Besides the files in the table below, these are modelled:

- `arm_simulator-1.4/memory.c` 35-122: class `Memory.Ram`, each method proved equal to a function on the contents, with
  its result code. `Memory.ReadBack`, `Memory.WriteWordBytes`, `Memory.ReadWordBytes` and `Memory.WritesCommute` state
  the laws of those functions: words read back in either byte order, other bytes are unchanged, reads at any alignment
  and across address 0 see the bytes in memory, and writes at different addresses commute. `Numbers.ReadByteSees`,
  `ReadHalfSees` and `ReadWordSees` say that a read finds the number its bytes make in the byte order of the memory;
  `Numbers.WriteByteWrites`, `WriteHalfWrites` and `WriteWordWrites` give every byte after a write;
  `Numbers.PartOfWritten` and `Numbers.HalvesOfWord` say what any part of a written number reads as, and
  `Numbers.NumberSplit` how neighbouring numbers make a longer one.
- `arm_simulator-1.4/arm_core.c` 75-93: `LoadStore.ArmCore.FetchRegister` and `FetchUserRegister`, by which instructions read the PC
  four further on with bit 1 clear: `Banks.FetchSees` says which cell they read, `Registers.PcViewBits` gives every bit of
  the PC and `Registers.PcViewAligned` its value.
- `arm_simulator-1.4/arm_exception.c` 33-78: `Exceptions.RaiseException`, the whole new register array;
  `Exceptions.EntryCell` and `Exceptions.ResetCell`, every cell of it; `Exceptions.HandlerMode`, the mode it ends in;
  `Exceptions.EntryStatus`, every bit of the new CPSR.
- `arm_simulator-1.4/registers.h` 49-91: the layout `Banks.Index`; `arm_simulator-1.4/util.h` 30-34: `Words.Bit` and the divisions in
  `LoadStore.DecodeSingle` and `LoadStore.DecodeMulti`; `arm_simulator-1.4/arm_constants.h` 73-86: the mode and register codes.

A load's result code is that of the register write: the tracing macro of `arm_simulator-1.4/trace_location.h` 38-41 makes it 0.

Where code and comments differ, the model follows the code: `memory.h` announces -1 on failure, the code
returns DATA_ABORT; word reads, unlike word writes, do not check alignment.

## Model

| member | source | states |
|---|---|---|
| Registers.GetMode | arm_simulator-1.4/registers.c:41-43 | the mode is the low five bits of the CPSR |
| Registers.ReadRegister | arm_simulator-1.4/registers.c:64-70 | the read goes to the word that holds the register in the current mode |
| Registers.WriteRegister | arm_simulator-1.4/registers.c:86-92 | the whole new array: one word replaced, the one the current mode uses |
| Registers.WriteUserRegister | arm_simulator-1.4/registers.c:94-96 | the whole new array: the user copy replaced, in any mode |
| Registers.WriteStatus | arm_simulator-1.4/registers.c:98-100 | the whole new array: word 16 replaced |
| Registers.ReadSavedStatus | arm_simulator-1.4/registers.c:76-84 | the SPSR of the current mode, or 0 if it has none |
| Registers.WriteSavedStatus | arm_simulator-1.4/registers.c:102-109 | the whole new array: the SPSR of the current mode replaced, nothing if it has none |
| Registers.WriteFrame | arm_simulator-1.4/registers.c:53-92 | a register write keeps the mode, reads back, and leaves all other registers of the mode alone |
| Banks.CellAt | arm_simulator-1.4/registers.c:53-109 | every one of the 37 words holds exactly one cell of the banked register file |
| Banks.LayoutIsInjective | arm_simulator-1.4/registers.c:53-109 | distinct cells never share a word |
| Banks.SlotIsIndex | arm_simulator-1.4/registers.c:53-70 | the index shift of the code reaches the word that the layout gives to the bank's register |
| Banks.Aliasing | arm_simulator-1.4/registers.c:53-70 | two names in two modes denote one word if and only if the register is the same and the bank is the same or neither bank owns a copy |
| Banks.SpsrPredicateAgrees | arm_simulator-1.4/registers.c:45-47 | the predicate agrees with the SPSRs that exist if and only if the mode is defined; SPSR writes read back exactly where there is one |
| Banks.CellsHoldLastWrite | arm_simulator-1.4/registers.c:37-109 | after any history of register, user-register, CPSR and SPSR writes, each cell holds the last value written to it, and the mode is the one last written |
| Banks.ReadsReturnLastWrite | arm_simulator-1.4/registers.c:37-109 | after any history, each of the four read functions returns the last write to its cell |
| Banks.FiqIsIsolated | arm_simulator-1.4/registers.c:53-109 | any sequence of writes to r8-r14 and the SPSR in FIQ mode keeps every word outside the FIQ bank |
| Excursions.CodeKeepsSuspended | arm_simulator-1.4/registers.c:53-109 | any tree of excursions that enters no suspended mode keeps the CPSR, the running mode's SPSR and all that suspended modes own |
| Excursions.ExcursionUnwinds | arm_simulator-1.4/registers.c:53-109 | returning from an excursion restores the CPSR and keeps r13, r14, SPSR (and r8-r12 of FIQ) of every interrupted mode |
| Excursions.ExcursionExact | arm_simulator-1.4/registers.c:76-109 | exactly when an excursion with a disciplined body keeps the CPSR and the SPSR it finds |
| Excursions.ReentryReturnsWrongStatus | arm_simulator-1.4/registers.c:76-109 | after entering a live mode again, with disciplined code before, inside and after the second entry, the outer return lands on the status of that entry and not on the interrupted one |
| LoadStore.ArmCore.AddressingMode | arm_simulator-1.4/arm_load_store.c:33-57 | the signed offset of the decoded operand, modulo 2^32 |
| LoadStore.ArmCore.LoadStore | arm_simulator-1.4/arm_load_store.c:60-114 | the whole new state and the result code of any single load or store instruction word |
| LoadStore.ArmCore.LoadInto | arm_simulator-1.4/arm_load_store.c:75-86 | the state after the load part, with its half, byte, word, PC and user-bank cases |
| LoadStore.ArmCore.StoreFrom | arm_simulator-1.4/arm_load_store.c:88-98 | the state after the store part, and its result code |
| LoadStore.ArmCore.StartAddress | arm_simulator-1.4/arm_load_store.c:143-148 | the counting loop and the adjustment arrive at the lowest address of section A5.4 of DDI 0100 in all four modes |
| LoadStore.ArmCore.TransferRegister | arm_simulator-1.4/arm_load_store.c:157-166 | one turn of the transfer loop, with the value it leaves in val and its result code |
| LoadStore.ArmCore.TransferList | arm_simulator-1.4/arm_load_store.c:150-171 | the transfer loop uses consecutive words, counts exactly the listed registers and returns the result of the last transfer |
| LoadStore.ArmCore.LoadStoreMultiple | arm_simulator-1.4/arm_load_store.c:117-186 | the whole new state of any LDM or STM instruction word, with write-back, and the result code |
| Encoding.SingleWordDecodes | arm_simulator-1.4/arm_load_store.c:61-67 | the word made of flags, base, register and 12-bit offset decodes to them, as a half-word transfer if the offset has bits 7 and 4 |
| Encoding.HalfWordDecodes | arm_simulator-1.4/arm_load_store.c:33-67 | the word of a half-word transfer, with split immediate or register offset, decodes to its fields and to a half-word transfer |
| Encoding.ShiftWordDecodes | arm_simulator-1.4/arm_load_store.c:33-67 | the word with a register offset decodes to its fields, an immediate left shift with its amount |
| Encoding.EveryWordIsEncoded | arm_simulator-1.4/arm_load_store.c:33-67 | every word is of these forms, so that they fix the decoding of every load and store |
| Encoding.MultiWordDecodes | arm_simulator-1.4/arm_load_store.c:118-151 | the word made of flags, base and the powers of two of the listed registers decodes to flags, base and list |
| Encoding.ListedExactlyIfSet | arm_simulator-1.4/arm_load_store.c:151 | register i is in the list of any word if and only if its digit of weight 2^i is set |
| Encoding.EveryMultiIsEncoded | arm_simulator-1.4/arm_load_store.c:118-151 | every word is the encoding of what it decodes to |
| Encoding.StackSinglesDecode | arm_simulator-1.4/arm_load_store.c:61-67 | the words of STR rd, [rn, #-k]! and LDR rd, [rn], #k decode to the transfers the stack laws speak of |
| Encoding.StackMultiplesDecode | arm_simulator-1.4/arm_load_store.c:118-122 | the words of STMDB and LDMIA decode to the transfers the stack laws speak of |
| LoadStore.ClearBit0Bits | arm_simulator-1.4/arm_load_store.c:85 | loading the PC clears bit 0 and nothing else |
| Accesses.AddressIsFirst | arm_simulator-1.4/arm_load_store.c:33-73 | the address is the base plus or minus the immediate, the register, or the register times the power of two, modulo 2^32 |
| Accesses.StoreEffect | arm_simulator-1.4/arm_load_store.c:60-114 | any single store, user-bank variant included: each byte of the memory is the digit of the register that belongs there or is unchanged, the base, the result code |
| Accesses.LoadEffect | arm_simulator-1.4/arm_load_store.c:60-114 | any single load: each cell of the register file, the loaded one from the bytes in memory and val, the base last and by the offset register as it then is |
| Accesses.LoadedRegisters | arm_simulator-1.4/arm_load_store.c:60-114 | the same for the registers of the mode |
| Accesses.StoreThenLoad | arm_simulator-1.4/arm_load_store.c:60-114 | store, anything that keeps its bytes, and load of some or all of them, in any widths and byte order: the digits that belong there, below the upper bits of val |
| Accesses.RegisterOffset | arm_simulator-1.4/arm_load_store.c:48-73 | a pre-indexed load with register offset reads at the sum or difference of the two registers and writes that back |
| Accesses.OffsetByLoaded | arm_simulator-1.4/arm_load_store.c:109-111 | a post-indexed load whose offset register is the loaded one moves the base by what it loaded |
| Addressing.ImmediateMagnitude | arm_simulator-1.4/arm_load_store.c:44-52 | the immediate is the 12-bit field, or the two nibbles of the half-word form |
| Addressing.OffsetsCancel | arm_simulator-1.4/arm_load_store.c:54 | the offset with U clear is the additive inverse of the one with U set, modulo 2^32 |
| Addressing.PostIndexMovesBase | arm_simulator-1.4/arm_load_store.c:109-111 | any post-indexed transfer moves the base by the signed immediate |
| Addressing.PostIndexReturns | arm_simulator-1.4/arm_load_store.c:60-114 | a post-indexed step and the opposite step bring the base back, whatever is transferred |
| Addressing.OffsetBitsMakeHalf | arm_simulator-1.4/arm_load_store.c:64 | an immediate word transfer is executed as a half-word transfer if and only if bits 7 and 4 of its offset are set |
| Addressing.PairSurvivesExactlyWhen | arm_simulator-1.4/arm_load_store.c:60-114 | a register survives the instruction words STR rd, [rn, #-k]! and LDR rd, [rn], #k for all values if and only if the word lands and k is not taken for a half-word offset |
| Addressing.HalfPairKeepsLowHalf | arm_simulator-1.4/arm_load_store.c:64-97 | the pair so taken brings back the low half, and the register exactly when val held its upper half |
| Blocks.RankIsCardinality | arm_simulator-1.4/arm_load_store.c:150-171 | the running count is the number of listed registers below the current one |
| Blocks.BlockIsContiguous | arm_simulator-1.4/arm_load_store.c:143-171 | the k-th lowest listed register uses the k-th word of one contiguous block |
| Blocks.BlockEnd | arm_simulator-1.4/arm_load_store.c:143-171 | the highest word is where each of IA, IB, DA and DB puts it |
| Blocks.StmEffect | arm_simulator-1.4/arm_load_store.c:117-186 | STM: no register but the base changes; each word that lands holds its register; every byte in no such word is unchanged |
| Blocks.StmReadBack | arm_simulator-1.4/arm_load_store.c:163-165 | each word that landed reads back as the register |
| Blocks.LdmEffect | arm_simulator-1.4/arm_load_store.c:117-186 | LDM: memory and mode are kept, each listed register holds its word, the base is written back, and no other word of the register array changes |
| Blocks.MultiKeepsOtherBanks | arm_simulator-1.4/arm_load_store.c:150-183 | neither changes the mode, the CPSR, an SPSR or a word of another mode's bank |
| Blocks.ResultExactlyLastWord | arm_simulator-1.4/arm_load_store.c:150-185 | a multiple transfer reports an abort if and only if it is a store and the word of its highest register does not land |
| Transfers.SameBlock | arm_simulator-1.4/arm_load_store.c:143-183 | the complementary load finds the block and returns the base of the store, across address 0 too, for all four pairs |
| Transfers.SaveRestore | arm_simulator-1.4/arm_load_store.c:117-186 | STM, anything that keeps mode, base and the words that landed, then the complementary LDM: the base is back, and so is each listed register whose word landed; a listed PC comes back as it was stored, four further on and with its low bits clear |
| Transfers.PairForgets | arm_simulator-1.4/arm_load_store.c:163-165 | if a register's word does not land, the outcome does not depend on what the register held |
| Transfers.SurvivesExactlyWhenLanded | arm_simulator-1.4/arm_load_store.c:117-186 | a listed register survives store, clobbering and load for all values if and only if its word is aligned and inside the memory |
| Transfers.CopyIsMemmove | arm_simulator-1.4/arm_load_store.c:143-171 | LDM then STM of the same list is a memmove of n words byte for byte, with overlap, wrap-around and unaligned source |
| Transfers.UnalignedStoreIsLost | arm_simulator-1.4/arm_load_store.c:163-165 | STM to an unaligned block leaves the memory as it was |
| Transfers.AcrossModes | arm_simulator-1.4/arm_load_store.c:150-171 | STM in one mode, a switch and LDM in another hand over the first mode's view of each listed register |
| Transfers.AcrossModesSpares | arm_simulator-1.4/arm_load_store.c:150-171 | and leave the first mode's separately banked copies unchanged |
| Singles.StepWordDecodes | arm_simulator-1.4/arm_load_store.c:60-67 | the single transfers by four of the next rows are instruction words that decode to them |
| Singles.RisingIsFalling | arm_simulator-1.4/arm_load_store.c:150-171 | the order in which the listed registers are transferred does not matter |
| Singles.RowIsRising | arm_simulator-1.4/arm_load_store.c:60-114 | the LDRs or STRs by four, ascending or descending, make the transfers of the block and leave the base of the write-back |
| Singles.MultipleIsSingles | arm_simulator-1.4/arm_load_store.c:60-186 | LDM and STM with write-back leave the state of the row of LDRs or STRs, for all addresses, if each LDR finds in val what the loop carries in its own |
| Singles.AgreesExactlyWhenReadable | arm_simulator-1.4/arm_load_store.c:60-186 | they agree for all contents of val if and only if every loaded word begins inside the memory; stores always |
| Singles.LoadPastTheEndDisagrees | arm_simulator-1.4/arm_load_store.c:80-82 | LDMIA r0!, {r1} at 0x20000 and the LDR that stands for it leave different values in r1 |
| Stack.WordsMakeFrames | arm_simulator-1.4/arm_load_store.c:60-186 | exactly which offsets and lists make the instruction words of STR and LDR, STMDB and LDMIA a frame |
| Stack.PushEffect | arm_simulator-1.4/arm_load_store.c:60-186 | a push moves the base down by the frame and changes no byte outside it |
| Stack.PopRestores | arm_simulator-1.4/arm_load_store.c:60-186 | a pop of an untouched frame restores the base and every saved register |
| Stack.CodeKeepsStack | arm_simulator-1.4/arm_load_store.c:60-186 | any tree of saves around code that avoids live frames keeps mode, base and every live byte, with frames of up to 2^32 bytes in all |
| Stack.SaveIsTransparent | arm_simulator-1.4/arm_load_store.c:60-186 | saving around such code restores the saved registers and the base |
| Stack.NestedSavesRestore | arm_simulator-1.4/arm_load_store.c:60-186 | at every pop of the run, the saved registers and the base are those of the matching push |
| Stack.NestRestores | arm_simulator-1.4/arm_load_store.c:60-186 | any row of STR or STMDB pushes unwound in reverse restores every register of every frame |
| InsertionSort.InversionsIsCardinality | arm_simulator-1.4/Examples/insertion_sort.c:49-57 | the recursive count is the number of pairs out of order |
| InsertionSort.SwapRemovesOneInversion | arm_simulator-1.4/Examples/insertion_sort.c:52-55 | exchanging two neighbours out of order removes exactly one inversion |
| InsertionSort.ShiftLarger | arm_simulator-1.4/Examples/insertion_sort.c:51-55 | the inner loop computes the array, hole and count of its specification |
| InsertionSort.MoveDownSorts | arm_simulator-1.4/Examples/insertion_sort.c:50-56 | filling that hole leaves the prefix sorted, equal keys in their original order |
| InsertionSort.MoveDownCounts | arm_simulator-1.4/Examples/insertion_sort.c:52-55 | each shift accounts for one inversion |
| InsertionSort.InsertOne | arm_simulator-1.4/Examples/insertion_sort.c:50-56 | the body of the outer loop extends the stably sorted prefix by one element of the input |
| InsertionSort.Sort | arm_simulator-1.4/Examples/insertion_sort.c:49-57 | for every array: a sorted, stable permutation of the input, with as many shifts as the input has inversions |
| Factorial.StepKeepsPending | arm_simulator-1.4/Examples/example6.s:9-42 | every instruction keeps, modulo 2^32, the number the program still has to deliver |
| Factorial.StepDecreases | arm_simulator-1.4/Examples/example6.s:9-42 | every instruction lowers a lexicographic measure over the outer counter r1 and the inner counter r3 |
| Factorial.RunKeepsPending | arm_simulator-1.4/Examples/example6.s:9-42 | so does a run of any length |
| Factorial.HaltsWithFactorial | arm_simulator-1.4/Examples/example6.s:9-42 | wherever a run halts, r7 is n! modulo 2^32 if and only if n is not 0 |
| Factorial.Execute | arm_simulator-1.4/Examples/example6.s:9-42 | the program halts for every n |
| Factorial.Run | arm_simulator-1.4/Examples/example6.s:9-42 | both together |
| ByteReverse.MultiplesDecode | arm_simulator-1.4/Examples/example7.s:18-25 | the instruction words of STMDB and LDMIA decode to a complementary pair on r4 and r5 |
| ByteReverse.UnalignedStackLosesR4 | arm_simulator-1.4/Examples/example7.s:18-25 | with the stack pointer at 0x2902 the same STMDB and LDMIA lose r4 |
| ByteReverse.TurnAdds | arm_simulator-1.4/Examples/example7.s:12-15 | one turn adds one shifted byte load to r1 |
| ByteReverse.Loop | arm_simulator-1.4/Examples/example7.s:10-16 | the loop ends with the sum of four shifted byte loads in r1, memory and stack pointer kept |
| ByteReverse.FrameRestored | arm_simulator-1.4/Examples/example7.s:18 | LDMIA brings back r4, r5 and SP although func overwrote them |
| ByteReverse.Func | arm_simulator-1.4/Examples/example7.s:6-19 | the result is stored behind the data word and the frame is untouched |
| ByteReverse.OutcomeOf | arm_simulator-1.4/Examples/example7.s:10-17 | that sum is the reversed data word plus the indeterminate bits, and equals it if and only if they cancel |
| ByteReverse.Program | arm_simulator-1.4/Examples/example7.s:6-32 | for every data word: r3 is the reversal if and only if the indeterminate bits cancel; r4, r5 and SP are as main set them |

## Left out

- Memory.Ram.LoadWord: a read that starts inside the memory and runs past its end is undefined in C; the model reads the missing bytes as 0, and the laws about restoring and copying do not depend on it.
- Memory.Ram.constructor: only sizes that are a multiple of 4, because an aligned word write could run past the end otherwise; the simulator uses 0x20000.
- LoadStore.ArmCore.AddressingMode: of `shifter_operand` only the immediate left shift is modelled; the value of any other shift is a parameter.
- LoadStore.ArmCore.LoadInto: the half-word and byte cases set the low bits of `val`, as on a little-endian host.
- LoadStore.ArmCore.LoadStoreMultiple: an empty list transfers nothing and leaves the result code indeterminate; its initial value is the parameter `initial`.
- Transfers.SaveRestore: the base may not be the PC, which reads back other than it was written.
- Singles.MultipleIsSingles: not with the base in the list, where the single transfers would use a changed base; and the single instructions of a row run without the fetches between them, which would move the PC on where it is in the list.
- ByteReverse.Program: data processing, branches and flags of the sample programs are written as the register updates and jumps they make; the literal load of an address is a constant.
- Factorial.Run: the same; code addresses are instruction indices.
- InsertionSort.Sort: array elements are unbounded integers; the program only compares them.
- Data-processing instructions, condition codes, branches, MRS, instruction fetch and dispatch: no transfer of data between registers and memory.
- The S bit of LDM/STM, which the code ignores.
- Cycle counts, traces, printed output, the gdb server, the interrupt sender and the build files.
- Sample programs 1 to 5 and the commented-out quicksort: straight-line code, single loops, or not compiled.
