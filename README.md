# SPIR-V backend core, modelled in Dafny

This project models the core of LLVM's SPIR-V code generator. It covers five parts:

- the SPIR-V utilities that pack strings and numbers into 32-bit literal words and map address spaces to storage classes;
- the textual instruction printer;
- the pre-legalizer pass that tracks constants, folds them into intrinsics, attaches types to virtual registers and materialises id registers;
- the lowering of machine instructions to MC instructions;
- the instruction-info queries: the header classifiers, `analyzeBranch` and `copyPhysReg`.

The modules are:

- `Bits`: powers of two and bitwise OR on naturals.
- `Spirv`: opcodes, operands, registers and the SPIR-V enumerations.
- `MIR`: machine instructions and the `MachineFunction`, `InstBuilder` and `MIRBuilder` classes.
- `Utils`, `Printer`, `PreLegalizer`, `MCInstLower` and `InstrInfo`: one module per source file of the core.

State that the source updates in place is a class with `modifies` clauses:

- the machine function;
- the output stream;
- the printer's map from ext-inst-set registers to sets;
- the global registry;
- the module analysis.

Each method is proved against a specification function. The properties the source relies on are lemmas about those functions: round trips, preservation of invariants, and exactly one conversion per use.

A machine function is an arena of instructions addressed by handles, plus a list of blocks. Each block is a sequence of handles. Erasing an instruction removes its handle from its block. Inserting an instruction appends it to the arena and splices its handle into a block. Printed output is a sequence of tokens; `Unprint` reads operands back from those tokens, and the printer's round-trip lemmas are stated through it.

## Model

| member | source | states |
|---|---|---|
| Utils.ConvertCharsToWord | llvm/lib/Target/SPIRV/SPIRVUtils.cpp:23-34 | the word holds the four bytes at i, little-endian, with zero past the end of the string |
| Utils.PaddedLen | llvm/lib/Target/SPIRV/SPIRVUtils.cpp:37-40 | the padded length is a multiple of 4 and leaves room for at least one terminating zero byte (between len+1 and len+4) |
| Utils.AddStringImm | llvm/lib/Target/SPIRV/SPIRVUtils.cpp:50-56 | appends exactly the string's words as immediates and changes nothing else of the instruction |
| Utils.StringWordCount | llvm/lib/Target/SPIRV/SPIRVUtils.cpp:42-48 | a string of n bytes takes n/4+1 words |
| Utils.WordByte | llvm/lib/Target/SPIRV/SPIRVUtils.cpp:23-34 | byte j of word k is byte 4k+j of the string, or zero past its end |
| Utils.LastWordTopByteZero | llvm/lib/Target/SPIRV/SPIRVUtils.cpp:37-40 | the last word always ends in a zero byte, so the encoded string is NUL-terminated |
| Utils.StringRoundTrip | llvm/lib/Target/SPIRV/SPIRVUtils.cpp:42-48 | reading a NUL-free string back from its words gives the string, whatever words follow |
| Utils.NumImmWords | llvm/lib/Target/SPIRV/SPIRVUtils.cpp:71-91 | width 1 emits nothing; widths 8, 16 and 32 emit the value; width 64 emits two words whose low OR (high shifted by 32) is the value |
| Utils.SplitJoin | llvm/lib/Target/SPIRV/SPIRVUtils.cpp:81-86 | joining the low and high 32-bit halves with OR gives back the 64-bit value |
| Utils.AddNumImm | llvm/lib/Target/SPIRV/SPIRVUtils.cpp:71-91 | succeeds exactly for a supported bit width, then appends that width's words; otherwise it appends nothing |
| Utils.DecorateOperands | llvm/lib/Target/SPIRV/SPIRVUtils.cpp:101-109 | target, decoration, then the string words when the string is non-empty, then the decoration arguments, with that length |
| Utils.BuildOpName | llvm/lib/Target/SPIRV/SPIRVUtils.cpp:93-99 | an empty name builds nothing; otherwise one OpName on the target followed by the name's words |
| Utils.AddWordImms | llvm/lib/Target/SPIRV/SPIRVUtils.cpp:106-107 | appends each decoration argument as an immediate, in order |
| Utils.BuildOpDecorate | llvm/lib/Target/SPIRV/SPIRVUtils.cpp:101-109 | builds exactly one OpDecorate, whose operands are DecorateOperands |
| Utils.AddressSpaceToStorageClass | llvm/lib/Target/SPIRV/SPIRVUtils.cpp:132-149 | each of the six known address spaces (0, 1, 2, 3, 4 and 7) maps to a storage class that has an address space |
| Utils.StorageClassToAddressSpace | llvm/lib/Target/SPIRV/SPIRVUtils.cpp:113-130 | gives a known address space that maps back to the same storage class |
| Utils.AddressSpaceRoundTrip | llvm/lib/Target/SPIRV/SPIRVUtils.cpp:113-149 | address space to storage class and back is the identity on the known address spaces |
| Utils.GetMemSemanticsForStorageClass | llvm/lib/Target/SPIRV/SPIRVUtils.cpp:151-168 | each semantics bit, if and only if the storage class is one of its classes; none for every other class |
| Printer.OperandRoundTrip | llvm/lib/Target/SPIRV/MCTargetDesc/SPIRVInstPrinter.cpp:271-287 | a printed operand, with or without a leading space, reads back as that operand |
| Printer.InstPrinter.PrintOperand | llvm/lib/Target/SPIRV/MCTargetDesc/SPIRVInstPrinter.cpp:271-287 | writes exactly the operand's token |
| Printer.VarOpsOperands | llvm/lib/Target/SPIRV/MCTargetDesc/SPIRVInstPrinter.cpp:35-48 | the printed variable operands read back as the operands from the start index, without the immediates when those are skipped |
| Printer.VarOpsSpaced | llvm/lib/Target/SPIRV/MCTargetDesc/SPIRVInstPrinter.cpp:35-48 | without skipFirstSpace, every printed operand is preceded by exactly one space |
| Printer.VarOpsSkipFirstSpace | llvm/lib/Target/SPIRV/MCTargetDesc/SPIRVInstPrinter.cpp:41-46 | skipFirstSpace drops exactly the first space, and only when some operand is printed |
| Printer.InstPrinter.PrintRemainingVariableOps | llvm/lib/Target/SPIRV/MCTargetDesc/SPIRVInstPrinter.cpp:35-48 | writes the variable operands from the start index to the end |
| Printer.InstPrinter.PrintVarOp | llvm/lib/Target/SPIRV/MCTargetDesc/SPIRVInstPrinter.cpp:40-46 | one loop step: a skipped immediate writes nothing; otherwise an optional space, then the operand |
| Printer.ConstantRoundTrip | llvm/lib/Target/SPIRV/MCTargetDesc/SPIRVInstPrinter.cpp:50-61 | two trailing words from the 64-bit split print as the one unsigned 64-bit value |
| Printer.InstPrinter.PrintOpConstantVarOps | llvm/lib/Target/SPIRV/MCTargetDesc/SPIRVInstPrinter.cpp:50-61 | two remaining operands print as their combined 64-bit value; any other count prints as plain operands |
| Printer.CopyMemoryRoundTrip | llvm/lib/Target/SPIRV/MCTargetDesc/SPIRVInstPrinter.cpp:151-165 | memory-access groups, each a mask with an alignment exactly when the Aligned bit is set, print as their masks and alignments |
| Printer.InstPrinter.PrintCopyMemoryOps | llvm/lib/Target/SPIRV/MCTargetDesc/SPIRVInstPrinter.cpp:151-165 | the copy-memory loop writes every mask group in turn |
| Printer.InstPrinter.PrintMemGroup | llvm/lib/Target/SPIRV/MCTargetDesc/SPIRVInstPrinter.cpp:155-162 | one mask, plus the next operand when the Aligned bit is set; returns the start of the next group |
| Printer.UnescapeEscape | llvm/lib/Target/SPIRV/MCTargetDesc/SPIRVInstPrinter.cpp:301-305 | reading a backslash-quote pair as one quote undoes the escaping, so the printed text determines the string |
| Printer.InstPrinter.WriteQuoted | llvm/lib/Target/SPIRV/MCTargetDesc/SPIRVInstPrinter.cpp:300-306 | writes a quote, the escaped string and a quote |
| Printer.InstPrinter.WriteEscapedByte | llvm/lib/Target/SPIRV/MCTargetDesc/SPIRVInstPrinter.cpp:302-304 | a double quote is written with a backslash before it; any other byte, backslash included, as itself |
| Printer.StringOperandOf | llvm/lib/Target/SPIRV/MCTargetDesc/SPIRVInstPrinter.cpp:297 | reading a string operand at i gives the NUL-free string whose words are stored there |
| Printer.InstPrinter.PrintStringImm | llvm/lib/Target/SPIRV/MCTargetDesc/SPIRVInstPrinter.cpp:289-319 | writes the loop's output as written: the string decoded at OpNo, once per string position, up to a register operand |
| Printer.InstPrinter.PrintStringAt | llvm/lib/Target/SPIRV/MCTargetDesc/SPIRVInstPrinter.cpp:293-317 | one loop step: a separator, the quoted string, the step to the next string, and a stop with the linkage type for a LinkageAttributes decoration |
| Printer.StringImmRepeatsFirst | llvm/lib/Target/SPIRV/MCTargetDesc/SPIRVInstPrinter.cpp:297 | two stored strings of equal word count print the first string twice |
| Printer.StringImmLinkageAgrees | llvm/lib/Target/SPIRV/MCTargetDesc/SPIRVInstPrinter.cpp:311-317 | for a LinkageAttributes decoration, the only call site in this core, the as-written loop equals the corrected one |
| Printer.StringsRoundTrip | llvm/lib/Target/SPIRV/MCTargetDesc/SPIRVInstPrinter.cpp:289-319 | the corrected loop prints every stored string, in order, space-separated |
| Printer.StringsLinkage | llvm/lib/Target/SPIRV/MCTargetDesc/SPIRVInstPrinter.cpp:311-317 | a linkage name followed by a linkage type prints as the quoted name, then the linkage-type enumerant |
| Printer.DecorateEnumArg | llvm/lib/Target/SPIRV/MCTargetDesc/SPIRVInstPrinter.cpp:229-243 | a decoration with an enumerated argument prints that argument as its enumerant |
| Printer.DecorateLinkage | llvm/lib/Target/SPIRV/MCTargetDesc/SPIRVInstPrinter.cpp:244-246 | LinkageAttributes prints the quoted name, then the linkage type |
| Printer.DecorateOther | llvm/lib/Target/SPIRV/MCTargetDesc/SPIRVInstPrinter.cpp:247-249 | any other decoration's arguments print as plain operands that read back as themselves |
| Printer.InstPrinter.PrintOpDecorate | llvm/lib/Target/SPIRV/MCTargetDesc/SPIRVInstPrinter.cpp:216-252 | writes nothing without extra operands; otherwise a space, then the decoration's arguments |
| Printer.InstPrinter.PrintDecorationArgs | llvm/lib/Target/SPIRV/MCTargetDesc/SPIRVInstPrinter.cpp:225-250 | the switch on the decoration kind: an enumerant, a linkage string, or plain operands |
| Printer.Touch | llvm/lib/Target/SPIRV/MCTargetDesc/SPIRVInstPrinter.cpp:193 | `ExtInstSetIDs[SetReg]` keeps every entry and inserts the default set when the register is missing |
| Printer.RecordImport | llvm/lib/Target/SPIRV/MCTargetDesc/SPIRVInstPrinter.cpp:63-68 | insert adds the register's set but never overwrites an existing entry |
| Printer.UseBeforeImportPinsDefault | llvm/lib/Target/SPIRV/MCTargetDesc/SPIRVInstPrinter.cpp:193 | an OpExtInst printed before its import pins the register to OpenCL_std; the later import cannot change it |
| Printer.InstPrinter.RecordOpExtInstImport | llvm/lib/Target/SPIRV/MCTargetDesc/SPIRVInstPrinter.cpp:63-68 | the map becomes RecordImport with the set named by the string operand |
| Printer.InstPrinter.PrintOpExtInst | llvm/lib/Target/SPIRV/MCTargetDesc/SPIRVInstPrinter.cpp:181-214 | no output and no map change without extra operands; otherwise the set lookup touches the map and the arguments are printed for that set |
| Printer.InstPrinter.PrintExtInstArgs | llvm/lib/Target/SPIRV/MCTargetDesc/SPIRVInstPrinter.cpp:194-213 | the rounding-store instructions print their leading arguments, then the rounding mode; everything else prints plain operands |
| Printer.InstPrinter.PrintLeadingArgs | llvm/lib/Target/SPIRV/MCTargetDesc/SPIRVInstPrinter.cpp:201-204 | each operand from start to end, each followed by a space |
| Printer.LeadingArgsOperands | llvm/lib/Target/SPIRV/MCTargetDesc/SPIRVInstPrinter.cpp:201-204 | the leading arguments read back as exactly those operands |
| Printer.ExtInstRoundingStore | llvm/lib/Target/SPIRV/MCTargetDesc/SPIRVInstPrinter.cpp:197-206 | for vstore_half_r and its variants, the last token is the FP rounding mode and the tokens before it read back as the other arguments |
| Printer.EntryPointInterface | llvm/lib/Target/SPIRV/MCTargetDesc/SPIRVInstPrinter.cpp:103-107 | after OpEntryPoint's name, the interface operands print space-separated without immediates |
| Printer.LoadStoreTail | llvm/lib/Target/SPIRV/MCTargetDesc/SPIRVInstPrinter.cpp:123-128 | OpLoad and OpStore print the memory-operand mask as an enumerant, then the remaining operands |
| Printer.InstPrinter.PrintInst | llvm/lib/Target/SPIRV/MCTargetDesc/SPIRVInstPrinter.cpp:70-179 | the dispatch on opcode: OpDecorate, OpExtInstImport, OpExtInst and the variadic tail, with what each does to the stream and the set map |
| Printer.InstPrinter.PrintCustomTail | llvm/lib/Target/SPIRV/MCTargetDesc/SPIRVInstPrinter.cpp:89-117 | the per-opcode tail when the last fixed operand is custom |
| Printer.InstPrinter.PrintPlainTail | llvm/lib/Target/SPIRV/MCTargetDesc/SPIRVInstPrinter.cpp:118-175 | the per-opcode tail otherwise: memory masks, image operands, copy memory, 64-bit constants, or plain operands |
| Printer.InstPrinter.PrintMaskedTail | llvm/lib/Target/SPIRV/MCTargetDesc/SPIRVInstPrinter.cpp:123-150 | a mask enumerant followed by the remaining operands |
| PreLegalizer.IsSpvIntrinsicOperand | llvm/lib/Target/SPIRV/SPIRVPreLegalizer.cpp:43-48 | an instruction is the intrinsic if and only if it is G_INTRINSIC_W_SIDE_EFFECTS whose operand after the defs names that intrinsic |
| PreLegalizer.TrackOne | llvm/lib/Target/SPIRV/SPIRVPreLegalizer.cpp:56-89 | a tracked constant already in the registry resolves to its register; otherwise it is registered under the operand-2 register; the definition reported for erasure is exactly the spv_const_composite behind operand 2 of a resolved non-global track |
| PreLegalizer.GlobalRegistry.Add | llvm/lib/Target/SPIRV/SPIRVPreLegalizer.cpp:64-78 | the key is registered afterwards; a key already registered keeps its register, and a new key gets the one given |
| PreLegalizer.AddElements | llvm/lib/Target/SPIRV/SPIRVPreLegalizer.cpp:70-77 | the registry becomes the registry with each vector element added in order; types are unchanged |
| PreLegalizer.AddAllRegisters | llvm/lib/Target/SPIRV/SPIRVPreLegalizer.cpp:70-77 | every element is registered: with its register at its first occurrence, or with the register it already had |
| PreLegalizer.AddAllKeeps | llvm/lib/Target/SPIRV/SPIRVPreLegalizer.cpp:74-76 | a key registered before the elements are added keeps its register |
| PreLegalizer.AddAllKeys | llvm/lib/Target/SPIRV/SPIRVPreLegalizer.cpp:74-76 | after the elements are added, the registered keys are exactly the old keys and the elements |
| PreLegalizer.VectorElementsRegistered | llvm/lib/Target/SPIRV/SPIRVPreLegalizer.cpp:70-78 | after the vector itself is registered, each element maps to the register of its first occurrence, or to the one it had before |
| PreLegalizer.CollectTracked | llvm/lib/Target/SPIRV/SPIRVPreLegalizer.cpp:54-91 | on success, `ToErase` is exactly the live spv_track_constant instructions in order, and each constant is in the registry; the registry moves track by track as `TrackRegistered` says; `RegsAlreadyAddedToDT` maps exactly the tracks whose constant was already registered when they were reached, to that register; `ToEraseComposites` is exactly the composites behind those tracks |
| PreLegalizer.CollectOne | llvm/lib/Target/SPIRV/SPIRVPreLegalizer.cpp:56-89 | one iteration of the first loop extends the collected state (tracks, registry chain, resolutions and composites) by one live instruction |
| PreLegalizer.TracksDistinct | llvm/lib/Target/SPIRV/SPIRVPreLegalizer.cpp:54-57 | the tracks collected from distinct handles are distinct |
| PreLegalizer.ChainKeysBetween | llvm/lib/Target/SPIRV/SPIRVPreLegalizer.cpp:64-88 | the first loop never removes a constant from the registry |
| PreLegalizer.ChainRegisters | llvm/lib/Target/SPIRV/SPIRVPreLegalizer.cpp:64-78 | after the first loop, every tracked constant is in the registry |
| PreLegalizer.ResolutionsAt | llvm/lib/Target/SPIRV/SPIRVPreLegalizer.cpp:64-80 | a track is in `RegsAlreadyAddedToDT` if and only if its constant was registered when it was reached, and then maps to that register |
| PreLegalizer.DuplicateResolved | llvm/lib/Target/SPIRV/SPIRVPreLegalizer.cpp:54-91 | a second spv_track_constant of the same constant is in `RegsAlreadyAddedToDT`, mapped to the register the registry holds for that constant |
| PreLegalizer.RenameAllFirst | llvm/lib/Target/SPIRV/SPIRVPreLegalizer.cpp:92-96 | when no replacement target is itself a later source, the whole sequence of replacements sends a register to the target of the first pair that renames it, and leaves no source register behind |
| PreLegalizer.TrackRenamesSource | llvm/lib/Target/SPIRV/SPIRVPreLegalizer.cpp:93-96 | under that condition, the register replaced for track j is that track's result register as the arena read before the loop |
| PreLegalizer.TrackUsesReplaced | llvm/lib/Target/SPIRV/SPIRVPreLegalizer.cpp:92-98 | after the replacements, no operand names a track's result register any more, and every operand that named it now names the chosen register |
| PreLegalizer.ReplaceTracks | llvm/lib/Target/SPIRV/SPIRVPreLegalizer.cpp:92-98 | the second loop: every instruction is the old one with each track's result replaced in turn by its chosen register, each track leaves its block, and nothing else is removed |
| PreLegalizer.ReplaceAndErase | llvm/lib/Target/SPIRV/SPIRVPreLegalizer.cpp:92-100 | uses of the tracked result become the chosen register (an earlier duplicate's, else operand 2), and the instruction leaves its block |
| PreLegalizer.EraseAll | llvm/lib/Target/SPIRV/SPIRVPreLegalizer.cpp:92-100 | the listed instructions are gone from every block, and every other instruction stays |
| PreLegalizer.AddConstantsToTrack | llvm/lib/Target/SPIRV/SPIRVPreLegalizer.cpp:50-101 | on success, the tracks are exactly the live spv_track_constant instructions, the registry moves along them as the first loop says, every instruction reads as renamed by each track's result going to its chosen register (the earlier registration for a duplicate, else operand 2), every track and every duplicate's spv_const_composite leaves its block, and every other instruction stays |
| PreLegalizer.FoldPosOfAssignName | llvm/lib/Target/SPIRV/SPIRVPreLegalizer.cpp:103-106 | only spv_assign_name folds constants, at operand index explicit defs + 2 |
| PreLegalizer.FoldedShape | llvm/lib/Target/SPIRV/SPIRVPreLegalizer.cpp:119-125 | a fold removes the register operand, shifts the rest left, and appends the constant's value as an immediate |
| PreLegalizer.FoldedUses | llvm/lib/Target/SPIRV/SPIRVPreLegalizer.cpp:119-125 | a fold never adds a use of any register |
| PreLegalizer.FoldStep | llvm/lib/Target/SPIRV/SPIRVPreLegalizer.cpp:118-127 | folds only an operand defined by a G_CONSTANT; that constant is erasable only when it has no use left |
| PreLegalizer.FoldedWithStep | llvm/lib/Target/SPIRV/SPIRVPreLegalizer.cpp:115-125 | after k folds the operand at the fold position is the original operand k places later, and one more fold removes it and appends its value after the k values already appended |
| PreLegalizer.FoldedAtStep | llvm/lib/Target/SPIRV/SPIRVPreLegalizer.cpp:115-125 | folding a register whose definition is a G_CONSTANT of value v extends the record of folded values by v |
| PreLegalizer.FoldProgressStep | llvm/lib/Target/SPIRV/SPIRVPreLegalizer.cpp:115-127 | one fold keeps the loop invariant: only the intrinsic changes, no use count grows, reported constants stay unused, and the register count from the fold position drops |
| PreLegalizer.FoldInstr | llvm/lib/Target/SPIRV/SPIRVPreLegalizer.cpp:113-128 | the while loop folds the registers at the fold position, in order, each into the value of the G_CONSTANT defining it, until a non-register stands there; registers after that stay; no other instruction changes and only unused constants are returned |
| PreLegalizer.FoldLoopStep | llvm/lib/Target/SPIRV/SPIRVPreLegalizer.cpp:109-131 | folding one live instruction keeps the record exact: changed instructions are recorded with their folded values, all others are unchanged; a second visit folds nothing |
| PreLegalizer.FoldAll | llvm/lib/Target/SPIRV/SPIRVPreLegalizer.cpp:109-131 | every live spv_assign_name is recorded and done, each recorded one is its original folded with the recorded constant values, every other instruction is unchanged, and everything returned for erasure is unused |
| PreLegalizer.FoldConstantsIntoIntrinsics | llvm/lib/Target/SPIRV/SPIRVPreLegalizer.cpp:108-134 | in every spv_assign_name the registers at the fold position become the values of their G_CONSTANTs until a non-register is there; nothing else in the arena changes; only constants no instruction still uses are erased |
| PreLegalizer.ChainTypeMoreFuel | llvm/lib/Target/SPIRV/SPIRVPreLegalizer.cpp:159-200 | once the copy-chain type is decided, more fuel does not change it |
| PreLegalizer.PropagateSPIRVType | llvm/lib/Target/SPIRV/SPIRVPreLegalizer.cpp:159-200 | returns the copy-chain type, records it for the def register, gives a newly typed def a register class, and keeps every earlier type |
| PreLegalizer.InsertAssignInstr | llvm/lib/Target/SPIRV/SPIRVPreLegalizer.cpp:206-229 | the def now writes a fresh register; an ASSIGN_TYPE from it to the old register is placed right after the def; both registers get the type |
| PreLegalizer.AssignAfterDef | llvm/lib/Target/SPIRV/SPIRVPreLegalizer.cpp:211-226 | the same rewiring once the def and its place in the block are known |
| PreLegalizer.IdRegChoice | llvm/lib/Target/SPIRV/SPIRVPreLegalizer.cpp:312-338 | the GET opcode is pID exactly for pointers, vID/vfID exactly for vectors, and fID/vfID exactly for float types; class and LLT follow |
| PreLegalizer.CreateNewIdReg | llvm/lib/Target/SPIRV/SPIRVPreLegalizer.cpp:312-338 | a fresh register with the chosen class and LLT |
| PreLegalizer.ConvertOperands | llvm/lib/Target/SPIRV/SPIRVPreLegalizer.cpp:354-366 | one conversion per use operand, each inserted after the previous one; the count returned is the number of uses |
| PreLegalizer.ProgressUse | llvm/lib/Target/SPIRV/SPIRVPreLegalizer.cpp:361-364 | converting one use operand keeps the invariant of every earlier conversion and adds one more |
| PreLegalizer.ProcessInstr | llvm/lib/Target/SPIRV/SPIRVPreLegalizer.cpp:340-367 | the sole user (the ASSIGN_TYPE) reads a fresh id register in operand 1, the result is written to that register, and every use operand is converted |
| PreLegalizer.ConversionsOnePerUse | llvm/lib/Target/SPIRV/SPIRVPreLegalizer.cpp:354-366 | every inserted instruction is the conversion of exactly one use operand, and no two use operands share a converted register |
| PreLegalizer.ScalarConstType | llvm/lib/Target/SPIRV/SPIRVPreLegalizer.cpp:273-276 | G_CONSTANT gives an integer type and G_FCONSTANT a float type |
| PreLegalizer.ConstantType | llvm/lib/Target/SPIRV/SPIRVPreLegalizer.cpp:272-292 | only constants get a type; a build-vector gets a vector of (explicit operands minus defs) elements of a scalar constant type |
| PreLegalizer.VisitForAssign | llvm/lib/Target/SPIRV/SPIRVPreLegalizer.cpp:243-299 | the case analysis for one instruction: assign_type is replaced or recorded and deleted, constants get an ASSIGN_TYPE, and other defs propagate a type |
| PreLegalizer.SkippedConstantStalls | llvm/lib/Target/SPIRV/SPIRVPreLegalizer.cpp:264-270 | as written, the cursor never leaves a constant whose single use is assign_type or assign_name |
| PreLegalizer.NamedConstantStalls | llvm/lib/Target/SPIRV/SPIRVPreLegalizer.cpp:264-270 | a concrete block: a constant named by spv_assign_name stops the walk |
| PreLegalizer.NextCursor | llvm/lib/Target/SPIRV/SPIRVPreLegalizer.cpp:301-304 | the corrected step always moves strictly toward the block's start |
| PreLegalizer.WalkEnds | llvm/lib/Target/SPIRV/SPIRVPreLegalizer.cpp:240-305 | the corrected walk reaches the beginning after exactly as many steps as the block has instructions |
| PreLegalizer.ClassifyFits | llvm/lib/Target/SPIRV/SPIRVPreLegalizer.cpp:243-299 | the case chosen for an instruction reads it as the source's cases do: register and type of an spv_assign_type from operands 1 and 2, a constant typed at its result, and the rest left alone |
| PreLegalizer.PlaceAssignInstr | llvm/lib/Target/SPIRV/SPIRVPreLegalizer.cpp:206-229 | the new ASSIGN_TYPE is appended, reads the fresh register and carries the type, sits in a block, and both registers are typed |
| PreLegalizer.VisitStep | llvm/lib/Target/SPIRV/SPIRVPreLegalizer.cpp:243-299 | one visit takes the case that the classification of the instruction in the function as it stands gives, fitting the instruction, and records the placement of the ASSIGN_TYPE exactly when it inserted one; it deletes exactly an spv_assign_type |
| PreLegalizer.VisitOutcome | llvm/lib/Target/SPIRV/SPIRVPreLegalizer.cpp:243-299 | for each visit, against the function as it stood then: an spv_assign_type inserts an ASSIGN_TYPE exactly when its register's definition is not a G_GLOBAL_VALUE; a constant inserts one exactly when it is not typed by its sole use in an spv_assign_type or spv_assign_name, and then with the constant's type; nothing else inserts |
| PreLegalizer.WalkVisit | llvm/lib/Target/SPIRV/SPIRVPreLegalizer.cpp:243-304 | one visit extends what the walk has established by that visit |
| PreLegalizer.WalkAt | llvm/lib/Target/SPIRV/SPIRVPreLegalizer.cpp:243-304 | visiting the instruction at the cursor extends the walk's records, and the visits so far are the block from its end down to the cursor |
| PreLegalizer.WalkBlock | llvm/lib/Target/SPIRV/SPIRVPreLegalizer.cpp:240-305 | visits the block's instructions from last to first, each once; the function only grows; it deletes exactly the spv_assign_type instructions visited; each visit's case is the classification of its instruction in the function as it stood at that visit, fits the instruction and never fails, and each inserting visit leaves its ASSIGN_TYPE in a block with both registers typed |
| PreLegalizer.PlacedAfterErase | llvm/lib/Target/SPIRV/SPIRVPreLegalizer.cpp:308-309 | erasing the deleted spv_assign_type instructions removes no inserted ASSIGN_TYPE |
| PreLegalizer.WalkOrder | llvm/lib/Target/SPIRV/SPIRVPreLegalizer.cpp:233-305 | the blocks of `order` are walked in that order, each from its last instruction to its first, over the block as it stood when its walk began, which holds the block's original instructions in their order |
| PreLegalizer.GenerateAssignInstrs | llvm/lib/Target/SPIRV/SPIRVPreLegalizer.cpp:231-310 | the visits are the blocks of `order`, in that order, each walked from last to first over what it held before the pass; every visited spv_assign_type and everything deleted is gone from every block; each visit's case is the classification of its instruction in the function as it stood at that visit, between the original function and the one after the walk, and each inserting visit's ASSIGN_TYPE is still in a block, with both registers typed |
| MCInstLower.ModuleAnalysis.GetOrCreateMBBRegister | llvm/lib/Target/SPIRV/SPIRVMCInstLower.cpp:46-48 | a block keeps the register it got first; a new block gets the next virtual register, and the label registers stay distinct |
| MCInstLower.LowerOperandKinds | llvm/lib/Target/SPIRV/SPIRVMCInstLower.cpp:36-66 | registers go through the alias only when one is set, ordinary immediates keep their value, the ext-set immediate and functions and blocks become registers, and other kinds fail |
| MCInstLower.LowerOperandGrows | llvm/lib/Target/SPIRV/SPIRVMCInstLower.cpp:46-48 | a block register already handed out lowers the same way later |
| MCInstLower.LowerOne | llvm/lib/Target/SPIRV/SPIRVMCInstLower.cpp:35-68 | one operand lowers exactly when its kind is handled, to LowerOperand; only its own block may gain a register |
| MCInstLower.Lower | llvm/lib/Target/SPIRV/SPIRVMCInstLower.cpp:27-71 | succeeds exactly when every operand is handled, with the same opcode and one lowered operand per operand, in order |
| MCInstLower.LowerTwo | llvm/lib/Target/SPIRV/SPIRVMCInstLower.cpp:46-48 | two references to one block, in two instructions lowered in turn, get the same register |
| InstrInfo.OpcodeSetsDisjoint | llvm/lib/Target/SPIRV/SPIRVInstrInfo.cpp:28-92 | no opcode is both a header opcode, a decoration and a constant |
| InstrInfo.TypeDeclIsHeader | llvm/lib/Target/SPIRV/SPIRVInstrInfo.cpp:49-57 | a type declaration defines a TYPE-class register, and is a header instruction |
| InstrInfo.BranchNotHeader | llvm/lib/Target/SPIRV/SPIRVInstrInfo.cpp:72-92 | a branch is a header instruction only if it declares a type |
| InstrInfo.AnalyzeBranch | llvm/lib/Target/SPIRV/SPIRVInstrInfo.cpp:121-146 | an empty block is analysable; otherwise it is unknown exactly when the last instruction is not a branch; the targets and the condition are as the branch gives them |
| InstrInfo.RenameMovesOccurrences | llvm/lib/Target/SPIRV/SPIRVInstrInfo.cpp:225-240 | renaming moves every occurrence of the old register onto the new one |
| InstrInfo.RenameInstrUses | llvm/lib/Target/SPIRV/SPIRVInstrInfo.cpp:225-240 | after the rename, the destination has no use and the source has the uses of both |
| InstrInfo.CopyPhysReg | llvm/lib/Target/SPIRV/SPIRVInstrInfo.cpp:225-240 | only a COPY of one register into a different one is handled; it replaces the destination by the source everywhere, and leaves the blocks, LLTs, classes and register count alone |
| MIR.MachineFunction.ReplaceRegWith | llvm/lib/Target/SPIRV/SPIRVPreLegalizer.cpp:96 | every instruction is renamed from one register to the other, and nothing else changes |
| MIR.MachineFunction.EraseFromParent | llvm/lib/Target/SPIRV/SPIRVPreLegalizer.cpp:97 | the handle leaves every block, and the arena is unchanged |
| MIR.MachineFunction.InsertAfter | llvm/lib/Target/SPIRV/SPIRVPreLegalizer.cpp:211-225 | the new instruction is appended to the arena, and its handle is placed right after position pos |
| MIR.MachineFunction.CreateGenericVirtualRegister | llvm/lib/Target/SPIRV/SPIRVPreLegalizer.cpp:214 | a fresh register with the given LLT |

## Left out

- The printer's enumeration tables, `printInstruction` (the generated fixed-operand printer), `formatImm` and `printExpr` are left out. Enumerants are printed as an (enum kind, value) token.
- Floating point is left out: `convertToFloat`, the printing of FP immediates (lowered to one `DFPImm` operand), and the values of `G_FCONSTANT` constants.
- `getSPIRVStringOperand` is read as `ReadString`: the bytes of the words up to the first NUL.
- `Utils.AddressSpaceToStorageClass` and `Utils.StorageClassToAddressSpace` require a known address space or storage class. Any other value reaches `llvm_unreachable` in the source.
- `printExtInst` is left out. It prints an instruction's name from the generated name tables, which are not part of this model.
- `getStringImm` is left out; it only forwards to the modelled string reader.
- The IR-builder overload of `addStringImm` (SPIRVUtils.cpp:58-65) is left out. It repeats the modelled loop, but pushes each word as an `i32` value into an argument vector instead of an instruction.
- `constrainRegOperands` is left out; it calls the generic register-bank selector, which is not part of this model.
- `insertBitcasts` is left out; it replaces an intrinsic with a `G_BITCAST`, whose builder is not part of this model.
- `processInstrsWithTypeFolding` and `isTypeFoldingSupported` are left out. The set of foldable opcodes is not part of this model; `ProcessInstr` states the per-instruction rewrite.
- `runOnMachineFunction` is left out as a driver. It calls the modelled passes in the order in which they are listed.
- `PreLegalizer.GenerateAssignInstrs`: the control-flow graph's post order is a parameter. Computing it is not part of this model.
- `PreLegalizer.WalkBlock`: the walk visits a snapshot of the block taken before the walk. An `ASSIGN_TYPE` inserted after the current instruction is never visited by the source either, because the cursor only moves toward the start. But `insertAssignInstr` puts the new `ASSIGN_TYPE` right after the definition of its register (SPIRVPreLegalizer.cpp:211-213). When an `spv_assign_type` names a register defined earlier in the same block, the new instruction lands before the cursor. The source then visits it, matches no case and moves on; the model does not visit it. So `visited == Reversed(old blocks[b])` is the model's visit order, not exactly the source's: the source's order also holds these extra visits, which change nothing.
- `PreLegalizer.PropagateSPIRVType`: the recursion carries a fuel bound equal to the arena size. A copy chain longer than the arena (a cycle) returns no type, where the source would recurse without end.
- `PreLegalizer.GlobalRegistry.Add` and `PreLegalizer.AddElements`: the duplicates tracker behind `SPIRVGlobalRegistry::add` is not part of this model. Its `add` is modelled as keeping the register already registered for a key, so a repeated vector element keeps its first register.
- `MIR.MachineFunction.ReplaceRegWith` does not require the two registers to differ, although `MachineRegisterInfo::replaceRegWith` asserts it. That function is not part of this model; `InstrInfo.CopyPhysReg` fails for a COPY of a register into itself instead.
- `PreLegalizer.GlobalRegistry`: types are interned structurally. A type is its own identifier, so the registry's type tables are not modelled.
- The source's `assert` calls are modelled as a failed result (`ok == false`), except in the members below, where the assertion is a precondition instead:
  - `PreLegalizer.ProcessInstr`: the instruction must define a register with exactly one use (the assert at SPIRVPreLegalizer.cpp:343);
  - `PreLegalizer.CreateNewIdReg`: the register must have a SPIR-V type (the assert at SPIRVPreLegalizer.cpp:317);
  - `InstrInfo.AnalyzeBranch`: branch targets must be block operands, as `getMBB` asserts;
  - `Printer.InstPrinter.PrintCopyMemoryOps` and `Printer.InstPrinter.PrintMemGroup`: an `Aligned` mask must be followed by its alignment operand (the "Missing alignment operand" assert at SPIRVInstPrinter.cpp:158).
  - `Printer.InstPrinter.PrintInst`, through `Printer.Printable`, makes several checks preconditions:
    - every register operand is virtual, as `virtReg2Index` asserts;
    - the operands that `getImm` and `getReg` read have that kind: the decoration of an `OpDecorate` (`Printer.DecorateReady`), the result of an `OpExtInstImport` (`Printer.ImportReady`), the set and the instruction number of an `OpExtInst` (`Printer.ExtInstReady`), and the two words of a 64-bit `OpConstantI` or `OpConstantF` (`Printer.ConstReady`);
    - the memory-operand groups of `OpCopyMemory` and `OpCopyMemorySized` carry their alignment operand after an `Aligned` mask (`Printer.MemGroupsOK`);
    - the set name of an `OpExtInstImport` is a known one (`Printer.ImportReady`); `getExtInstSetFromString`, called at SPIRVInstPrinter.cpp:66, reaches `llvm_unreachable` for any other name.
- `Printer.EnumToks`: the generated enumerant printers call `getImm()`, which asserts that the operand is an immediate. The model prints nothing for a register or a missing operand there.
- `PreLegalizer.TrackUsesReplaced` and `PreLegalizer.RenameAllFirst` assume that no chosen register is itself the result register of a later track. This holds in SSA form, where a track's result has no other definition; the rename as a whole is stated without it in `PreLegalizer.AddConstantsToTrack`.
- `PreLegalizer.ResolutionsAt` and `PreLegalizer.DuplicateResolved` need the tracks to be distinct handles, which `PreLegalizer.TracksDistinct` gives for the live instructions of a function.
- `PreLegalizer.GenerateAssignInstrs` and `PreLegalizer.WalkBlock`: a later visit may rebind a register's type, so the model states that each inserted ASSIGN_TYPE's registers are typed, not which type they still hold.
- `MCInstLower.ModuleAnalysis`: the module analysis holds only the four maps and the counter that the lowering reads.
- A missing ext-inst-set entry lowers to the invalid register. The printer reads the default set for it (`OpenCL_std`, the first enumerator), as `std::map::operator[]` would.
- `InstrInfo.AnalyzeBranch`: there are no debug instructions in this model, so `getLastNonDebugInstr` is the block's last instruction.
- `removeBranch` and `insertBranch` are left out; both end in `llvm_unreachable` in the source.
- `MCSPIRVStreamer.cpp`, `SPIRVMCTargetDesc.h`, `SPIRVSubtarget.h` and `SPIRVTargetMachine.h` are left out. They configure the target and hold no logic of the core.
- `PreLegalizer.PropagateSPIRVType` recomputes the chain type at every call.
- A function operand without a function register makes `MCInstLower.Lower` fail (`ok == false`), as the assert at SPIRVMCInstLower.cpp:42 does.

## Findings

| source | as written | input that shows it | evidently intended | confidence | as-written member | corrected member |
|---|---|---|---|---|---|---|
| llvm/lib/Target/SPIRV/MCTargetDesc/SPIRVInstPrinter.cpp:297 | each string in the loop is decoded at `OpNo`, not at `StrStartIndex` | a non-linkage instruction whose string operands hold two strings of equal word count, e.g. "ab" then "cd" | decode each string at its own start index | not executed | Printer.StringImmRepeatsFirst | Printer.StringsRoundTrip |
| llvm/lib/Target/SPIRV/SPIRVPreLegalizer.cpp:264-270 | the `continue` for a constant used only by spv_assign_type or spv_assign_name skips `--MII`, so the same instruction is visited again | a block `%0 = G_CONSTANT i32 5` then `spv_assign_name %0, 120`, walked from its last instruction | step to the previous instruction before continuing | not executed | PreLegalizer.SkippedConstantStalls | PreLegalizer.WalkBlock, PreLegalizer.WalkEnds |
