# irata2: a verified model

irata2 is an 8-bit computer in software: a microcode compiler, a simulator that runs the compiled
microcode, an assembler and a disassembler for its programs, and a debug-information format that the
assembler prints and the simulator loads. This project models the parts of it in which something has to
agree with something else, and proves the agreements.

## The models

**From microcode to a running machine.** `Hdl` and `Ir` hold controls, steps, variants and instruction sets.
`Transformers`, `Optimizers` and `Validators`, `StatusValidator` are the compiler's passes, each a loop proved
against what it means; `StatusEncoder`, `Encoders` and `Compiler` expand conditions, pack words and keys and build
the sparse table; `InstructionMemory` burns and reads the ROM. `Simulator` is the five-phase tick as a function of
the machine's registers, `CpuObject` the object that performs it in place. The theorems are about an arbitrary
instruction set; the shipped microcode serves only for examples. `Pipeline` shows what the order of passes
guarantees, `Datapath` what single steps do to the registers, flags and memory in plain numbers, `BusSafety` that the static bus check
is exactly the dynamic one, `StepRuns` and `Deduplication` what the
optimizers do to runs, `RepeatedControls` and `LostSteps` where collapsing repeated steps goes wrong, `Sequencing` that
the step counter stays in step with the compiled lists over every run, and `Execution` that the machine running the
burned memory executes the source steps of its instructions.

**From text to ROM and back.** `Lexer`, `Parser`, `Ast`, `Assembler` and `Disassembler` model the tools over an
arbitrary instruction table (`Isa`) without repeated opcodes or (mnemonic, mode) pairs. `Numerals`, `Spelling`, `Grammar`
and `Sources` say what a source text means, whatever its spelling and layout. `AssemblerLayout` proves
that the two passes agree, `Labels` and `OperandMeaning` what names become in the ROM and exactly when a program assembles,
`Branches` that assembler, disassembler and the running machine agree about branches,
`Reassembly`, `Relexing` and `RoundTrip` when a disassembly reassembles to its ROM.

**Cartridge and debug information.** `Cartridge` is the header that the assembler writes and the loader that reads it.
`Json`, `JsonText`, `DebugSymbols`, `DebugJson`, `DebugDocument` and `DebugPrinter` model the
printer and the reader and prove the round trip.

**Devices.** `AluUnit` and `AluChains` (multi-byte arithmetic through the carry flag), `InputQueue` (the keyboard
ring buffer) and `VectorGraphics` (the line loop).

Errors are the absence of a result, or an error value where the kind matters. Error texts and source spans are not kept.

## Where code and comments differ

The model follows the code.

- `microcode/include/irata2/microcode/compiler/duplicate_step_optimizer.h:11-13` says collapsing repeated steps is
  harmless; a repeated counter step counts once instead of twice. `RepeatedControls.SingleControlRepeatExact`
  says for which controls the promise holds, `Deduplication.SettledIsIdempotent` for which steps, and
  `LostSteps.RepeatedCounterStepIsLost` gives an accepted set that breaks it.
- ALU SUB leaves the overflow flag as it was (`sim/src/alu/alu.cpp:67-73`): `AluChains.OverflowIsSigned`.
- The memory address register does not act on its whole-word reset (`sim/src/memory/memory_address_register.cpp:80-103`):
  `RepeatedControls.MarResetIsIgnored`.
- An absolute operand of at most $FF assembles as zero page when the mnemonic has that mode
  (`assembler/src/assembler.cpp:143-162`), so disassembly and reassembly is not the identity on every ROM;
  `RoundTrip.TextRoundTrip` gives the exact condition.
- The space check of the assembler compares the distance to the last byte, not the number of bytes, with the ROM
  size (`assembler/src/assembler.cpp:409-418`). It lets one byte too many pass (`AssemblerLayout.OneByteTooMany`), and the
  later check of each item decides alone (`AssemblerLayout.SpaceCheckDecidesNothing`).

## Verifying

`dafny verify dfyconfig.toml` checks the whole project (Dafny 4.11).

## Model

| member | source | states |
|---|---|---|
| `Compiler.RunAllValidators` | microcode/src/compiler/compiler.cpp:21-28 | the six validators together accept exactly the sets all of whose instructions and preamble satisfy every check |
| `Compiler.Encode` | microcode/src/compiler/compiler.cpp:30-74 | a table is produced exactly when no control is unknown, no list is longer than 256 steps and no two variants disagree about a key; then it holds, key by key, the word of the step and nothing else |
| `Compiler.Compile` | microcode/src/compiler/compiler.cpp:76-97 | a program comes out exactly when the fetch check, all four rounds of validation and the encoding succeed, and its table is the one of the fully transformed and optimized set |
| `Transformers.RunFetchTransformer` | microcode/src/compiler/fetch_transformer.cpp:5-19 | every variant gets the preamble in front and its own steps one stage later; without a preamble nothing changes |
| `Transformers.RunSequenceTransformer` | microcode/src/compiler/sequence_transformer.cpp:11-34 | every step but the last of a variant gains the increment control, the last one the reset control |
| `Optimizers.RunEmptyStepOptimizer` | microcode/src/compiler/empty_step_optimizer.cpp:7-29 | exactly the steps without controls disappear, in place, order kept |
| `Optimizers.RunDuplicateStepOptimizer` | microcode/src/compiler/duplicate_step_optimizer.cpp:44-54 | every variant and the preamble are replaced by their deduplicated lists |
| `Optimizers.CollapseDuplicates` | microcode/src/compiler/duplicate_step_optimizer.cpp:24-40 | the list loop keeps a step exactly when it differs in stage or controls from the last step kept |
| `Optimizers.MaxPhase` | microcode/src/compiler/step_merging_optimizer.cpp:13-25 | the running maximum is the greatest phase of the step |
| `Optimizers.CanMerge` | microcode/src/compiler/step_merging_optimizer.cpp:44-66 | two steps may merge exactly when they share a stage and every phase of the first precedes every phase of the second |
| `Optimizers.MergeSteps` | microcode/src/compiler/step_merging_optimizer.cpp:68-77 | the first step keeps its controls and gains, in order, the missing ones of the second |
| `Optimizers.MergeAdjacentSteps` | microcode/src/compiler/step_merging_optimizer.cpp:79-99 | greedy merging into a growing last step |
| `Validators.ValidateBusStep` | microcode/src/compiler/bus_validator.cpp:55-108 | accepts exactly when each bus has at most one writer and every bus that is read is written |
| `Validators.ValidateConflictStep` | microcode/src/compiler/control_conflict_validator.cpp:32-72 | accepts exactly when no component is told two opposed operations |
| `Validators.ValidateStages` | microcode/src/compiler/stage_validator.cpp:10-104 | monotone order and the gap check on the set of stages together mean: stages start at 0 and rise by at most one per step |
| `Validators.ValidateSequence` | microcode/src/compiler/sequence_validator.cpp:14-43 | accepts exactly when every step but the last increments and the last one resets the step counter |
| `Validators.ValidateFetch` | microcode/src/compiler/fetch_validator.cpp:10-55 | accepts exactly when the stage-0 steps assert the preamble controls, in order |
| `StatusValidator.ValidateStatus` | microcode/src/compiler/status_validator.cpp:13-93 | the overlap and counting loops accept exactly the variant lists without overlap whose expansion has 2^n statuses, or that have no or one unconditional variant |
| `StatusValidator.AcceptsExactlyTheShape` | microcode/src/compiler/status_validator.cpp:13-93 | with at least one status bit, accepted means: no variants, one unconditional variant, or exactly the two values of one and the same bit |
| `StatusValidator.EveryStatusCoveredOnce` | microcode/src/compiler/status_validator.cpp:68-93 | acceptance by counting means that every status selects one and only one variant |
| `StatusEncoder.ExpandPartial` | microcode/src/encoder/status_encoder.cpp:19-62 | the nested loops compute the expansion, and fail exactly on an unknown name |
| `StatusEncoder.ExpansionExact` | microcode/src/encoder/status_encoder.cpp:19-62 | for distinct names and positions, the expansion lists each once exactly the statuses that agree on every named bit and are zero outside the configured bits; there are 2^(unspecified bits) of them |
| `Encoders.DecodeUndoesEncode` | microcode/src/encoder/control_encoder.cpp:30-55 | decoding the word of a control set gives back exactly that set, for at most 128 registered controls |
| `Encoders.EncodeControls` | microcode/src/encoder/control_encoder.cpp:30-43 | the OR loop produces the word with one bit per control, and fails exactly on an unregistered control |
| `Encoders.KeyIsPacked` | microcode/include/irata2/microcode/output/program.h:19-23 | shifting and or-ing is opcode * 65536 + step * 256 + status |
| `Encoders.KeyInjective` | microcode/include/irata2/microcode/output/program.h:19-23 | no two (opcode, step, status) triples share a key |
| `InstructionMemory.Burn` | sim/src/controller/instruction_memory.cpp:23-47 | the ROM is as long as the largest key demands, holds every table word at its key and zero everywhere else |
| `InstructionMemory.ReadControls` | sim/src/controller/instruction_memory.cpp:49-81 | the lookup method returns the controls decoded from the addressed word, or fails outside the ROM |
| `InstructionMemory.LookupExact` | sim/src/controller/instruction_memory.cpp:23-81 | for every accepted set, every opcode in it and every status over the configured bits, looking up step i yields exactly the controls of compiled step i of the one variant whose condition the status satisfies |
| `InstructionMemory.LookupPastEnd` | sim/src/controller/instruction_memory.cpp:49-81 | past the end of the selected variant the lookup yields no control or fails |
| `InstructionMemory.LookupOfOther` | sim/src/controller/instruction_memory.cpp:49-81 | a key under which no variant is encoded yields no control or fails |
| `Pipeline.NothingToRemove` | microcode/src/compiler/compiler.cpp:85-86 | after sequencing no step is empty, so the empty-step pass is the identity |
| `Pipeline.NothingToMerge` | microcode/src/compiler/step_merging_optimizer.cpp:79-99 | after sequencing no two steps merge, so the merging pass is the identity |
| `Pipeline.MergeKeepsFine` | microcode/src/compiler/step_merging_optimizer.cpp:58-99 | merging two bus-valid, conflict-free steps gives a bus-valid, conflict-free step |
| `Pipeline.RevalidationCannotFail` | microcode/src/compiler/compiler.cpp:82-93 | once the first full validation passes and the preamble is at stage 0, validation after each optimizer passes too |
| `Pipeline.PreambleIsStageZero` | microcode/src/compiler/fetch_validator.cpp:23-55 | fetch check and first validation force every preamble step to stage 0 and every body step past it |
| `Pipeline.AcceptedByFirstValidation` | microcode/src/compiler/compiler.cpp:76-97 | the compiler accepts exactly when the fetch check, the first validation and the encoding succeed |
| `Pipeline.ValidNeverConflicts` | microcode/src/compiler/compiler.cpp:58-66 | in a valid set the table conflict check can never fire |
| `Pipeline.DeduplicationSplits` | microcode/src/compiler/duplicate_step_optimizer.cpp:24-40 | deduplication never crosses a stage boundary |
| `Pipeline.FetchIsUniform` | microcode/src/compiler/compiler.cpp:76-97 | every variant with a body compiles to the same preamble steps followed by its own body steps |
| `CpuObject.Cpu.Tick` | sim/src/cpu.cpp:376-400 | the five phases in order over the registered children, cycle count and phase field included, is the specified tick; the first fault ends it, and a halted machine does not move |
| `CpuObject.Cpu.TickControl` | sim/src/controller/controller.cpp:38-51 | the controls found under (opcode, step, status) are asserted and the interrupt line is driven, or the lookup failure is reported |
| `CpuObject.Cpu.RunUntilHalt` | sim/src/cpu.cpp:428-449 | stops at the first halt or crash, a fault or the cycle limit, whichever is first, having run exactly the ticks before it |
| `Simulator.RegistrationOk` | sim/src/cpu.cpp:139-284 | the order in which the CPU registers its children satisfies what every run theorem asks of a child list |
| `BusSafety.ValidStepNeverFaults` | sim/include/irata2/sim/bus.h:32-58 | a tick whose asserted controls the bus validator accepts never raises "already written" or "read before write", and ends with both buses empty |
| `BusSafety.RejectedStepFaults` | microcode/src/compiler/bus_validator.cpp:55-108 | conversely a step without repeated controls that it rejects makes the tick fault |
| `BusSafety.ValidRunsNeverFault` | sim/include/irata2/sim/component_with_bus.h:49-62 | the same over runs of any length: the only faults left are stores to ROM or unmapped memory |
| `Datapath.BytesMakeTheWord` | sim/include/irata2/sim/program_counter.h:63-72 | the two byte ports of the program counter and of the address register are w / 256 and w % 256 of the word |
| `Datapath.TransferMoves` | sim/include/irata2/sim/component_with_bus.h:49-62 | after the tick of a bus-valid step of transfers every reader holds the value its writer held before, and every part the step does not name is unchanged |
| `Datapath.OneTransferMoves` | sim/include/irata2/sim/component_with_bus.h:49-62 | for any two ports on one bus a step of one write and one read leaves the old value of the writer in the reader and every other port as it was; it fails exactly when it stores outside RAM |
| `Datapath.StoreChangesOneByte` | sim/src/memory/memory.cpp:53-69 | a store puts the value at the address register and changes no other address of the memory map |
| `Datapath.LoadGivesStored` | sim/src/memory/memory.cpp:53-69 | a store followed by a load at the same RAM address gives the value back, between any two byte ports |
| `Datapath.AnalyzerTick` | sim/include/irata2/sim/status_register.h:22-30 | once a value v reaches the analyzer, bit 1 of the flags says v == 0, bit 7 says v >= 0x80, and the other six stay |
| `Datapath.FlagTick` | sim/src/status.cpp:21-41 | setting flag i makes bit i of the status 1, clearing it 0; no other bit and no other register changes |
| `Datapath.ResetTick` | sim/include/irata2/sim/register_base.h:37-45 | a reset makes the register 0 and leaves every port that is not part of it |
| `Datapath.MarTick` | sim/src/memory/memory_address_register.cpp:80-103 | the address register goes to $FFFE, to its low byte on page 1, to the next address, or to the 16-bit sum with its offset |
| `Datapath.PcTicks` | sim/include/irata2/sim/program_counter.h:105-123 | the program counter goes to the next address, or moves by its signed offset, modulo 65536 |
| `Datapath.LatchTick` | sim/include/irata2/sim/latched_word_register.h:34-40 | latching copies the program counter and changes nothing else |
| `Datapath.AluTick` | sim/src/alu/alu.cpp:28-156 | on the machine the asserted opcode bits select the operation; operands and flags 0 and 6 go in, result and the same flags come out, nothing else changes |
| `Datapath.InstructionStartTick` | sim/include/irata2/sim/instruction_register.h:36-47 | at instruction start the program counter is latched, and an interrupt is injected exactly when the line is raised and flag 2 is clear |
| `Datapath.StopTick` | sim/src/cpu.cpp:484-494 | halt stops the machine, crash stops it as crashed; neither changes a register |
| `Datapath.RaiseTick` | sim/include/irata2/sim/control.h:105-149 | the raised interrupt line stays raised, unless a device drives it in the same tick |
| `Datapath.IrResetTick` | sim/include/irata2/sim/instruction_register.h:36-42 | a reset of the instruction register also takes back the injected interrupt |
| `Datapath.FlagControlsTakeEffect` | microcode/src/compiler/control_conflict_validator.cpp:55-61 | in any step, every set and clear of a flag takes effect if and only if the step does not ask for both |
| `Datapath.CounterControlsTakeEffect` | microcode/src/compiler/control_conflict_validator.cpp:55-61 | in any step that does not reset the counter, every increment and decrement takes effect if and only if the step does not ask for both |
| `Datapath.AcceptedControlsTakeEffect` | microcode/src/compiler/control_conflict_validator.cpp:32-72 | so in a step that the conflict check accepts every set, clear, increment and decrement takes effect on the machine |
| `Datapath.RegistrationFlagsLate` | sim/src/cpu.cpp:139-284 | the order in which the CPU registers its children processes the flags behind the ALU and the status register, as these theorems ask |
| `StepRuns.MergedTick` | microcode/src/compiler/step_merging_optimizer.cpp:58-77 | one tick of a merged step is the two ticks of its parts, memory faults included |
| `StepRuns.MergingPreservesRuns` | microcode/src/compiler/step_merging_optimizer.cpp:79-99 | running the merged list leaves the same registers, flags, memory and halt state, or the same fault, as running the original list |
| `Deduplication.TickIgnoresCounter` | sim/src/cpu.cpp:376-400 | with the controls given, sequence counter and cycle count influence nothing else |
| `Deduplication.DeduplicationPreservesRuns` | microcode/src/compiler/duplicate_step_optimizer.cpp:24-40 | collapsing keeps the run of any list whose adjacent repeated steps are idempotent |
| `Deduplication.SettledIsIdempotent` | sim/include/irata2/sim/component_with_bus.h:49-62 | steps of transfers, resets and flag operations in which nothing is both used and changed are idempotent |
| `Deduplication.CounterControlsAside` | sim/include/irata2/sim/local_counter.h:25-35 | what a step tells the sequence counter influences nothing but the counter |
| `Deduplication.IdempotentAside` | microcode/src/compiler/sequence_transformer.cpp:11-34 | whether a step may be repeated does not depend on the compiler's increment and reset |
| `RepeatedControls.SingleControlRepeatExact` | microcode/include/irata2/microcode/compiler/duplicate_step_optimizer.h:11-13 | for steps of one control and any sequence counter controls, the promise that collapsing is harmless holds if and only if the control does not advance a counter, address or ALU result |
| `RepeatedControls.CountingStepNeverRepeats` | sim/include/irata2/sim/counter.h:24-34 | a step of any number of controls that counts in a register it does not otherwise write may not be repeated: from every machine on which it neither faults nor halts, a second tick ends elsewhere |
| `RepeatedControls.CountingStepIsNotIdempotent` | microcode/src/compiler/duplicate_step_optimizer.cpp:24-40 | so every bus-valid step of that kind that stores nothing unpredictable is not idempotent |
| `RepeatedControls.MarResetIsIgnored` | sim/src/memory/memory_address_register.cpp:80-103 | a tick whose only address register control is the whole-word reset leaves the register as it was |
| `LostSteps.DroppedCountsAreLost` | microcode/src/compiler/duplicate_step_optimizer.cpp:24-40 | for lists that count on the stack pointer, collapsing leaves the pointer where it was if and only if the number of counting steps dropped is a multiple of 256 |
| `LostSteps.RepeatedCounterStepIsLost` | microcode/include/irata2/microcode/compiler/duplicate_step_optimizer.h:11-13 | a set that the compiler accepts, with the shipped fetch preamble, whose source advances the stack pointer twice and whose compiled list advances it once, from every machine |
| `Sequencing.LoadedIsInMemory` | sim/src/controller/controller.cpp:38-51 | compiling, burning and looking up put every compiled step where the controller looks for it |
| `Sequencing.TickStaysInStep` | sim/include/irata2/sim/local_counter.h:25-35 | one controller-driven tick keeps the counter inside the selected variant, interrupt injection included |
| `Sequencing.RunsStayInStep` | sim/include/irata2/sim/instruction_register.h:29-47 | over every run from step 0, with interrupts at any time, the counter indexes an existing step of the variant selected by opcode and flags |
| `Sequencing.InstructionTakesItsLength` | microcode/src/compiler/sequence_transformer.cpp:11-34 | an instruction returns the counter to 0 after exactly its compiled length, without wrapping |
| `Sequencing.CounterReturns` | sim/include/irata2/sim/local_counter.h:25-35 | no 256 ticks pass without the counter returning to 0 |
| `Execution.CompiledRunsLikeSource` | microcode/src/compiler/compiler.cpp:76-97 | on every machine the compiled steps of a variant end as its source steps do, preamble and then body, counter and cycle count aside, if the steps the source repeats in a row are idempotent |
| `Execution.InstructionExecutesItsSource` | sim/src/controller/controller.cpp:38-51 | one instruction run out of the burned memory, from counter 0 to counter 0, is the run of the compiled list of the variant selected after the preamble, and so of its source steps |
| `AluChains.AluDevice.TickProcess` | sim/src/alu/alu.cpp:28-156 | the opcode bits select the operation; result and flags are the specified ones |
| `AluChains.AddIsExact` | sim/src/alu/alu.cpp:47-65 | chained over n bytes, ADD gives A + B + c = R + 256^n c' |
| `AluChains.SubIsExact` | sim/src/alu/alu.cpp:67-73 | chained SUB gives A - B - (1 - c) = R - 256^n (1 - c') |
| `AluChains.RolDoubles` | sim/src/alu/alu.cpp:122-130 | chained ROL doubles |
| `AluChains.RorHalves` | sim/src/alu/alu.cpp:132-141 | chained ROR from the top byte down halves |
| `AluChains.AslDoubles` | sim/src/alu/alu.cpp:104-130 | ASL on the lowest byte and chained ROL on the others double: 2 A = R + 256^n c' |
| `AluChains.LsrHalves` | sim/src/alu/alu.cpp:113-141 | LSR on the highest byte and chained ROR downwards halve: A = 2 R + c' |
| `AluChains.CountingIsInverse` | sim/src/alu/alu.cpp:74-147 | INC is the successor modulo 256, DEC undoes it and is undone by it, and neither touches carry or overflow |
| `AluChains.FlagsOfOperations` | sim/src/alu/alu.cpp:80-155 | AND, OR and XOR clear both flags, shifts and rotations clear overflow, BIT and the unused opcodes leave both, and no operation changes an operand |
| `AluChains.CarryMeansOverflowOfWidth` | sim/src/alu/alu.cpp:47-73 | the carry out says exactly whether the true sum overflows n bytes, or the true difference is not negative |
| `AluChains.OverflowIsSigned` | sim/src/alu/alu.cpp:47-73 | after chained ADD on n bytes the overflow flag is set exactly when the signed sum leaves [-256^n / 2, 256^n / 2); chained SUB leaves the flag alone |
| `AluChains.SignedIs` | sim/src/alu/alu.cpp:58-64 | the signed reading of n bytes is the unsigned one, less 256^n if the top bit is set |
| `AluChains.LogicIsBitwise` | sim/src/alu/alu.cpp:80-103 | AND, OR, XOR and BIT work bit by bit |
| `InputQueue.InputDevice.Inject` | sim/src/io/input_device.cpp:64-73 | the ring buffer behaves as a 16-place queue; when full, neither the queue nor the ring changes |
| `InputQueue.InputDevice.Read` | sim/src/io/input_device.cpp:11-48 | every register read returns what the queue says, and only the data register removes a byte |
| `InputQueue.InputDevice.Pop` | sim/src/io/input_device.cpp:88-97 | indices and count move so that the queue loses its first byte |
| `InputQueue.RunsConserve` | sim/src/io/input_device.cpp:11-104 | under every interleaving of events the bytes popped followed by those queued are the bytes accepted, and at most 16 are queued |
| `InputQueue.KeysArriveInOrder` | sim/src/io/input_device.cpp:64-97 | over every event list the bytes that the data register returned while keys waited are, in order, the first of the keys accepted and the others wait; when never more than 16 wait, they are the first of the keys injected |
| `InputQueue.RegistersShowQueue` | sim/src/io/input_device.cpp:11-48 | over every run data and peek show the next key, count the number accepted and not yet delivered, and the status bits whether that is positive, is 16, and is positive with interrupts enabled |
| `InputQueue.RegistersHold` | sim/src/io/input_device.cpp:11-81 | the control register reads back whether interrupts were last enabled, and the key state the keys last pressed and not released |
| `InputQueue.LineShowsLastTick` | sim/src/io/input_device.cpp:83-86 | over every run the interrupt line shows whether, at the last control tick, interrupts were enabled with input waiting; it is low before the first tick |
| `InputQueue.NothingDroppedExactly` | sim/src/io/input_device.cpp:64-73 | every injected key is accepted, in order, if and only if at no time more than 16 keys had been injected and not handed out |
| `VectorGraphics.ImageBackend.DrawLine` | sim/src/io/vgc_backend.cpp:21-54 | for all endpoints the loop ends; the cell at row * 256 + column gets the intensity if and only if (column, row) is a pixel of the ideal line, and keeps its value otherwise |
| `VectorGraphics.ImageBackend.DrawPoint` | sim/src/io/vgc_backend.cpp:12-19 | the cell at y * 256 + x gets the intensity; every other keeps its value |
| `VectorGraphics.Endpoints` | sim/src/io/vgc_backend.cpp:21-54 | the line starts at the first and ends at the second endpoint |
| `VectorGraphics.InsideBox` | sim/src/io/vgc_backend.cpp:21-54 | no pixel leaves the bounding box of the endpoints |
| `VectorGraphics.EightConnected` | sim/src/io/vgc_backend.cpp:36-53 | successive pixels differ by at most one in each axis, and differ |
| `VectorGraphics.WithinHalfPixel` | sim/src/io/vgc_backend.cpp:36-53 | along the shorter axis every pixel is within half a pixel of the true line |
| `VectorGraphics.PixelsDiffer` | sim/src/io/vgc_backend.cpp:21-54 | one pixel more than the longer of the two distances, all different |
| `Assembler.FirstPass` | assembler/src/assembler.cpp:196-310 | the statement loop computes the layout: reserved items, names, cursor and highest address, or fails where a statement cannot be placed |
| `Assembler.Encode` | assembler/src/assembler.cpp:406-536 | an image is produced exactly when the program fits and every item lies in the ROM and resolves; the array then holds the items written in order over 0xFF, and each written byte has a record of its address and offset |
| `AssemblerLayout.LabelNamesNextItem` | assembler/src/assembler.cpp:217-224 | a label is the address of the next item when no .org comes between |
| `AssemblerLayout.PassOneReserves` | assembler/src/assembler.cpp:254-306 | every item is a non-empty range between entry point and highest address and has the operand its mode needs |
| `AssemblerLayout.LastItemWins` | assembler/src/assembler.cpp:464-520 | each ROM byte is the byte of the last item covering its address |
| `AssemblerLayout.UncoveredIsBlank` | assembler/src/assembler.cpp:420-420 | a ROM byte that no item covers is 0xFF |
| `AssemblerLayout.OneRecordPerByte` | assembler/src/assembler.cpp:452-520 | the records are, in order, one per byte of each item, with its address and its distance from the entry point |
| `AssemblerLayout.PassesAgree` | assembler/src/assembler.cpp:196-536 | a successful assembly writes each item to exactly the range reserved in pass one, inside the ROM, and every record offset is address minus entry |
| `AssemblerLayout.WithoutOrgRomIsStream` | assembler/src/assembler.cpp:406-536 | without .org the ROM is the bytes of the statements in order, padded with 0xFF |
| `AssemblerLayout.SpaceCheckDecidesNothing` | assembler/src/assembler.cpp:409-418 | a program whose items can all be placed passes the space check, so encoding fails exactly when some item cannot be placed |
| `AssemblerLayout.OneByteTooMany` | assembler/src/assembler.cpp:415-418 | for every ROM size a program of one byte more passes the space check, and only the later check stops it |
| `Labels.LabelOperand` | assembler/src/assembler.cpp:343-404 | an operand that names a label, before or behind it, stands in the ROM as the address of the item the label precedes: low byte first in two bytes, or as the displacement from which the disassembler computes that address |
| `Labels.ConstantOperand` | assembler/src/assembler.cpp:322-392 | an operand that names a constant stands in the ROM as its value, also when a label has the same name |
| `Labels.ConstantIsLiteral` | assembler/src/assembler.cpp:312-404 | writing out a constant as its literal, in an instruction or .byte, gives the same image or fails likewise, when the literal selects the same instruction |
| `Labels.WithoutOrgFinal` | assembler/src/assembler.cpp:254-306 | without .org no item overwrites another |
| `Labels.NameSelects` | assembler/src/assembler.cpp:122-177 | a name selects the relative, indirect, immediate, indexed or absolute form, never zero page when the table has the absolute one |
| `OperandMeaning.AssemblesExactly` | assembler/src/assembler.cpp:312-536 | a program that passes the first pass assembles if and only if every item lies in the ROM and every operand stands for a value that fits it: a number for itself, a name for its constant and without one for the address where its label stands |
| `OperandMeaning.BytesAreDenoted` | assembler/src/assembler.cpp:312-341 | the bytes of .byte in the ROM are what its operands stand for |
| `OperandMeaning.OperandIsDenoted` | assembler/src/assembler.cpp:343-404 | the operand bytes of an instruction in the ROM say what its operand stands for |
| `Branches.AcceptedTargets` | assembler/src/assembler.cpp:370-404 | the assembler accepts exactly the targets within -128..127 of the next instruction |
| `Branches.DisassemblerReturns` | sim/src/disassembler.cpp:86-92 | the emitted byte leads the disassembler back to the target |
| `Branches.ProgramCounterArrives` | sim/include/irata2/sim/program_counter.h:105-123 | the emitted byte, added by the program counter, leads to the target, from behind the branch or from its operand byte while stepping over it in the same tick |
| `Branches.TakenBranchArrives` | microcode/microcode.yaml:206-212 | on the machine, with the assembler's byte at the operand address, the two steps of a taken branch never fault and leave the program counter at the target, with or without the compiler's counter controls |
| `Branches.SkippedBranchPasses` | microcode/microcode.yaml:213-217 | the steps of a branch not taken leave the program counter behind the operand |
| `Branches.ReturnsUnlessWrapped` | sim/src/disassembler.cpp:86-92 | a disassembled branch reassembles to its byte if and only if its target does not wrap around memory |
| `Branches.OffsetAddIsWordAdd` | sim/src/memory/memory_address_register.cpp:90-102 | the byte-wise offset addition with carry is 16-bit addition |
| `Lexer.Scanner.NextToken` | assembler/src/lexer.cpp:89-159 | the scanner returns the token that stands at its position and moves behind it, or fails on malformed source |
| `Lexer.Scanner.Lex` | assembler/src/lexer.cpp:77-87 | all tokens up to the end of file |
| `Lexer.ParseNumberLiteral` | assembler/src/lexer.cpp:27-71 | base prefixes and digits, in unsigned 32-bit arithmetic; a bad digit or no digit fails |
| `Parser.Parsing.ParseOperand` | assembler/src/parser.cpp:105-158 | operands: immediate names, parenthesised and indexed forms, numbers and names |
| `Parser.Parsing.Parse` | assembler/src/parser.cpp:9-54 | the token loop yields the statements, or fails where a line does not end |
| `Numerals.LiteralMeansItsDigits` | assembler/src/lexer.cpp:27-71 | a literal has the value its digits spell in base 10, 16 behind $ or 0x, or 2 behind % or 0b, in either case, with or without #, modulo 2^32 |
| `Numerals.NumeralReadsBack` | assembler/src/lexer.cpp:27-71 | every number below 2^32, written in any of the three bases, reads as itself |
| `Spelling.LexSource` | assembler/src/lexer.cpp:77-327 | every spelling of a list of tokens, in any letter case and number base, with any blanks and comments, lexes to these tokens |
| `Grammar.SameProgram` | assembler/src/parser.cpp:9-158 | of a literal only its value and a leading # matter to the parser |
| `Grammar.ParseRows` | assembler/src/parser.cpp:9-241 | the lines of a program, with labels on their own line or before a statement and any empty lines, parse to its statements |
| `Sources.SourceAssembles` | assembler/src/assembler.cpp:566-584 | every source text of a program, however spelled and laid out, assembles as the program |
| `Sources.SourceIsUnambiguous` | assembler/src/parser.cpp:9-54 | a text is the source of at most one program |
| `Sources.EveryProgramHasSource` | assembler/src/parser.cpp:9-241 | every list of statements the syntax can say has a source text, which gives the statements back |
| `Sources.ImmediateNameIsLiteral` | assembler/src/parser.cpp:105-117 | a text with #name, where .equ binds the name before or behind it, assembles as the text with the literal |
| `Disassembler.Disassemble` | sim/src/disassembler.cpp:99-170 | the loop prints one line per instruction or lone byte, with optional origin and comments |
| `Disassembler.LinesSpell` | sim/src/disassembler.cpp:112-170 | the lines spell out the whole ROM, bytes that are no opcode and truncated instructions included |
| `Reassembly.SelectsSame` | assembler/src/assembler.cpp:122-177 | the assembler selects the instruction that was disassembled, unless a zero-page form takes a small absolute operand |
| `Reassembly.ComesBackExactly` | assembler/src/assembler.cpp:196-536 | at statement level a ROM survives if and only if it fits in memory, no branch target wraps and no absolute operand of at most $FF has a matching zero-page mode |
| `RoundTrip.AssembleText` | assembler/src/assembler.cpp:566-584 | lexer, parser and both passes in a row; include directives are not expanded |
| `RoundTrip.TextReadsBack` | sim/src/disassembler.cpp:38-170 | the text of a disassembly, under all options, lexes and parses to the statements of its lines |
| `RoundTrip.TextRoundTrip` | sim/test/disassembler_test.cpp:12-37 | disassembling and reassembling as text gives the ROM back if and only if it fits in memory and every line is faithful |
| `RoundTrip.SmallAbsoluteIsLost` | assembler/src/assembler.cpp:143-162 | LDA $0010 under every table with the shipped zero-page and absolute loads: the text of the ROM 50 10 00 does not assemble to it, at any origin, under any options |
| `RoundTrip.SampleTable` | isa/instructions.yaml:256-258 | a table with these loads and this branch, at their shipped opcodes, has unique opcodes and modes and only identifiers as mnemonics |
| `RoundTrip.WrappingBranchIsLost` | assembler/src/assembler.cpp:398-403 | a branch whose target wraps below address 0 does not reassemble from its text |
| `JsonText.EscapeJson` | assembler/src/cartridge.cpp:21-45 | the character loop computes the escaped text |
| `JsonText.ReadQuoted` | sim/src/debug_symbols.cpp:126-182 | parsing a printed string gives the string back, for every string |
| `JsonText.EscapeInjective` | assembler/src/cartridge.cpp:21-45 | different strings print differently |
| `JsonText.EscapeIsValid` | assembler/src/cartridge.cpp:21-45 | the escaped text has the form section 7 of RFC 8259 asks for: no control characters, quotes and backslashes only in escapes |
| `JsonText.ArrayReads` | sim/src/debug_symbols.cpp:104-124 | a printed array reads, wherever it stands, as the array of its items |
| `JsonText.ObjectReads` | sim/src/debug_symbols.cpp:78-102 | a printed object with distinct keys reads as the object of its members |
| `Json.JsonParser.ParseString` | sim/src/debug_symbols.cpp:126-182 | the character loop reads the string literal at the position, or fails |
| `Json.JsonParser.ParseObject` | sim/src/debug_symbols.cpp:78-102 | members up to the closing brace, the first of equal keys kept |
| `Json.JsonParser.ParseArray` | sim/src/debug_symbols.cpp:104-124 | elements up to the closing bracket |
| `Json.JsonParser.ParseNumber` | sim/src/debug_symbols.cpp:184-198 | an optional minus sign and digits; more than 64 bits fails |
| `Json.JsonParser.Parse` | sim/src/debug_symbols.cpp:28-36 | one value with nothing but space around it |
| `DebugJson.AddressBack` | sim/src/debug_symbols.cpp:274-288 | a printed address reads back as itself |
| `DebugSymbols.LoadDebugSymbols` | sim/src/debug_symbols.cpp:320-401 | the loader computes the symbols of the document, or fails on a missing, mistyped or out-of-range field |
| `Cartridge.EncodeHeader` | assembler/src/cartridge.cpp:48-68 | the field loops produce the 32 header bytes |
| `Cartridge.LoadCartridge` | sim/src/cartridge.cpp:47-81 | the loader accepts exactly the files with magic, a header of at least 32 bytes and the whole ROM, and returns the fields and the ROM |
| `Cartridge.HeaderLayout` | assembler/src/cartridge.cpp:48-68 | bytes 4, 6, 8 and 10 of the header start version, header size, entry point and ROM size, low byte first; the magic stands before, the reserved bytes behind |
| `Cartridge.CartridgeRoundTrip` | assembler/src/assembler.cpp:592-599 | a written cartridge loads as what was written if and only if its header carries the magic, its own size and the size of the ROM |
| `DebugPrinter.FirstRecords` | assembler/src/cartridge.cpp:110-113 | the address map keeps the first record at each address |
| `DebugPrinter.SortNames` | assembler/src/cartridge.cpp:93-93 | names are printed in byte order, each once |
| `DebugPrinter.EncodeDebugJson` | assembler/src/cartridge.cpp:70-150 | the printer produces the document text: names sorted, one source entry per address by increasing address, records in order |
| `DebugPrinter.PrintsOneDocument` | sim/src/debug_symbols.cpp:28-36 | the printed text is one JSON document with the nine members |
| `DebugPrinter.DebugRoundTrip` | sim/src/debug_symbols.cpp:320-401 | loading what was printed succeeds if and only if the ROM size is positive and every record has an offset inside the ROM and a positive line and column; then it recovers everything, with the first record at each address as its source |

## Left out

- Files, command lines, logging, the SDL frontend, benchmarks and debug dumps: input and output.
- The component tree, path strings, templates and the visitor: a control is a record of component and operation, from which phase and bus follow.
- The shipped microcode beyond its fetch preamble and its branches, and the meaning of single instructions: the theorems hold for any instruction set.
- Single instruction table entries and the Python generators: an arbitrary table with unique opcodes and unique (mnemonic, mode) pairs.
- Include expansion: it depends on the file system; `.include` is parsed and then ignored by both passes.
- Source spans, source file names, line numbers and texts of assembler records: an assembler record keeps its address and ROM offset; the debug document carries the rest as data.
- Disassembly with a symbol map: labels inside instructions are referenced but never emitted, so it does not reassemble in general.
- The simulator's own status encoder, which encodes by bit index but decodes by list position: only its encoding direction is used.
- Extra memory regions, the vector coprocessor's registers and the input device on the bus: memory is 8 KiB of RAM and the cartridge ROM, and the interrupt line is an input of each tick.
- The debug trace buffer and the microcode decoder dumps: they only record and print what the machine and the table hold.
- The test that a control belongs to the phase in which it is read: controls are looked up in the phase they are declared for.
- RunUntilHalt without a cycle limit: it need not end; the limited run is modelled.
- CpuObject.Cpu.Tick: the component objects are folded into one object with a register record, so aliasing between component objects is not modelled.
- Assembler.FirstPass: operand lists longer than 2^32 are not cut to 32 bits.
- Disassembler.Disassemble: the listing exists only in the proofs, the method builds the text.
- DebugSymbols.LoadDebugSymbols: object members are visited in the order they stand rather than sorted by key; the result does not depend on it.
- Assembler.Encode: its records keep address and ROM offset and drop file, line, column and text, because tokens and statements carry no source spans here; `DebugPrinter` takes those fields as given.
- Sources.SourceAssembles: for texts in which every statement, the last included, ends its line, and operands have at most one pair of parentheses with the X register inside it.
- OperandMeaning.AssemblesExactly: takes the first pass as passed; `Assembler.FirstPass` says when a statement cannot be placed.
- RoundTrip.AssembleText: include directives are parsed and ignored instead of expanded, because expansion reads files; a disassembly holds none.
- DebugPrinter.EncodeDebugJson: the nine members are printed by one list loop instead of nine output statements; the text is the same.
- Deduplication.SettledIsIdempotent: sufficient but not necessary for steps of several controls; `RepeatedControls.CountingStepIsNotIdempotent` is a necessary condition, and `RepeatedControls.SingleControlRepeatExact` is exact for one control. Steps in which a used register is also changed, or an ALU operation meets the transfer of its result, lie between.
- Sequencing.RunsStayInStep: assumes that loaded opcodes are in the set, every variant has a body, only the compiler's controls move the step counter, only the preamble touches the opcode, and conditional bodies leave the flags alone before their last step, as the instruction set must for the machine to work.
- Execution.InstructionExecutesItsSource: for instructions during which nothing outside drives the interrupt line; `Sequencing.RunsStayInStep` allows any driving.
- Reassembly.ComesBackExactly: the table's relative instructions are exactly those with the eight branch mnemonics, and mnemonics are identifiers, as in the shipped table.
