# Apollo Guidance Computer: verified model

This project models the Block II guidance computer of the repository and the tools around
it, and proves what holds of them for every rope, every program, every file and every run.

- **The machine.** Fifteen-bit one's-complement words, sixteen-bit central registers, a banked
  memory with aliased registers, 38 instructions, stolen counter cycles, interrupts and the
  committed trace. `Machine` gives every transition as a function; the classes `Memory`,
  `TraceLog` and `Cpu` perform the same transitions in place and are proved against it.
- **The assembler.** Include expansion, two passes over one symbol table, equates resolved to
  a fixpoint, encoding, rope files in four formats and octal listings.
- **The source text.** A parser that loses nothing it reads and an overlay of line edits.
- **The interpretive engine.** Scaled scalars and vectors on a stack, at the widths of the host.
- **The drivers.** Runtime events, fault injection and operator keys, delivered at boundaries.

Masks and shifts of the program appear as the quotients and remainders they compute; the few
true bitwise connectives are defined digit by digit in `Words`. Each state-changing class has
a value it stands for, and each of its methods says what the new value is.

Main results, in the order of the modules:

1. `Isa`, `MemoryLaws`, `EditingLaws`: encoding inverts decoding on every word, decoding inverts
   encoding exactly outside five overlaps; the banked memory refines a flat store of cells, the
   editing registers digit by digit.
2. `OperandLaws`, `Division`, `SerialDivision`, `Arithmetic`, `InstructionLaws`, `FlowLaws`:
   instructions on every operand they can name, as statements about numbers, which
   `InstructionSet` carries to every mnemonic and to the step that decodes it. DV divides the
   value of A and L exactly when a positive A does not borrow from a minus-zero L, and modulo
   2^15 where the quotient does not fit; MP then DV is the identity on bits; DAS conserves
   value exactly where its sum fits.
3. `MachineRuns`, `CounterLaws`, `StepFlow`, `TraceLaws`, `Transparency`: no run over any rope
   gets stuck; time is accounted for to the cycle and to every counter; handlers never nest;
   interruptions leave no trace on the program.
4. `Equates`, `LayoutLaws`, `ProgramLaws`, `Includes`, `Rope`, `Listing`: which programs are
   accepted, exactly; where their words stand; what their symbols mean; that they survive
   being written out, loaded and decoded.
5. `Parser`, `Overlay`, `InterpreterLaws`, `Agenda`, `RuntimeLoop`, `FaultInjection`,
   `EventLaws`, `Keyboard`: loss-free parsing, undoable edits, safe runs, exactly-once delivery,
   what an event or a fault leaves to be read, key pacing.

Where the code does not meet the obvious claim, the exact condition is proved instead:

- The double that DV forms is 2^14 too small for a positive nonzero A over L = -0
  (`Division.NumeratorValue`, `Division.BorrowExample`).
- `take_trace` keeps the sequence numbering of the log it empties, so the next step is
  refused unless there never was one (`TraceLaws.TakenTraceBlocks`, `TraceLaws.TakenTraceExample`).
- A text that ends in a carriage return without a line feed loses it in reconstruction
  (`Parser.ReconstructExactly`, `Parser.ReconstructExample`).
- An overlay that empties an unterminated last line cannot be undone (`Overlay.UndoExactly`,
  `Overlay.UndoExample`).
- Both halves of a downlink pair are taken at each write, so no frame is ever recorded
  (`RuntimeLoop.NoFrameIsCaptured`).
- SETLOC takes an address of the switched erasable window for its offset in erasable bank 0
  (`ProgramLaws.SetLocationExactly`, `ProgramLaws.SetLocationExample`).
- A record count is cut to sixteen bits in pass one.  Records in fixed memory are not affected
  (`ProgramLaws.RecordsStandInTheirBank`); one reserved in erasable memory keeps its words to
  itself exactly when its count is below 65,536 (`ProgramLaws.ReservationsExactly`,
  `ProgramLaws.ReservationExample`).
- DAS conserves value exactly when neither half of its sum leaves sixteen bits, which an L in
  overflow can make it do (`Arithmetic.DasConserves`, `Arithmetic.DasWraps`).
- Two exchanges put everything back exactly when no overflow and no editing is involved
  (`InstructionLaws.ExchangeTwice`, `InstructionLaws.DxchTwice`).
- The label after the last word of a full bank has the address of another cell
  (`ProgramLaws.AddressReachesCell`, `ProgramLaws.AddressPastTheEnd`).

`dafny verify dfyconfig.toml` checks the whole project.

## Model

| member | source | states |
|---|---|---|
| `WordLaws.FromIntValue` | crates/agc-word/src/lib.rs:153-175 | Conversion from an integer succeeds exactly on -16383..16383, and converting back gives the integer. |
| `WordLaws.ValueFromInt` | crates/agc-word/src/lib.rs:148-175 | Converting a word to its value and back changes only a negative zero, to positive zero; complement negates the value. |
| `WordLaws.WordSum` | crates/agc-word/src/lib.rs:178-195 | End-around-carry addition is exact when unflagged; it is flagged exactly when the exact sum leaves the range, and then is off by 32767 in the known direction. |
| `WordLaws.SignExtension` | crates/agc-word/src/lib.rs:208-214 | Sign extension keeps the value and the sign, and overflow correction takes it back to the same word. |
| `WordLaws.OverflowCorrection` | crates/agc-word/src/lib.rs:264-276 | Overflow correction loses 2^14 per unit of overflow and nothing else; the overflow test is exactly a nonzero overflow. |
| `WordLaws.RegisterSum` | crates/agc-word/src/lib.rs:279-283 | Sixteen-bit one's-complement addition is exact whenever the exact sum fits. |
| `WordLaws.DoubleRoundTrip` | crates/agc-word/src/lib.rs:316-347 | A double word is exact on its whole range, both as an encoded pair and as two signed words, and both halves carry the sign. |
| `WordLaws.TruncatedDivision` | crates/agc-cpu/src/lib.rs:812-832 | The host's truncating division: identity, remainder below the divisor, remainder with the dividend's sign. |
| `WordLaws.BitwiseDigits` | crates/agc-memory/src/lib.rs:489-499 | The bitwise connectives used for masks and bank joins act digit by digit. |
| `Isa.EncodeDecode` | crates/agc-isa/src/lib.rs:292-427 | Encoding what was decoded gives back every one of the 32,768 words, in both EXTEND contexts. |
| `Isa.DecodeEncode` | crates/agc-isa/src/lib.rs:292-427 | Decoding an encoded operation gives it back with its operand if and only if it belongs to the context and is outside the five encoding overlaps. |
| `Isa.OperandBounds` | crates/agc-isa/src/lib.rs:292-359 | Every decoded operand fits twelve bits, operands of writing instructions fit ten, channels nine, and every instruction takes one to six cycles. |
| `Isa.BasicMap` | crates/agc-isa/src/lib.rs:292-359 | Range by range, which operation and operand each word without EXTEND is. |
| `Isa.ExtendedMap` | crates/agc-isa/src/lib.rs:292-359 | Range by range, which operation and operand each word after EXTEND is. |
| `Isa.CyclesOfOperations` | crates/agc-isa/src/lib.rs:292-359 | The nominal cycles: one to jump and to direct, three for double words and MP, six for DV, two for the rest. |
| `MemoryLaws.ResetIsCoherent` | crates/agc-memory/src/lib.rs:338-344 | The power-up contents and any reset satisfy the coherence invariant. |
| `MemoryLaws.BankWrites` | crates/agc-memory/src/lib.rs:455-486 | Writing EB, FB or BB at full width selects the banks the other two then show; all fields stay masked. |
| `MemoryLaws.WriteCentralCoherent` | crates/agc-memory/src/lib.rs:455-475 | A full-width register write keeps BB = FB | EB>>8, the masked fields and Z below 2^12. |
| `MemoryLaws.WriteSpecialCoherent` | crates/agc-memory/src/lib.rs:439-453 | So does a word write to any of the 49 special cells. |
| `MemoryLaws.WriteChannelCoherent` | crates/agc-memory/src/lib.rs:309-320 | So does a channel write, and the superbank flag stays bit 7 of channel 7. |
| `MemoryLaws.ReadsItsCell` | crates/agc-memory/src/lib.rs:192-231 | A read succeeds exactly on twelve-bit addresses and returns the contents of the one cell the address names. |
| `MemoryLaws.Aliases` | crates/agc-memory/src/lib.rs:192-219 | Two addresses name one cell if and only if one is in the erasable or fixed window and the other is the unbanked address of the selected bank. |
| `MemoryLaws.StoreRefinesFlatStore` | crates/agc-memory/src/lib.rs:256-275 | A store fails exactly on fixed or out-of-range addresses, otherwise it acts as one assignment in a flat store of cells, with the two coupled bank registers following. |
| `MemoryLaws.ReadAfterStore` | crates/agc-memory/src/lib.rs:222-275 | Away from the bank registers a load after a store sees the edited value at every alias of the cell and the old value everywhere else. |
| `MemoryLaws.ReadAndEditRewrites` | crates/agc-memory/src/lib.rs:236-253 | An operand read returns the cell before editing, leaves the edited value and changes no other cell. |
| `EditingLaws.StoredDigits` | crates/agc-memory/src/lib.rs:439-453 | Digit by digit what a load reads after a store at each of the 49 register cells: CYR cycles right, CYL left, SR shifts right under its sign, EDOP takes seven digits, Z and the bank registers keep their fields, the zero register nothing. |
| `EditingLaws.RereadDigits` | crates/agc-memory/src/lib.rs:236-253 | An operand read edits what an editing register holds once more, digit by digit. |
| `EditingLaws.WindowFollowsEb` | crates/agc-memory/src/lib.rs:192-219 | Storing EB opens the erasable window on the bank its digits give. |
| `EditingLaws.WindowFollowsFb` | crates/agc-memory/src/lib.rs:398-405 | Storing FB opens the fixed window on the bank its digits give, eight higher for 24 to 27 under the superbank. |
| `EditingLaws.SuperbankFollows` | crates/agc-memory/src/lib.rs:309-320 | A write to channel 7 selects the superbank by its digit 6. |
| `EditingLaws.CommonBanks` | crates/agc-memory/src/lib.rs:192-219 | Fixed banks 2 and 3 are seen at their own addresses whatever is selected. |
| `EditingLaws.ChannelReadsBack` | crates/agc-memory/src/lib.rs:300-320 | A channel written from outside reads the word back, L and Q at word width, channel 7 its three digits, and every other channel reads as before. |
| `MemoryDevice.Memory.constructor` | crates/agc-memory/src/lib.rs:148-172 | A new memory is blank but for the rope. |
| `MemoryDevice.Memory.ResetVolatile` | crates/agc-memory/src/lib.rs:338-344 | Everything but the rope returns to its power-up contents. |
| `MemoryDevice.Memory.LoadRope` | crates/agc-memory/src/lib.rs:175-184 | A rope of any other length is refused and changes nothing. |
| `MemoryDevice.Memory.Translate` | crates/agc-memory/src/lib.rs:192-219 | In-place translation equals the address map. |
| `MemoryDevice.Memory.ReadSpecial` | crates/agc-memory/src/lib.rs:426-437 | A register read as a word is overflow-corrected for A, L and Q. |
| `MemoryDevice.Memory.WriteCentral` | crates/agc-memory/src/lib.rs:455-475 | The register array after a full-width write is the specified contents. |
| `MemoryDevice.Memory.SynchronizeBanks` | crates/agc-memory/src/lib.rs:477-486 | Both bank views agree afterwards. |
| `MemoryDevice.Memory.WriteSpecial` | crates/agc-memory/src/lib.rs:439-453 | Editing registers store the edited word, the zero register stays zero, the others take the extended word. |
| `MemoryDevice.Memory.ReadPhysical` | crates/agc-memory/src/lib.rs:407-424 | The word of a physical cell, or the missing fixed bank. |
| `MemoryDevice.Memory.Read` | crates/agc-memory/src/lib.rs:222-231 | A load through the current banks. |
| `MemoryDevice.Memory.ReadAndEdit` | crates/agc-memory/src/lib.rs:236-253 | A load that rewrites an editing register; on failure nothing changes. |
| `MemoryDevice.Memory.Write` | crates/agc-memory/src/lib.rs:256-275 | A store as the flat-store functions specify; on failure nothing changes. |
| `MemoryDevice.Memory.ReadChannel` | crates/agc-memory/src/lib.rs:300-306 | Channels 1 and 2 are L and Q. |
| `MemoryDevice.Memory.WriteChannel` | crates/agc-memory/src/lib.rs:309-320 | Channel 7 is masked and drives the superbank. |
| `MemoryDevice.Memory.WriteErasablePhysical` | crates/agc-memory/src/lib.rs:359-377 | Installed cells are written, others refused. |
| `MemoryDevice.Memory.InjectFixedBitFlip` | crates/agc-memory/src/lib.rs:381-396 | Exactly the addressed rope word is exclusive-ored with the mask. |
| `Trace.TraceLog.Append` | crates/agc-trace/src/lib.rs:154-173 | An event is appended if and only if it carries the next number and does not start before the last one ended; otherwise the log is unchanged. |
| `Trace.TraceLog.FirstDifference` | crates/agc-trace/src/lib.rs:195-211 | The first index at which two logs differ, none exactly when they are equal. |
| `OperandLaws.OperandReread` | crates/agc-cpu/src/lib.rs:1106-1152 | Reading any twelve-bit address gives A, L or Q at full width and any other cell as a signed word; the read rewrites an editing register and nothing else. |
| `OperandLaws.OperandWrite` | crates/agc-cpu/src/lib.rs:1154-1190 | Writing any erasable address sets A, L or Q whole, stores the corrected word in any other cell, edited as that cell edits, and leaves every other cell. |
| `OperandLaws.WritesAreWatched` | crates/agc-cpu/src/lib.rs:1154-1190 | A write reports its address exactly when it is watched. |
| `InstructionLaws.SumsAreExact` | crates/agc-cpu/src/lib.rs:397-520 | AD and SU of any operand (register, erasable word or rope) are exact whenever the exact result fits the register, and change only A and an editing register they read. |
| `InstructionLaws.CountsInMemory` | crates/agc-cpu/src/lib.rs:397-520 | INCR, AUG and DIM count any operand up, away from zero and toward zero: at full width in A, L and Q, otherwise as a word whose count beyond the range is zero; DIM leaves a zero alone. |
| `InstructionLaws.CcsBranches` | crates/agc-cpu/src/lib.rs:522-545 | CCS of any operand leaves the diminished magnitude and takes one of four exits by the sign and kind of zero, an overflowed register by the sign of its overflow. |
| `InstructionLaws.TsStores` | crates/agc-cpu/src/lib.rs:547-585 | TS puts A at any operand, without its overflow where that is a word; on overflow it skips and leaves the sign, so nothing of A's value is lost. TS A changes nothing but the place, TS Z jumps; no channel, rope word or other cell changes. |
| `InstructionLaws.ExchangeTwice` | crates/agc-cpu/src/lib.rs:686-705 | An exchange swaps a register with any operand; a second one puts everything back if and only if the operand is a register at full width, or the register has no overflow and the cell keeps both words unedited. With a cell that keeps words, exactly the overflow is lost. |
| `InstructionLaws.DxchTwice` | crates/agc-cpu/src/lib.rs:662-684 | A double exchange swaps A and L with a pair of words; a second one puts everything back if and only if A and L have no overflow and the cells keep all four words unedited. With cells that keep words, exactly the overflows are lost. |
| `InstructionLaws.DxchRegisters` | crates/agc-cpu/src/lib.rs:662-684 | DXCH of the register pairs: one swaps A and L, one only drops the overflow of L, and one moves A, L and Q round. |
| `InstructionLaws.DoubleLoads` | crates/agc-cpu/src/lib.rs:625-660 | DCA loads the value of any pair and DCS its negation, A at full width and L without overflow; they change only A, L and editing registers they read. |
| `InstructionLaws.MsuIsAngleDifference` | crates/agc-cpu/src/lib.rs:837-848 | MSU is the two's-complement angle difference in one's complement, a half turn coming out as the largest positive word. |
| `FlowLaws.LoadsCopy` | crates/agc-cpu/src/lib.rs:397-520 | CA loads the value of any operand and CS its negation, changing only A and an editing register they read. |
| `FlowLaws.AdsAccumulates` | crates/agc-cpu/src/lib.rs:397-520 | ADS leaves the same sum in A and in any writable operand, less its overflow where that is a word. |
| `FlowLaws.MaskKeepsSharedOnes` | crates/agc-cpu/src/lib.rs:707-716 | MASK keeps exactly the ones A shares with the operand, sixteen with a register, fifteen with any other word. |
| `FlowLaws.ChannelLogicCombines` | crates/agc-cpu/src/lib.rs:850-890 | The five channel logic instructions combine A and any channel digit by digit, L and Q at full width; only WAND and WOR write, and the channel then holds the result as it latches it. |
| `FlowLaws.ChannelsCopy` | crates/agc-cpu/src/lib.rs:1191-1241 | READ and WRITE copy any channel's word in either direction, L and Q at full width. |
| `FlowLaws.OutputLatches` | crates/agc-cpu/src/lib.rs:1191-1241 | Digit by digit what channels 7, 13, 33 and 77 (octal) latch of a written word; every other channel holds it whole, and no other channel or cell changes. |
| `FlowLaws.BranchesExactly` | crates/agc-cpu/src/lib.rs:397-520 | BZF jumps exactly on a zero of either sign, BZMF exactly on a value not above zero. |
| `FlowLaws.CallSavesReturn` | crates/agc-cpu/src/lib.rs:397-520 | TC jumps and saves the address after it. |
| `FlowLaws.ReturnComesBack` | crates/agc-cpu/src/lib.rs:290-303 | TC Q fetches the saved address itself as the next instruction, a TC back to it, unless it is one of the three addresses whose TC encodings are taken. |
| `FlowLaws.IndexModifiesNext` | crates/agc-cpu/src/lib.rs:293-303 | The instruction after INDEX is the fetched word plus the indexing word, exact when the word sum does not overflow. |
| `InstructionSet.ExecutePerforms` | crates/agc-cpu/src/lib.rs:397-520 | For each mnemonic but EDRUPT, what executing it leaves in A, L, Q, Z, the operand, the channel and the control flags, in numbers and places, for every operand that decoding can give. |
| `InstructionSet.StepPerforms` | crates/agc-cpu/src/lib.rs:290-366 | A step that is no interrupt entry performs the instruction that the fetched word decodes to, on the registers and memory it found, with the place after it in Z, and ends by taking any overflow off L. |
| `StepFlow.StartState` | crates/agc-cpu/src/lib.rs:139-176 | A restart goes to 4000 (octal) with interrupts let in, the downlink one requested, the input channels at rest and everything else but the rope at zero. |
| `Arithmetic.MpExact` | crates/agc-cpu/src/lib.rs:718-734 | MP leaves the exact product, sign in both halves. |
| `Arithmetic.MpThenDv` | crates/agc-cpu/src/lib.rs:718-835 | MP then DV by the same nonzero operand restores the overflow-corrected A bit for bit, both zeros included, with zero remainder for nonzero A. |
| `Arithmetic.DasConserves` | crates/agc-cpu/src/lib.rs:603-622 | On an ordinary erasable pair, for any A and L: A and L plus the memory double equal the new memory double plus 2^28 per unit left in A if and only if neither half of the sum leaves sixteen bits, which is always so when A and L have no overflow. A ends in -1, 0, 1, L is zero, nothing else changes. |
| `Arithmetic.DasWraps` | crates/agc-cpu/src/lib.rs:603-622 | With A = 0, L at 32767 and the pair (0, 1), DAS leaves -32767 where the sum is 32768. |
| `Arithmetic.DasDoubles` | crates/agc-cpu/src/lib.rs:593-601 | DAS of A and L themselves doubles their value if and only if neither half leaves sixteen bits; L loses its overflow to A and nothing else changes. |
| `Division.NumeratorValue` | crates/agc-cpu/src/lib.rs:1409-1455 | The double DV divides is 2^14 A + L if and only if A is not a positive nonzero word over L = -0; in that family it is 2^14 less. |
| `Division.DvExact` | crates/agc-cpu/src/lib.rs:736-835 | On the in-range path dividend = quotient * divisor + remainder, the remainder is below the divisor and has the dividend's sign, and the quotient fits 16383. |
| `Division.DvBoundary` | crates/agc-cpu/src/lib.rs:804-811 | Where the dividend's high half equals the divisor and nothing stands below it, the division identity holds with the largest quotient and a remainder of a whole divisor, of the dividend's sign. |
| `Division.DvZero` | crates/agc-cpu/src/lib.rs:795-803 | A zero dividend gives the largest quotient over a zero divisor and zero over any other, with the sign of the division; only A changes. |
| `Division.ZeroSignOfL` | crates/agc-cpu/src/lib.rs:1409-1447 | A zero dividend is negative exactly when A is zero and L is negative. |
| `Division.DivisorMeans` | crates/agc-cpu/src/lib.rs:747-786 | What DV divides by: a memory word or Q as they are, the negative magnitude of A, L under the dividend's sign and below 2^14, the place for Z. |
| `Division.DvDividesAL` | crates/agc-cpu/src/lib.rs:736-835 | The identity holds of A and L themselves exactly outside that family. |
| `Division.BorrowExample` | crates/agc-cpu/src/lib.rs:1425-1435 | With A = 2, L = -0 and 16383 in Q, a DV step leaves quotient one and remainder one where A and L stand for two and two. |
| `SerialDivision.StepsDivide` | crates/agc-cpu/src/lib.rs:1484-1495 | The restoring steps leave a quotient, a remainder and what the shifts lost that add up to the dividend; nothing is lost where the partial remainder is below the divisor. |
| `SerialDivision.SerialDivides` | crates/agc-cpu/src/lib.rs:1457-1503 | For every A, every divisor and every L without overflow, the bit-serial division keeps dividend = divisor * quotient + remainder modulo 2^15 with the signs of a division; where the quotient fits, exactly and with the remainder below the divisor. |
| `SerialDivision.DvSerial` | crates/agc-cpu/src/lib.rs:788-794 | DV on the bit-serial path leaves such a quotient in A and such a remainder in L and changes nothing else; Q divides at full width, and Z with the sign of the dividend on it. |
| `SerialDivision.PathsAgree` | crates/agc-cpu/src/lib.rs:788-835 | In range, the bit-serial path would have left the same values as the exact one, unless a positive A borrows from a minus-zero L. |
| `Division.DvRuns` | crates/agc-cpu/src/lib.rs:736-835 | DV never fails, in range or out of it. |
| `StepLaws.ExecuteRuns` | crates/agc-cpu/src/lib.rs:397-520 | Every decoded instruction except EDRUPT executes without error and changes the control flags only as listed. |
| `ClockLaws.AdvanceClosedForm` | crates/agc-cpu/src/lib.rs:937-948 | The ready loop terminates, with one pulse at most and exactly the cycles that pulse stole. |
| `ClockLaws.PulseCosts` | crates/agc-cpu/src/lib.rs:956-1020 | The cycles a scaler pulse steals, as a function of the scaler phase, TIME1 and the TIME6 enable. |
| `ClockLaws.PulseTracks` | crates/agc-cpu/src/lib.rs:956-1043 | One pulse keeps TIME2,TIME1 equal to floor((ticks+16)/32) modulo 2^28. |
| `CounterLaws.PulseMoves` | crates/agc-cpu/src/lib.rs:956-1020 | One pulse, whole: TIME5, TIME4 and TIME3 rise at phases 0, 8 and 16 and request interrupts 2, 4 and 3 exactly at their wrap, TIME1 and TIME2 with TIME3; TIME6 moves toward zero on odd pulses while enabled and at zero requests interrupt 1 and stops; the scaler channels show the count; sprung traps are disarmed and request interrupt 10. |
| `CounterLaws.TrapsSpring` | crates/agc-cpu/src/lib.rs:1079-1104 | A trap stays armed exactly while all the input digits it watches are ones. |
| `CounterLaws.DownlinkPairs` | crates/agc-cpu/src/lib.rs:1203-1241 | Writes to channels 34 and 35 (octal) complete a pair in either order, and nothing else does. |
| `CounterLaws.OutputArms` | crates/agc-cpu/src/lib.rs:1203-1241 | A program output on channel 13 (octal) arms the traps its digits 11 to 13 name. |
| `CounterLaws.DownlinkFallsDue` | crates/agc-cpu/src/lib.rs:1022-1028 | A completed pair falls due 1,706 cycles later and is requested once, at the first cycle at or past that. |
| `MachineRuns.StepTiming` | crates/agc-cpu/src/lib.rs:290-366 | A step costs its nominal cycles, or two for an interrupt entry, plus the cycles of the one pulse that falls due. |
| `StepLaws.StepSucceeds` | crates/agc-cpu/src/lib.rs:290-366 | A step fails if and only if the log refuses its number or cycle. |
| `MachineRuns.StepKeepsInv` | crates/agc-cpu/src/lib.rs:290-366 | From any state a run can reach a step succeeds and the invariant survives: coherent banks, 3 cycles = 80 ticks + remainder, tiled trace, disciplined interrupts. |
| `MachineRuns.RunInvariant` | crates/agc-cpu/src/lib.rs:290-394 | Every state of every run satisfies the invariant, whatever peripherals do between steps. |
| `MachineRuns.RunNeverFails` | crates/agc-cpu/src/lib.rs:290-394 | No run from a restart over any rope gets stuck. |
| `MachineRuns.EntryConditions` | crates/agc-cpu/src/lib.rs:904-935 | A step is an entry only for EDRUPT or for the lowest-numbered request, enabled, outside a handler, outside extracode context and without overflow in A. |
| `StepFlow.EntersExactly` | crates/agc-cpu/src/lib.rs:904-935 | A step is an interrupt entry exactly for EDRUPT, or when a request is pending, interrupts are let in, no handler runs, the word is no extracode and none of RELINT, INHINT and EXTEND, and A has no overflow. |
| `StepFlow.EntryLeaves` | crates/agc-cpu/src/lib.rs:904-935 | An entry goes to 4000 plus four times its number (octal), or to zero, with the next place in ZRUPT and the interrupted word in BRUPT, and leaves the rest of the program alone. |
| `StepFlow.EventShows` | crates/agc-cpu/src/lib.rs:290-366 | A committed event shows the place, fetch, word, operation, registers and cycles before and after, and the requests of its step. |
| `StepFlow.EventsJoin` | crates/agc-cpu/src/lib.rs:290-366 | In an undisturbed run each event goes on from the registers, cycle, number and place the one before it ended with. |
| `MachineRuns.ExecutedControl` | crates/agc-cpu/src/lib.rs:892-902 | Only RESUME leaves a handler, and its event says so. |
| `TraceLaws.RunTrace` | crates/agc-cpu/src/lib.rs:290-366 | Over whole runs events tile machine time, a Resumed event lies between any two maskable entries, and every entry was allowed when it was taken. |
| `TraceLaws.RunProgress` | crates/agc-cpu/src/lib.rs:290-366 | Of any two steps in a row at least one executes an instruction. |
| `TraceLaws.RunTime` | crates/agc-cpu/src/lib.rs:956-1043 | Over whole runs with no other writer TIME2,TIME1 counts one per 32 pulses. |
| `TraceLaws.TakenTraceBlocks` | crates/agc-cpu/src/lib.rs:184-186 | Emptying the log while keeping its numbering leaves a machine that can step if and only if it never has. |
| `TraceLaws.TakenTraceExample` | crates/agc-cpu/src/lib.rs:184-186 | Over any rope: one step, the trace taken, and the next step is refused. |
| `TraceLaws.StepAdvances` | crates/agc-cpu/src/lib.rs:290-366 | A step that executes no instruction enters a handler it was not in, and the next one must execute. |
| `Transparency.InterruptionsAreTransparent` | crates/agc-cpu/src/lib.rs:892-935 | After any number of back-to-back entries whose handlers are a single RESUME the next instruction is the interrupted one, same address and same indexed word, and all program state agrees except ZRUPT, BRUPT, counters, scaler channels and timing. |
| `Processor.Cpu.constructor` | crates/agc-cpu/src/lib.rs:139-166 | The initial state of a run over a rope. |
| `Processor.Cpu.Reset` | crates/agc-cpu/src/lib.rs:266-287 | The restart state, rope and debugger points kept. |
| `Processor.Cpu.TakeTrace` | crates/agc-cpu/src/lib.rs:184-186 | Hands the log over; its numbering is not restarted. |
| `Processor.Cpu.RequestInterruptEvent` | crates/agc-cpu/src/lib.rs:1061-1067 | A request is recorded once. |
| `Processor.Cpu.CancelInterrupt` | crates/agc-cpu/src/lib.rs:261-263 | Removes a request and says whether it was there. |
| `Processor.Cpu.IncrementTime1` | crates/agc-cpu/src/lib.rs:1029-1043 | TIME1 carries into TIME2 and steals one or two cycles. |
| `Processor.Cpu.IncrementTimer` | crates/agc-cpu/src/lib.rs:1045-1059 | A timer counts and requests its interrupt on overflow. |
| `Processor.Cpu.AdvanceScaler` | crates/agc-cpu/src/lib.rs:956-975 | The two scaler channels follow the scaler. |
| `Processor.Cpu.ServiceHandruptTraps` | crates/agc-cpu/src/lib.rs:1079-1104 | Armed traps request the manual interrupt and disarm. |
| `Processor.Cpu.ServiceScaler` | crates/agc-cpu/src/lib.rs:956-1020 | Every pulse that is due is served and the cycles stolen are returned. |
| `Processor.Cpu.AdvanceToReadyMct` | crates/agc-cpu/src/lib.rs:937-948 | The ready loop terminates in the specified state. |
| `Processor.Cpu.Output` | crates/agc-cpu/src/lib.rs:1203-1241 | Masked channels, trap arming and the downlink pair, in place. |
| `Processor.Cpu.Ccs` | crates/agc-cpu/src/lib.rs:522-545 | CCS in place equals its transition. |
| `Processor.Cpu.TransferToStorage` | crates/agc-cpu/src/lib.rs:547-585 | TS in place equals its transition. |
| `Processor.Cpu.Das` | crates/agc-cpu/src/lib.rs:587-623 | DAS in place equals its transition. |
| `Processor.Cpu.DoubleLoad` | crates/agc-cpu/src/lib.rs:625-660 | DCA and DCS in place equal their transitions. |
| `Processor.Cpu.DoubleExchange` | crates/agc-cpu/src/lib.rs:662-684 | DXCH in place equals its transition. |
| `Processor.Cpu.ExchangeRegister` | crates/agc-cpu/src/lib.rs:686-705 | XCH, LXCH and QXCH in place equal their transitions. |
| `Processor.Cpu.MaskWith` | crates/agc-cpu/src/lib.rs:707-716 | MASK in place equals its transition. |
| `Processor.Cpu.Multiply` | crates/agc-cpu/src/lib.rs:718-734 | MP in place equals its transition. |
| `Processor.Cpu.Divide` | crates/agc-cpu/src/lib.rs:736-835 | DV in place equals its transition. |
| `Processor.Cpu.HardwareDivide` | crates/agc-cpu/src/lib.rs:1457-1503 | The fourteen-turn division loop ends in the specified quotient and remainder. |
| `Processor.Cpu.ModularSubtract` | crates/agc-cpu/src/lib.rs:837-848 | MSU in place equals its transition. |
| `Processor.Cpu.ChannelOperation` | crates/agc-cpu/src/lib.rs:850-890 | The channel logic instructions in place equal their transitions. |
| `Processor.Cpu.Resume` | crates/agc-cpu/src/lib.rs:892-902 | RESUME in place equals its transition. |
| `Processor.Cpu.Execute` | crates/agc-cpu/src/lib.rs:397-520 | Dispatch over the 37 executable instructions, in place. |
| `Processor.Cpu.AcceptInterrupt` | crates/agc-cpu/src/lib.rs:904-935 | Accepts EDRUPT or the lowest pending request, saving the interrupted word. |
| `Processor.Cpu.Step` | crates/agc-cpu/src/lib.rs:290-366 | The step in place equals the transition; from a state a run can reach it succeeds and stays in the invariant. |
| `Processor.Cpu.Run` | crates/agc-cpu/src/lib.rs:369-394 | The run loop returns at the first breakpoint, watched write or exhausted budget, in the state of exactly that many steps: before each step budget was left and no breakpoint reached, and no step but the last hit a watchpoint. |
| `Symbols.EvaluatesWithReferences` | crates/agc-assembler/src/lib.rs:1243-1318 | An operand evaluates if and only if every symbol it needs is defined. |
| `Symbols.SymbolTable.Define` | crates/agc-symbols/src/lib.rs:103-127 | A name is defined once; a second definition is refused with the first one's place and changes nothing. |
| `Symbols.SymbolTable.Reference` | crates/agc-symbols/src/lib.rs:135-149 | A use is recorded and no value changes. |
| `Equates.Resolve` | crates/agc-assembler/src/lib.rs:869-894 | The sweep loop on the symbol table computes the fixpoint function. |
| `Equates.FixpointSound` | crates/agc-assembler/src/lib.rs:869-894 | The sweeps end in a sound table closed under every definition. |
| `Equates.ResolutionIsMeaning` | crates/agc-assembler/src/lib.rs:869-894 | A name is in the final table if and only if unfolding the definitions to some depth gives it a meaning, and it holds that meaning. |
| `Equates.OrderIndependence` | crates/agc-assembler/src/lib.rs:869-894 | The order of equates changes no symbol. |
| `Equates.UnresolvedExactly` | crates/agc-assembler/src/lib.rs:869-904 | An equate is left over if and only if a chain of needs from it reaches an undefined name or a cycle. |
| `TwoPass.LocationCounter.MovePast` | crates/agc-assembler/src/lib.rs:1029-1051 | The counter moves past a record's words or refuses and stays. |
| `TwoPass.PlaceRecord` | crates/agc-assembler/src/lib.rs:830-866 | One record of pass one, in place. |
| `TwoPass.PlaceRecords` | crates/agc-assembler/src/lib.rs:823-867 | The pass-one loop computes the pass-one fold. |
| `TwoPass.EvaluateAndReference` | crates/agc-assembler/src/lib.rs:1267-1289 | Recording the use changes no evaluation. |
| `TwoPass.EmitRecord` | crates/agc-assembler/src/lib.rs:1177-1241 | The words of a record, or its one diagnostic. |
| `TwoPass.Store` | crates/agc-assembler/src/lib.rs:927-951 | Writing a record's words into the two arrays equals the placing function. |
| `TwoPass.FillRope` | crates/agc-assembler/src/lib.rs:906-953 | The pass-two loop computes the pass-two fold. |
| `TwoPass.Assemble` | crates/agc-assembler/src/lib.rs:823-972 | Both passes over arrays and one table compute the specified image or diagnostics. |
| `LayoutLaws.PassTwoExactly` | crates/agc-assembler/src/lib.rs:906-953 | Pass two is quiet if and only if every placed record can be emitted inside the rope and no two meet; then the rope holds exactly their words. |
| `ProgramLaws.AcceptedExactly` | crates/agc-assembler/src/lib.rs:823-972 | A program is accepted if and only if the parser reported nothing fatal, every record is in order where pass one meets it (fresh label, operand of its kind, room in the bank), every equate resolves to a new name and the records can be laid out. |
| `AssemblerLaws.QuietExactly` | crates/agc-assembler/src/lib.rs:830-866 | Pass one reports nothing, up to any record, if and only if each record so far is in order where it is met. |
| `AssemblerLaws.RefusalsInPassOne` | crates/agc-assembler/src/lib.rs:830-866 | Which diagnostic each record that is out of order gets in pass one. |
| `AssemblerLaws.FieldsOfFixedOperations` | crates/agc-assembler/src/lib.rs:1183-1190 | RELINT, INHINT, EXTEND and RESUME are 3, 4, 6 and 50017 (octal) in any context, and nothing written in their operand field is evaluated. |
| `AssemblerLaws.RefusalsInPassTwo` | crates/agc-assembler/src/lib.rs:1174-1241 | Which diagnostic each operand that cannot be emitted gets in pass two. |
| `ProgramLaws.RecordsStandInTheirBank` | crates/agc-assembler/src/lib.rs:906-953 | Each placed record's words, as many as pass one counted, stand inside one bank at its place, although the count is cut to sixteen bits on the way. |
| `ProgramLaws.ReservationsExactly` | crates/agc-assembler/src/lib.rs:1029-1051 | In an accepted program a record met in erasable memory lies inside its bank with the next place right after it if and only if its count is below 65,536. |
| `ProgramLaws.ReservationExample` | crates/agc-assembler/src/lib.rs:861-863 | An accepted program whose second variable lies on the 65,536 words reserved for its first. |
| `ProgramLaws.RecordsAreDisjoint` | crates/agc-assembler/src/lib.rs:906-953 | No cell belongs to two records. |
| `ProgramLaws.OccupiedExactly` | crates/agc-assembler/src/lib.rs:906-953 | Exactly the records' cells are occupied, their number is the sum of the counts, all others are zero. |
| `ProgramLaws.LabelsNameTheirRecord` | crates/agc-assembler/src/lib.rs:830-866 | A label's value is the place of its record's first word. |
| `ProgramLaws.LabelsAreUnique` | crates/agc-assembler/src/lib.rs:830-866 | No two records of an accepted program share a label. |
| `ProgramLaws.SymbolsMeanWhatEquatesSay` | crates/agc-assembler/src/lib.rs:869-904 | In an accepted program every symbol is a label or has exactly the meaning the equates give it. |
| `ProgramLaws.AddressReachesCell` | crates/agc-symbols/src/lib.rs:42-56 | With its bank selected, the logical address of a fixed or erasable symbol translates to the symbol's own cell if and only if its offset is inside the bank. |
| `ProgramLaws.AddressPastTheEnd` | crates/agc-symbols/src/lib.rs:42-56 | A label after the last word of fixed bank 2 or erasable bank 0 has the address of the first word of the next bank. |
| `ProgramLaws.LabelsReachTheirWord` | crates/agc-assembler/src/lib.rs:823-972 | The machine loaded with the image reads a record's first word through its label. |
| `ProgramLaws.ContextIsInMemory` | crates/agc-assembler/src/lib.rs:909-926 | A record assembled in extracode context directly follows the word EXTEND in its bank. |
| `ProgramLaws.InstructionsDecode` | crates/agc-assembler/src/lib.rs:1177-1225 | A placed instruction's word decodes to its own operation and evaluated operand if and only if it fits its context and no other operation claims the encoding. |
| `ProgramLaws.DataStandsForItsOperand` | crates/agc-assembler/src/lib.rs:1226-1241 | A data record's words stand for its operand's value. |
| `ProgramLaws.SymbolsEvaluate` | crates/agc-assembler/src/lib.rs:1243-1291 | An operand LABEL plus d is the address of the word d after the label's own; of an equate, its number plus d. |
| `ProgramLaws.EquatesKeepTheirNumber` | crates/agc-assembler/src/lib.rs:869-904 | The name of an equate stands for the number its operand comes to, whether that fits a word or not. |
| `ProgramLaws.TermsAddUp` | crates/agc-assembler/src/lib.rs:1293-1318 | A sum is that of its atoms in either order, and a difference is undone by adding the right atom back. |
| `ProgramLaws.NumbersAsAddresses` | crates/agc-symbols/src/lib.rs:42-56 | A constant is seen as an address by its low twelve bits, a larger number not at all. |
| `ProgramLaws.OperandsNameWords` | crates/agc-assembler/src/lib.rs:1174-1241 | In an accepted program an instruction whose operand is a record's label plus d decodes to the address of the word d after that record's first. |
| `ProgramLaws.WordsAreRead` | crates/agc-symbols/src/lib.rs:42-56 | That address, with the bank selected, is where the machine reads that word. |
| `ProgramLaws.LabelPlusSize` | crates/agc-symbols/src/lib.rs:42-56 | A label plus its record's size reads the first word of the record placed after it. |
| `ProgramLaws.PlacesMove` | crates/agc-assembler/src/lib.rs:1054-1134 | Where an accepted program goes on after BANK, BLOCK, SETLOC and every other record that emits nothing. |
| `ProgramLaws.ProgramsSurviveTheirFile` | crates/agc-assembler/src/lib.rs:83-92 | Assembled, serialised and loaded, any placed instruction is read at the logical address of its place, its label's if it has one, whenever its bank is selected, and decodes as written under the same condition. |
| `ProgramLaws.FilesLoad` | crates/agc-loader/src/lib.rs:91-169 | The yaYUL file of any image loads, and a new memory with its rope holds the image's words. |
| `Includes.ExpansionState.ExpandFile` | crates/agc-assembler/src/lib.rs:724-801 | The recursive expansion terminates, adds exactly the expansion's records and lists files by first entry; a file is read once. |
| `Includes.ExpansionIsTextual` | crates/agc-assembler/src/lib.rs:724-801 | Expansion yields a result if and only if it is the depth-first textual expansion to some depth. |
| `Includes.ExpansionFailsExactly` | crates/agc-assembler/src/lib.rs:724-801 | Expansion fails if and only if a chain of includes from the entry is cyclic, or ends at an unreadable path or unresolvable include. |
| `Includes.CyclesAreTheOnlyFailure` | crates/agc-assembler/src/lib.rs:724-801 | When all files read and resolve, a reachable cycle is the only failure and the error names one. |
| `Includes.OrderIsFirstEncounter` | crates/agc-assembler/src/lib.rs:724-741 | Units are listed once each, exactly the files entered, in order of first entry. |
| `Rope.DecodeBytes` | crates/agc-loader/src/lib.rs:91-146 | A file loads if and only if every word is well formed in its format; otherwise the error is that of the first bad word. |
| `Rope.EncodeYayul` | crates/agc-loader/src/lib.rs:149-169 | The loops over banks and words write the specified serialisation. |
| `Rope.LoadSerialised` | crates/agc-assembler/src/lib.rs:83-92 | Loading the yaYUL bytes of any rope gives the rope back. |
| `Rope.FileBytes` | crates/agc-loader/src/lib.rs:149-169 | The two bytes of each word of a yaYUL file, high byte first, of the word doubled. |
| `Rope.LoadedDigits` | crates/agc-loader/src/lib.rs:91-147 | Each loaded word has, digit by digit, the data of its own file word in each of the four formats, in the file's bank order. |
| `Rope.SerialiseLoaded` | crates/agc-loader/src/lib.rs:91-169 | Serialising what a yaYUL file loads as gives the same file. |
| `Rope.LoadingIsInjective` | crates/agc-loader/src/lib.rs:91-146 | In all four formats no two acceptable files load as the same rope. |
| `Rope.ParityCatchesOneBit` | crates/agc-loader/src/lib.rs:104-128 | In the parity formats any single wrong bit makes a file unacceptable. |
| `Listing.AssembleListing` | crates/agc-assembler/src/lib.rs:406-564 | The card loop and the bank check compute the specified bytes or first error. |
| `Listing.ChecksumIsTotal` | crates/agc-assembler/src/lib.rs:566-574 | A bank checksum stands for the sum of its words modulo 16383. |
| `Listing.ListingAcceptedExactly` | crates/agc-assembler/src/lib.rs:406-533 | A listing is accepted if and only if its cards are in order (each bank named once and in the rope, words octal and under a bank) and list for every bank 1024 words whose checksum is its number or its complement. |
| `Listing.ReadsExactly` | crates/agc-assembler/src/lib.rs:425-495 | A listing reads, up to any card, if and only if each card so far is in order and no bank has more than 1024 words. |
| `Listing.AcceptedListingLoads` | crates/agc-assembler/src/lib.rs:406-564 | The bytes of an accepted listing load with, in every bank, exactly the words its cards list. |
| `Parser.CollectFields` | crates/agc-parser/src/lib.rs:198-214 | The character loop collects the fields. |
| `Parser.FieldsAreTheRuns` | crates/agc-parser/src/lib.rs:198-214 | Fields are exactly the maximal runs without whitespace, in order. |
| `Parser.LineKeepsItsText` | crates/agc-parser/src/lib.rs:112-233 | Every token is the slice its span names, tokens come in order and only whitespace, '#' and '$' lie outside them. |
| `Parser.TokensAreSlices` | crates/agc-parser/src/lib.rs:64-110 | The same against the whole text. |
| `Parser.CardsMean` | crates/agc-parser/src/lib.rs:146-186 | Which field of a card is its label, operation and operand. |
| `Parser.LinesMean` | crates/agc-parser/src/lib.rs:112-145 | Which kind a line is, by its first character that is no blank or tab. |
| `Parser.BlankLines` | crates/agc-parser/src/lib.rs:112-145 | Lines of blanks and tabs are blank, and no others. |
| `Parser.MarkersMean` | crates/agc-parser/src/lib.rs:235-247 | Page markers and relative labels, character by character. |
| `Parser.ParseText` | crates/agc-parser/src/lib.rs:64-110 | The offset-driven loop cuts the text into the specified lines. |
| `Parser.ReconstructExactly` | crates/agc-ast/src/lib.rs:125-132 | Lines tile the text in order; reconstruction gives the text back if and only if it does not end in a bare carriage return, which is otherwise all that is lost. |
| `Parser.ReconstructExample` | crates/agc-ast/src/lib.rs:125-132 | A text of one line and a bare return comes back without the return. |
| `Overlay.JoinSegments` | crates/agc-overlay/src/lib.rs:280-289 | Cutting a source into contents and endings loses nothing. |
| `Overlay.SegmentsJoin` | crates/agc-overlay/src/lib.rs:280-289 | Well-formed lines joined into a text are cut into the same lines. |
| `Overlay.ApplyToSource` | crates/agc-overlay/src/lib.rs:263-318 | Edits apply if and only if every edited line exists with its expected text; the error names the first mismatch or the least missing line. |
| `Overlay.EditsKeepLines` | crates/agc-overlay/src/lib.rs:263-318 | Applied edits keep every line, ending and the number of lines if and only if they empty no unterminated last line, which is otherwise all that is lost. |
| `Overlay.UndoExactly` | crates/agc-overlay/src/lib.rs:263-318 | Exchanging expected and replacement undoes applied edits if and only if no unterminated last line was emptied. |
| `Overlay.UndoExample` | crates/agc-overlay/src/lib.rs:263-318 | Emptying the one unterminated line of a text cannot be undone. |
| `Interpreter.IntegerSquareRoot` | crates/agc-interpreter/src/lib.rs:505-516 | Newton's loop terminates with r^2 <= v < (r+1)^2. |
| `Interpreter.Engine.Step` | crates/agc-interpreter/src/lib.rs:212-232 | One instruction in place, including what a failing one leaves behind. |
| `Interpreter.Engine.Run` | crates/agc-interpreter/src/lib.rs:235-249 | The run loop returns the transitions up to EXIT, the failure, or the exhausted budget. |
| `InterpreterLaws.StepKeepsSafe` | crates/agc-interpreter/src/lib.rs:251-429 | A successful step from a safe state keeps every value within 2^28-1 and every address within the program. |
| `InterpreterLaws.RunsAreSafe` | crates/agc-interpreter/src/lib.rs:235-249 | So does every run that has not failed. |
| `InterpreterLaws.RunsAreConnected` | crates/agc-interpreter/src/lib.rs:212-249 | Transitions are one unbroken execution of the program, counted by the step counter, in which only the last can be EXIT. |
| `InterpreterLaws.BudgetsAgree` | crates/agc-interpreter/src/lib.rs:235-249 | Directly from the transition: a larger budget changes nothing about a run that halted. |
| `InterpreterLaws.OperationsFailExactly` | crates/agc-interpreter/src/lib.rs:251-481 | On values in range an operation fails if and only if its operands are of the wrong kind, its shift is 128 or more, its divisor is zero or its quotient is too wide. |
| `InterpreterLaws.ExecuteLeaves` | crates/agc-interpreter/src/lib.rs:251-429 | On values in range, what each instruction that succeeds leaves in the accumulator, on the stack, in storage and in the place to go on: sums and differences by component, rescaled products, quotients with their remainder, dot and cross products, magnitude, root. |
| `InterpreterLaws.ScaledProductExact` | crates/agc-interpreter/src/lib.rs:464-466 | A rescaled product is the exact product rounded down. |
| `InterpreterLaws.WrapExactly` | crates/agc-interpreter/src/lib.rs:319-323 | The 128-bit shift keeps a numerator if and only if the shifted number fits. |
| `InterpreterLaws.ShiftKeeps` | crates/agc-interpreter/src/lib.rs:319-323 | Every shift up to 99 places keeps every value in range. |
| `InterpreterLaws.ScaledQuotientExact` | crates/agc-interpreter/src/lib.rs:306-326 | A division whose shift loses nothing satisfies the division identity with a bounded remainder of the numerator's sign. |
| `InterpreterLaws.CrossIsOrthogonal` | crates/agc-interpreter/src/lib.rs:468-470 | A cross product is orthogonal to both factors. |
| `Agenda.ExactlyOnce` | crates/agc-runtime/src/lib.rs:297-361 | Over any history each scheduled item is pending if no boundary since has reached its key, and otherwise was delivered exactly once, at the first boundary that did. |
| `Agenda.DeliveriesInOrder` | crates/agc-runtime/src/lib.rs:346-361 | Deliveries are ordered by boundary and, within one, by due time and then by order of scheduling. |
| `RuntimeLoop.EventsFailExactly` | crates/agc-runtime/src/lib.rs:363-409 | An event fails if and only if it names a channel or cell that does not exist; otherwise it leaves a machine a run can reach. |
| `RuntimeLoop.BoundariesFailExactly` | crates/agc-runtime/src/lib.rs:309-314 | A boundary fails if and only if a malformed event is due, whatever the rope does. |
| `RuntimeLoop.NoFrameIsCaptured` | crates/agc-runtime/src/lib.rs:411-432 | No sequence of output writes ever records a downlink frame. |
| `RuntimeLoop.Runtime.ScheduleEvent` | crates/agc-runtime/src/lib.rs:297-306 | An event is queued under the next sequence number. |
| `RuntimeLoop.Runtime.Apply` | crates/agc-runtime/src/lib.rs:363-409 | One event performed in place. |
| `RuntimeLoop.Runtime.ApplyDueEvents` | crates/agc-runtime/src/lib.rs:346-361 | Exactly the due events leave the queue, applied in key order. |
| `RuntimeLoop.Runtime.StepOnce` | crates/agc-runtime/src/lib.rs:309-314 | One boundary in place; the queue stays what its history says. |
| `FaultInjection.FaultsFailExactly` | crates/agc-faults/src/lib.rs:208-331 | A fault fails if and only if its target does not exist or cannot take it; otherwise it leaves a machine a run can reach. |
| `FaultInjection.RopeFlipTwice` | crates/agc-memory/src/lib.rs:381-396 | The same rope flip twice restores the memory. |
| `FaultInjection.HeldExactly` | crates/agc-faults/src/lib.rs:171-180 | After any number of boundaries exactly the channel faults asked for longer are left, in order and with that many less to go; one that asks for none is held for one. |
| `FaultInjection.EnforcedChannel` | crates/agc-faults/src/lib.rs:333-343 | The last active fault on an ordinary channel decides what it holds. |
| `FaultInjection.HeldChannel` | crates/agc-faults/src/lib.rs:171-180 | At each boundary an ordinary channel holds the value of the last fault still held on it, and is left alone when none is. |
| `FaultInjection.CampaignsFailExactly` | crates/agc-faults/src/lib.rs:171-180 | A fault-aware boundary fails if and only if an impossible fault or a malformed event is due; otherwise every due fault is recorded once, in order, and the machine stays reachable. |
| `FaultInjection.EachFaultOnce` | crates/agc-faults/src/lib.rs:158-206 | Each scheduled fault is waiting or stands exactly once in the audit trail, with the count of the first boundary that reached it. |
| `FaultInjection.FaultEngine.ScheduleFault` | crates/agc-faults/src/lib.rs:158-168 | A fault is queued under the next sequence number. |
| `FaultInjection.FaultEngine.ApplyToMemory` | crates/agc-faults/src/lib.rs:208-300 | Flips of erasable and rope words and timer jumps in place, with the resulting word. |
| `FaultInjection.FaultEngine.ApplyToCpu` | crates/agc-faults/src/lib.rs:208-300 | Register flips and dropped requests in place. |
| `FaultInjection.FaultEngine.ApplyToInputs` | crates/agc-faults/src/lib.rs:208-331 | Stuck channels taken up and replaced inputs scheduled. |
| `FaultInjection.FaultEngine.Apply` | crates/agc-faults/src/lib.rs:208-331 | One fault performed in place and recorded. |
| `FaultInjection.FaultEngine.ApplyDue` | crates/agc-faults/src/lib.rs:191-206 | Exactly the due faults leave the schedule, applied in key order. |
| `FaultInjection.FaultEngine.EnforceChannels` | crates/agc-faults/src/lib.rs:333-343 | Every active channel fault is written again. |
| `FaultInjection.FaultEngine.StepOnce` | crates/agc-faults/src/lib.rs:171-180 | One fault-aware boundary in place; the audit trail stays what the history delivered. |
| `Keyboard.CodesRoundTrip` | crates/agc-dsky/src/lib.rs:38-74 | Codes and keys correspond one to one, except that PRO shares the code of zero. |
| `Keyboard.CodesOfKeys` | crates/agc-dsky/src/lib.rs:38-58 | The code of every key. |
| `Keyboard.V37ProgramChange.Accept` | crates/agc-dsky/src/lib.rs:135-166 | One code in place; a refused one changes nothing. |
| `Keyboard.FeedExactly` | crates/agc-dsky/src/lib.rs:135-175 | The protocol accepts exactly the prefixes of VERB 37 ENTER digit digit ENTER, and registers the program exactly when the series is whole. |
| `Keyboard.Pace` | crates/agc-mission/src/lib.rs:699-766 | The mission loop's key handling, turn by turn. |
| `Keyboard.KeysGoOut` | crates/agc-mission/src/lib.rs:725-745 | A key goes out at the first turn at which its cycle has come and the one before it is finished. |
| `Keyboard.KeyruptsNoted` | crates/agc-mission/src/lib.rs:840-851 | An entry of interrupt 5 is noted for the first key without one. |
| `Keyboard.CharinsNoted` | crates/agc-mission/src/lib.rs:853-871 | Fetching word 77 of fixed bank 40 (octal) finishes the first key whose interrupt has been entered, and the protocol model takes its code. |
| `Keyboard.PacingHolds` | crates/agc-mission/src/lib.rs:699-871 | Without scripted keys only the last key supplied can be unfinished, the keys supplied are a prefix of the sequence at least the gap apart, and the protocol model has taken exactly the finished ones and refused none. |
| `Keyboard.VerdictIsLastKey` | crates/agc-mission/src/lib.rs:791-805 | The keyboard verdict rests on the last key; when what went out of a V37E63E sequence is verified, program 63 is selected if and only if all seven keys went out. |
| `ProgramLaws.RecordsFollowEachOther` | crates/agc-assembler/src/lib.rs:830-866 | In an accepted program a placed record that follows a placed one stands right after its last word. |
| `ProgramLaws.SetLocationExactly` | crates/agc-assembler/src/lib.rs:1094-1125 | SETLOC goes to the place of the address it is given if and only if the address is outside the switched erasable window; a window address is taken for the same offset in erasable bank 0. Fixed addresses go to fixed banks 0, 2 and 3. |
| `ProgramLaws.SetLocationExample` | crates/agc-assembler/src/lib.rs:1094-1125 | SETLOC of the last switched erasable address comes out in erasable bank 0. |
| `ProgramLaws.DirectivesMoveThePlace` | crates/agc-assembler/src/lib.rs:1054-1134 | In an accepted program the record after BANK starts that bank, and one in fixed memory after SETLOC has the address SETLOC was given, in fixed bank 0, 2 or 3 by its window. |
| `Rope.FileOrder` | crates/agc-loader/src/lib.rs:149-169 | A yaYUL file holds the banks in the order 2, 3, 0, 1, 4, 5 and so on, each word doubled. |
| `InterpreterLaws.SubtractUndoesAdd` | crates/agc-interpreter/src/lib.rs:432-462 | Directly from the transition: subtraction takes back addition and addition subtraction, for scalars and vectors. |
| `InterpreterLaws.LoadsWhatWasStored` | crates/agc-interpreter/src/lib.rs:251-429 | Directly from the transition: a value stored under a name is loaded back whatever the accumulator held since. |
| `InterpreterLaws.PopsWhatWasPushed` | crates/agc-interpreter/src/lib.rs:251-429 | Directly from the transition: a pushed value is popped and the rest of the state is as before. |
| `InterpreterLaws.ReturnsToTheCaller` | crates/agc-interpreter/src/lib.rs:251-429 | Directly from the transition: a call goes to its target and a return from anywhere restores the state of the call. |
| `InterpreterLaws.BranchesExactly` | crates/agc-interpreter/src/lib.rs:251-429 | Directly from the transition: conditional branches go exactly by the sign of a scalar, and only to targets of the program. |
| `EventLaws.SampleIsRead` | crates/agc-runtime/src/lib.rs:392-398 | After a radar sample the two counters read the sample, its interrupt is pending, and every other address reads as before. |
| `EventLaws.KeyIsRead` | crates/agc-runtime/src/lib.rs:400-406 | After a key press channel 15 (octal) shows its low five bits, no other channel changes, and the keyboard interrupt is pending. |
| `EventLaws.PulseValue` | crates/agc-runtime/src/lib.rs:383-387 | A pulse count that a word represents becomes that word, any other the word of its low fifteen bits. |
| `EventLaws.PulsesAreCounted` | crates/agc-runtime/src/lib.rs:379-391 | Each axis's pulses are added to its own counter, whose value rises by exactly their number unless the word sum overflows, and every other address reads as before. |
| `EventLaws.InputsAreRead` | crates/agc-runtime/src/lib.rs:363-378 | A channel input is read back in its channel, a request is pending, and an erasable input is a store to its cell. |
| `EventLaws.PeripheralsNote` | crates/agc-runtime/src/lib.rs:379-399 | Pulse totals and the last radar sample follow the events, and nothing else does. |
| `EventLaws.JumpIsRead` | crates/agc-faults/src/lib.rs:282-300 | A timer jump adds its delta to that timer, whose value moves by exactly it unless the word sum overflows, reports the word now read there, and changes nothing else. |
| `EventLaws.FlipIsRead` | crates/agc-faults/src/lib.rs:208-225 | A bit flip stores the flipped word cell by cell, edited as any store and with the bank registers following each other, and reports what its cell then holds; at any cell but a bank register it is read at every alias and every other address reads as before. |
| `EventLaws.FlipTwiceReads` | crates/agc-faults/src/lib.rs:208-225 | The same flip twice leaves every address reading as before, at any cell that keeps words as they are. |
| `EventLaws.FlipDigits` | crates/agc-faults/src/lib.rs:208-260 | A flip turns exactly the digits of its mask. |
| `EventLaws.RegisterFlipDigits` | crates/agc-faults/src/lib.rs:255-268 | So does a register flip, at sixteen bits. |
| `EventLaws.WordFlipsLand` | crates/agc-faults/src/lib.rs:226-253 | A physical flip is a store to its cell and a rope flip changes that word of the rope alone; each reports the flipped word. |
| `EventLaws.OtherFaultsLand` | crates/agc-faults/src/lib.rs:254-331 | Register flips, dropped requests, held channels and replaced inputs do what they say and nothing else. |

## Left out

- Host integer widths where nothing depends on them: cycle, sequence and event counters are
  unbounded, and pulse totals of the inertial unit do not wrap. Word, register, file and
  interpreter widths are modelled.
- Sums and differences in operands and equates are unbounded; the host's are 64 bits wide, and
  an operand built from constants near that limit would stop or wrap there.
- The ordered memory accesses and channel traffic inside a trace event: only the fetch is
  kept, so channel traffic is a parameter of `RuntimeLoop.Runtime.StepOnce`.
- `Cpu` fields are grouped into records (control, clock, traps, downlink, debugger), and the
  activity of the event under way and the watchpoint hit are fields rather than locals.
- The queue and its counter in `Runtime` and `FaultEngine` carry ghost histories the program
  does not have; nothing executable reads them.
- SerialDivision.DvSerial: leaves out an L with overflow, which the bit-serial path takes for a
  borrow; its loop is still proved to end in the specified registers.
- Transparency.InterruptionsAreTransparent: is about handlers that are a single RESUME.
- InstructionLaws.ExchangeTwice: leaves out window addresses of the bank registers, which name
  another cell after the first exchange.
- InstructionLaws.DxchTwice: likewise, and leaves out the pair of Q and EB, window addresses of A
  and L, and the pairs of A, L and Q, for which `InstructionLaws.DxchRegisters` says what DXCH
  does instead of swapping.
- Keyboard.PacingHolds: is about runs without scripted key inputs, which bypass the pacing.
- Spelling: mnemonics, numbers and expressions reach the assembler model already tokenised,
  as do the cards of an octal listing; decoding of UTF-8 and the path rules of includes are
  the `Files` map. Whitespace is the ASCII kind.
- The vocabulary of operations that decides a relative label is a parameter of the parser.
- A shift of 128 or more in the interpretive engine counts as a fault; the host traps or masks
  it depending on how it is built. So does dividing -2^127 by -1, at which the host stops.
- Allocating an enormous ERASE block is not a failure here.
- Mission frames, guidance evidence, the P63 checks and initial pad loads; of evidence only
  keys and their milestones are modelled.
- Overlay validation other than of source edits: aliases, evidence, schema and paths.
- Materialising overlays, manifests, hashes, reports, JSON and all file and process handling.
- The external reference assembler, cross references, transpiler, conformance ropes,
  experiments, coverage, display rendering and lamps.
