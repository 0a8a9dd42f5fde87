# Verified models of the bare-metal tree

The repository boots a small ARM9 netbook without its operating system: a boot
menu with settings on a memory card, loaders for FAT volumes and NAND flash, a
patch finder that rewrites firmware words in memory, a keyboard driver, and a GDB
stub over USB. This project models the parts whose behaviour does not depend on the
hardware, and proves what they promise. `dafny verify dfyconfig.toml` checks it.

| Files | Part |
|---|---|
| `ArmStep`, `ArmReference`, `ArmDefined`, `ArmStepCorrect`, `SingleStep` | where a single step lands, against a reference ARMv5TE step |
| `Breakpoints` | breakpoints and steps as an overlay on program memory |
| `RspFraming`, `RspMemory`, `RspStub` | packet framing, memory commands, and the stub's buffers |
| `UsbBulk`, `UsbControl` | packets to the debugger |
| `HookBranch`, `PowerHold`, `PowerHoldCorrect` | rewritten ARM code |
| `Patchfinder`, `PatchfinderCorrect`, `PowerHoldPatch` | the pattern scan over an image that changes during it, and a real patch in it |
| `Ecc`, `Nand` | correction of bit errors and loading an image |
| `FatVolume`, `FatLoad` | loading one file from a FAT volume |
| `StorageRead`, `StorageSave` | fast reads and safe saves on top of a file system |
| `Ini`, `Settings`, `SettingsFile`, `SettingsRoundTrip`, `SettingsKept`, `SettingsStore` | the settings file |
| `KeyRing`, `Keyboard`, `HeldKeys`, `DoomKeys`, `DoomRuns` | from keyboard reports to game keys |
| `Bytes`, `WordFacts` | shared types, little-endian words, facts on quotients and rotations |

How to read them. Code that works step by step is a method, on an array or on a class
with the source's fields, and is proved equal to a function of the old state; what the
source promises is proved about that function. Hardware is a contract: a card, a chip
or a host that may fail at any step. Machine words that are shifted or masked are
32-bit vectors; bytes, addresses and counters are integers with the wrap-around
written out where the source can reach it. Memory is one array or one function, apart
from the program's own variables.

Standards: the GDB manual, appendix "GDB Remote Serial Protocol", sections "Overview"
and "Packets"; the ARM Architecture Reference Manual DDI 0100, chapters A3 and A5;
section 5.8.3 of USB 2.0.

## What the proofs say about the code

These promises hold only under a condition. Each condition is proved to be exact, or to
decide the case that it is about.

- The next pc is predicted right for every defined step except one: a block load into pc
  takes its target from a rotated word when the base is not aligned, while the core
  ignores the low address bits (`PredictionIsTheNextStep`). It is wrong exactly when the
  rotation changes the target, and an aligned base is the only one for which no word is
  changed (`BlockLoadAgreesExactlyWhen`, `BaseDecides`).
- A single step is predicted from memory as the core sees it. From an address that has a
  breakpoint the stub decodes its own breakpoint word, so the prediction is always pc + 4:
  right exactly if the instruction behind it does not set pc, is not executed, or sets pc
  to the next address (`StepFromBreakpoint`; for branches, `BranchBehindBreakpoint`). A
  target that is loaded from a planted word is predicted from that word
  (`TargetBehindBreakpoint`). `PredictedExactlyWhen` and `StepLands` join the cases.
- A chunk from USB that holds a command which resumes the program loses its rest. How
  the stream is cut matters exactly when a packet starts in that rest
  (`CutShowsExactlyWhen`).
- A read that ends within the file gives exactly its slice. One that crosses the end can
  still return 0, if the part after the first sector boundary is a whole number of sectors
  and the last cluster goes on past the end. The position then stops at the end of the
  file, and the rest of the buffer is not the file's (`OpenFile.Read`, with the condition
  exact when no call fails; `ReadPastTheEnd` is an instance).
- A save can be interrupted anywhere if and only if the file itself is there at the
  start. If only the file with the new name is left, as after an interruption before
  the rename, the next save truncates the only copy (`SaveNeedsThePath`).
- Settings survive a save and a load if and only if the keys without a section come
  first, because no header is printed for them (`SettingsSurviveExactlyWhen`). Files in
  which no key is too long and no header is empty load to such tables (`FilesSurvive`).
- A key whose name does not fit its buffer is stored cut and never found again
  (`GetAfterSet`). It makes a duplicate exactly when the cut name is there already
  (`SetKeepsTable`), and answers for the cut name exactly when it is not
  (`OthersAfterSet`).
- The v1.88 power-hold code keeps the pin from driving low exactly when the output bit
  starts at 1, the v1.58.2 code from every state that starts held (`Hold188KeepsThePin`,
  `Hold1582KeepsThePin`). The v1.88 code leaves the other pins' directions alone. The
  v1.58.2 code computes them from r2, and keeps them exactly when r2 is 0x10000 apart
  from bit 9 (`Hold1582KeepsOtherPinsExactlyWhen`, `Hold1582TurnsAnotherPin`).
- A FAT whose sectors reach the last sector number has entries that are never read
  (`BelowMarkerExactlyWhen`, `EntryOfMarkerSector`).
- Replaying a keyboard report gives the held keys exactly when no modifier usage also
  sits in a slot in conflict (`ReportReplayed`). A poll loses events exactly when its
  reports have more than 31 (`PollLosesNothingExactlyWhen`). A new enumeration forgets
  keys that a listener still believes in (`EnumerationForgets`), and the game then
  believes in them for good (`GameKeysAreTheHeldKeys`).

## Model

| member | source | states |
|---|---|---|
| ArmStep.PopCount | baremetal/gdbstub/step.c:121-130 | Clearing the lowest bit until none is left counts the set bits of the register list |
| ArmStep.ClearLowest | baremetal/gdbstub/step.c:125-128 | `v & (v - 1)` has exactly one set bit less |
| ArmStep.ArmNextPc | baremetal/gdbstub/step.c:132-229 | The predictor computes the specified next pc, or reports that it is undecidable |
| ArmStep.TargetOf | baremetal/gdbstub/step.c:154-228 | The destination of an instruction whose condition holds, case by case |
| ArmStep.LoadBlockTarget | baremetal/gdbstub/step.c:190-208 | The word of the pc slot of a block load |
| ArmStepCorrect.FieldsAgree | baremetal/gdbstub/step.c:142-176 | Every four-bit field is the one that two opposite shifts cut out |
| ArmStepCorrect.StatesAgree | baremetal/gdbstub/step.c:8 | The state tested is bit 5 of cpsr, T |
| ArmStepCorrect.CarriesAgree | baremetal/gdbstub/step.c:75 | The carry used is bit 29 of cpsr, C |
| ArmStepCorrect.UnalignedLoadsRotate | baremetal/gdbstub/step.c:116-119 | An unaligned load is the aligned word, turned right by 8 bits for each byte, one bit at a time |
| ArmStepCorrect.LongShifts | baremetal/gdbstub/step.c:52-70 | Shifts by 32 and more leave nothing or the sign, and rotations go round |
| ArmStepCorrect.ConditionsAgree | baremetal/gdbstub/step.c:22-46 | All conditions agree with section A3.2.1, for every flag state |
| ArmStepCorrect.OperandsAgree | baremetal/gdbstub/step.c:49-96 | Immediate and shifted operands agree with A5.1, rotations taken one bit at a time |
| ArmStepCorrect.ShiftsByRegister | baremetal/gdbstub/step.c:89-94 | A shift by a register takes its lowest byte |
| ArmStepCorrect.OperationsAgree | baremetal/gdbstub/step.c:98-114 | Each opcode that writes Rd gives the result of A3.4, carry and borrow included |
| ArmStepCorrect.LoadAddressesAgree | baremetal/gdbstub/step.c:171-191 | The address of a load into pc agrees with A5.2 for every index and offset form |
| ArmStepCorrect.BranchTargetsAgree | baremetal/gdbstub/step.c:155-161 | The sign-extended branch target agrees with A4.1.5 |
| ArmStepCorrect.PcComesLast | baremetal/gdbstub/step.c:202-207 | r15 is transferred above every other register of the list |
| ArmStepCorrect.BlockAddressesAgree | baremetal/gdbstub/step.c:194-207 | For IA, IB, DA and DB the address from the popcount is the slot that a walk over the list gives to r15 |
| ArmStepCorrect.BlockLoadsAgree | baremetal/gdbstub/step.c:194-209 | The stub's target is the one that the transfer loads into pc exactly when the rotation for the slot's low address bits leaves the word's upper 30 bits alone |
| ArmStepCorrect.BlockLoadAgreesExactlyWhen | baremetal/gdbstub/step.c:194-209 | A block load into pc, with or without the exception return, is predicted as the reference executes it exactly then |
| ArmStepCorrect.BaseDecides | baremetal/gdbstub/step.c:116-119 | An aligned base is exactly one from which no word is predicted wrong |
| ArmStepCorrect.PredictionIsTheNextStep | baremetal/gdbstub/step.c:132-229 | From every register and memory state with the T bit clear, at a word address and outside the unconditional space: a reference step that reaches an ARM address is predicted exactly unless it is an executed block load whose word is rotated to another target |
| ArmStepCorrect.UndecidableExactlyWhen | baremetal/gdbstub/step.c:139-169 | The predictor gives up exactly with the T bit set, in the unconditional space, and for an executed BX or BLX to an odd address |
| ArmStepCorrect.PredictionIsAligned | baremetal/gdbstub/step.c:132-229 | A predicted address is a word address |
| ArmDefined.Branches | baremetal/gdbstub/step.c:155-161 | The reference defines every B and BL |
| ArmDefined.Exchanges | baremetal/gdbstub/step.c:163-171 | And BX and BLX, to ARM and to Thumb |
| ArmDefined.Loads | baremetal/gdbstub/step.c:173-194 | And every LDR into pc from an aligned address, but LDRT and one that changes its base pc |
| ArmDefined.BlockLoads | baremetal/gdbstub/step.c:196-211 | And every LDM with pc, with the exception return by the saved T bit |
| ArmDefined.DataToPc | baremetal/gdbstub/step.c:213-225 | And data processing into pc, but with a register-specified shift |
| ArmDefined.OrdinaryData | baremetal/gdbstub/step.c:227-228 | Other data processing goes on behind itself |
| ArmDefined.OrdinaryTransfers | baremetal/gdbstub/step.c:227-228 | So do stores and loads into other registers |
| ArmDefined.Multiplies | baremetal/gdbstub/step.c:227-228 | So do multiplications and swaps |
| ArmDefined.Steps | baremetal/gdbstub/step.c:150-153 | An instruction whose condition fails is skipped |
| HookBranch.HookReached | baremetal/cfw/components/diag.c:85-86 | The branch word decodes at the entry to exactly the hook if and only if the hook is a multiple of 4 within 32 MB of entry + 8 |
| HookBranch.OffsetOfDistance | baremetal/cfw/components/diag.c:85-86 | Decoding undoes encoding for every distance in range |
| Breakpoints.Stub.constructor | baremetal/gdbstub/rsp.c:41-52 | A stub without breakpoints is an overlay of nothing |
| Breakpoints.Stub.BpLookup | baremetal/gdbstub/rsp.c:503-511 | The first active slot with the address |
| Breakpoints.Stub.BpSet | baremetal/gdbstub/rsp.c:513-529 | The table and memory change as specified |
| Breakpoints.Stub.BpClear | baremetal/gdbstub/rsp.c:531-543 | The table and memory change as specified |
| Breakpoints.Stub.Step | baremetal/gdbstub/rsp.c:703-735 | Predict, then plant unless a breakpoint is there, and run |
| Breakpoints.Stub.Resume | baremetal/gdbstub/rsp.c:686-700 | Runs from here or from the given address |
| Breakpoints.Stub.Trap | baremetal/gdbstub/rsp.c:313-324 | The step breakpoint goes, and the signal is chosen |
| Breakpoints.SetKeepsOverlay | baremetal/gdbstub/rsp.c:513-529 | Setting keeps the overlay, lists the address, and fails exactly when the table is full |
| Breakpoints.ClearKeepsOverlay | baremetal/gdbstub/rsp.c:531-543 | Clearing keeps the overlay and takes exactly that address off the list |
| Breakpoints.StepKeepsOverlay | baremetal/gdbstub/rsp.c:703-735 | A step keeps the overlay, and runs only with its target planted |
| Breakpoints.TrapKeepsOverlay | baremetal/gdbstub/rsp.c:313-324 | A trap keeps the overlay, leaves no step breakpoint while serving, and reports a stop at any planted word as a trap |
| Breakpoints.EveryRunIsTransparent | baremetal/gdbstub/rsp.c:503-543 | Over every run of set, clear, step, continue, traps, register changes, and stores by the program or the debugger, active addresses are distinct and memory behind the planted words is what the stores alone would have made |
| Breakpoints.RemovingAllRestores | baremetal/gdbstub/rsp.c:531-543 | Clearing all breakpoints in any order gives back exactly the program's memory |
| SingleStep.SameWordsSamePrediction | baremetal/gdbstub/step.c:132-229 | The prediction depends on the instruction and at most one loaded word |
| SingleStep.PredictedExactlyWhen | baremetal/gdbstub/step.c:132-229 | The prediction through the overlay names the address that a reference step on the program's own memory reaches, exactly by what is behind a breakpoint: the instruction, the loaded word, or neither |
| SingleStep.StepLands | baremetal/gdbstub/rsp.c:703-735 | That address is planted when the program runs exactly if the prediction is right or it has a breakpoint anyway; a right prediction of a branch to itself stops |
| SingleStep.PredictedFromBreakpoint | baremetal/gdbstub/rsp.c:707-728 | From a planted address the prediction is pc + 4 |
| SingleStep.StepFromBreakpoint | baremetal/gdbstub/rsp.c:707-728 | It is right exactly if the hidden instruction is of no class that sets pc, is not executed, or sets pc to the next address |
| SingleStep.BranchBehindBreakpoint | baremetal/gdbstub/rsp.c:707-728 | Every executed hidden branch is predicted wrong, except one with the offset -4 |
| SingleStep.TargetBehindBreakpoint | baremetal/gdbstub/rsp.c:707-728 | A target loaded from a planted word is predicted from the breakpoint's word |
| SingleStep.LiteralBehindBreakpoint | baremetal/gdbstub/rsp.c:37-39 | At a word address, the target predicted from a planted word is always 0xE7FFDEFC |
| SingleStep.CoreTrapsInPlace | baremetal/gdbstub/rsp.c:37-39 | The core itself takes the breakpoint again from a planted address |
| SingleStep.CoreLands | baremetal/gdbstub/rsp.c:703-735 | With nothing that it reads planted, the core reaches the step breakpoint on memory as it is |
| SingleStep.CoreLoadsBreakpoint | baremetal/gdbstub/rsp.c:703-735 | If a breakpoint hides the loaded word, the core can reach only one ARM address, by an exception return |
| RspFraming.ChunkSplits | baremetal/gdbstub/rsp.c:901-922 | Two chunks in a row against their concatenation, with and without a command that leaves |
| RspFraming.EverySplitIsTheSame | baremetal/gdbstub/rsp.c:901-922 | While commands return, every split of a stream gives the same state, dispatches and naks |
| RspFraming.AlikeIsKept | baremetal/gdbstub/rsp.c:843-899 | States that show alike go on alike, byte by byte |
| RspFraming.CutShowsExactlyWhen | baremetal/gdbstub/rsp.c:686-700 | A cut shows exactly when a command before it leaves and a packet starts after it |
| RspFraming.FirstPacket | baremetal/gdbstub/rsp.c:843-899 | Every stream divides into junk, a body, and a dropped, unfinished or whole packet |
| RspFraming.LogIsPackets | baremetal/gdbstub/rsp.c:843-922 | The byte-wise automaton logs exactly the packets of the stream as a whole, oversized ones dropped and searched on |
| RspFraming.Framed | baremetal/gdbstub/rsp.c:862-872 | A frame is judged by itself, wherever it stands |
| RspFraming.DispatchesAreFrames | baremetal/gdbstub/rsp.c:862-866 | A dispatched command is the bytes between a `$` and the next `#`, at most CMD_SIZE, with the right two digits |
| RspFraming.FrameIs | baremetal/gdbstub/rsp.c:862-866 | A frame, character by character, with the two digits worth the sum modulo 256 |
| RspFraming.DigitsAre | baremetal/gdbstub/rsp.c:82-96 | The hex digits in both cases are worth their places in the alphabet, and nothing else is a digit |
| RspMemory.StoredNext | baremetal/gdbstub/rsp.c:638-640 | One more byte of a block goes to the next address, around the end of the address space |
| RspMemory.LoadedStored | baremetal/gdbstub/rsp.c:563-609 | What is stored is what is loaded |
| RspMemory.StoredLoaded | baremetal/gdbstub/rsp.c:563-609 | Storing what was loaded changes nothing |
| RspMemory.HexRoundTrip | baremetal/gdbstub/rsp.c:98-144 | A printed number is parsed back, all 32 bits |
| RspMemory.HexPairsRoundTrip | baremetal/gdbstub/rsp.c:125-129 | Bytes as digit pairs are read back, and hold no framing characters |
| RspMemory.UnescapeEscape | baremetal/gdbstub/rsp.c:634-637 | Escaped data is read back, and holds no `#` |
| RspMemory.EscapedByte | baremetal/gdbstub/rsp.c:634-637 | An escaped byte stands for the one that differs in bit 5 only |
| RspMemory.CharactersAre | baremetal/gdbstub/rsp.c:617-640 | The protocol's characters |
| RspMemory.ArgsRoundTrip | baremetal/gdbstub/rsp.c:615-623 | Address, length and payload are found in what a debugger prints |
| RspMemory.WritesStore | baremetal/gdbstub/rsp.c:592-644 | `M` and `X` store exactly the data at the address and change nothing else |
| RspMemory.ReadLoads | baremetal/gdbstub/rsp.c:563-590 | `m` answers with the bytes in memory, as many as fit |
| RspMemory.ReadAndWriteAreInverse | baremetal/gdbstub/rsp.c:563-644 | A read written back changes nothing, and a write is seen by a read |
| RspStub.Stub.constructor | baremetal/gdbstub/rsp.c:22-52 | Nothing received, nothing sent, in front of any memory |
| RspStub.AnyStepsAreSensible | baremetal/gdbstub/rsp.c:703-735 | Whatever decides whether a step goes, there is a stub for it |
| RspStub.Stub.OutCh | baremetal/gdbstub/rsp.c:113-117 | Appends a character, or nothing when the buffer is full |
| RspStub.Stub.OutPair | baremetal/gdbstub/rsp.c:146-156 | One aligned word store is four digits |
| RspStub.Stub.OutHex | baremetal/gdbstub/rsp.c:131-144 | Hex without leading zeros |
| RspStub.Stub.OutBegin | baremetal/gdbstub/rsp.c:167-181 | An acknowledged reply starts at offset 2 |
| RspStub.Stub.OutFinish | baremetal/gdbstub/rsp.c:183-194 | The reply goes out as a frame with its sum |
| RspStub.Stub.ParseHex | baremetal/gdbstub/rsp.c:98-111 | The longest run of digits, modulo 2^32 |
| RspStub.Stub.ParseArgs | baremetal/gdbstub/rsp.c:594-602 | Address, length and payload, separators optional |
| RspStub.Stub.PokeWord | baremetal/gdbstub/rsp.c:628-630 | An aligned word store is four byte stores |
| RspStub.Stub.WriteMemoryBin | baremetal/gdbstub/rsp.c:613-644 | Words and bytes together store the unescaped payload, cut at the length, for every alignment and place of escapes |
| RspStub.Stub.WriteMemoryHex | baremetal/gdbstub/rsp.c:592-609 | Stores the digit pairs, bad digits included, cut at the length |
| RspStub.Stub.ReadMemory | baremetal/gdbstub/rsp.c:563-590 | The packed-digit path gives the digits of every byte, and the reply fits its buffer |
| RspStub.Stub.ExecuteMemory | baremetal/gdbstub/rsp.c:795-840 | Memory and reply after `m`, `M` and `X` |
| RspStub.Stub.ExecuteFixed | baremetal/gdbstub/rsp.c:757-841 | The fixed replies: empty for what is not supported, `OK`, and the list of `vCont` actions |
| RspStub.Stub.Prefix | baremetal/gdbstub/rsp.c:261-270 | Whether the command starts with a text |
| RspStub.Stub.Resumes | baremetal/gdbstub/rsp.c:757-774 | Which commands continue for certain, and which step |
| RspStub.Stub.Execute | baremetal/gdbstub/rsp.c:737-841 | A command is logged, memory follows the log, memory commands and fixed ones are answered, and a resuming command sends only `+` |
| RspStub.Stub.FeedByte | baremetal/gdbstub/rsp.c:844-873 | One byte outside a body |
| RspStub.Stub.FeedBody | baremetal/gdbstub/rsp.c:876-899 | Copies the run up to `#`, or to the first byte that does not fit |
| RspStub.Stub.Feed | baremetal/gdbstub/rsp.c:901-922 | One chunk is the byte-wise automaton, the zero-progress overflow step included; it ends early exactly when a command leaves |
| RspStub.PacketArrives | baremetal/gdbstub/rsp.c:862-922 | However a packet is cut, its command is executed once |
| RspStub.DataArrives | baremetal/gdbstub/rsp.c:613-644 | Any data in an `X` packet that fits, in any chunks: memory is the old memory with exactly the data at the address |
| RspStub.RepliesAreFrames | baremetal/gdbstub/rsp.c:183-194 | Reading a reply with the same rules gives back its body |
| UsbBulk.LoadLeIsBytes | baremetal/gdbstub/musb.c:550-566 | A word load and a byte-wise load give the same bytes, and none past the buffer |
| UsbBulk.PacketsCarryTheData | baremetal/gdbstub/musb.c:568-608 | The packets hold exactly the data, each of 1 to maxp bytes, and the last is shorter than maxp |
| UsbBulk.PacketsAreFull | baremetal/gdbstub/musb.c:571-577 | All packets are full but the last, which is cut in two if it would be full too |
| UsbBulk.Endpoint.Fill | baremetal/gdbstub/musb.c:585-598 | The window holds the packet, and the FIFO pointer moved by its length |
| UsbBulk.Endpoint.BulkSend | baremetal/gdbstub/musb.c:568-608 | Sends the packets in order, up to the first wait that runs out |
| UsbBulk.LiveHostGetsEverything | baremetal/gdbstub/musb.c:537-548 | All packets go out exactly when every wait ends well; else a prefix |
| UsbControl.PacketsAreTheReply | baremetal/gdbstub/musb.c:237-301 | The packets hold the reply, all full but the last, which alone has DataEnd |
| UsbControl.Ep0.Fill | baremetal/gdbstub/musb.c:303-317 | Stages no more than the host asked for |
| UsbControl.Ep0.SendChunk | baremetal/gdbstub/musb.c:237-301 | Sends the next packet, with no read past the buffer |
| UsbControl.Ep0.Transfer | baremetal/gdbstub/musb.c:326-330 | A whole control transfer sends exactly the packets of the reply |
| PowerHold.PutWords | baremetal/cfw/components/power_hold.c:73-77 | Overwrites exactly the words of the table |
| PowerHold.Component.Hold1582Callback | baremetal/cfw/components/power_hold.c:81-87 | The first match is rewritten and found; a second one panics with nothing written |
| PowerHold.Component.Hold188Callback | baremetal/cfw/components/power_hold.c:89-97 | The same for v1.88 |
| PowerHold.Component.Finish | baremetal/cfw/components/power_hold.c:109-113 | Panics exactly when neither was found |
| PowerHoldCorrect.RunsOps | baremetal/cfw/components/power_hold.c:8-71 | The words, decoded by the reference rules, do what their comments say |
| PowerHoldCorrect.Hold188ChangesOnlyThePin | baremetal/cfw/components/power_hold.c:59-71 | Same stores in the same order, other values only at 0x94 and 0x98 |
| PowerHoldCorrect.Hold188SameFinalStores | baremetal/cfw/components/power_hold.c:59-71 | Every other address ends with the value that the firmware stores |
| PowerHoldCorrect.Hold188KeepsThePin | baremetal/cfw/components/power_hold.c:3-5 | The pin ends as an output at 1, and is held throughout exactly when the output bit starts at 1 |
| PowerHoldCorrect.Hold1582Stores | baremetal/cfw/components/power_hold.c:19-26 | The three stores of both versions: the new output has bit 9, and the new direction is its inverse |
| PowerHoldCorrect.Hold1582SameFinalStores | baremetal/cfw/components/power_hold.c:19-26 | Every address but the pin's two ends with the value that the firmware stores |
| PowerHoldCorrect.Hold1582KeepsOtherPinsExactlyWhen | baremetal/cfw/components/power_hold.c:19-26 | The directions of the other pins end as the firmware has them exactly when r2 is 0x10000 apart from bit 9 |
| PowerHoldCorrect.Hold1582TurnsAnotherPin | baremetal/cfw/components/power_hold.c:19-26 | With r2 = 0 it turns pin 16 from an output into an input |
| PowerHoldCorrect.Hold1582KeepsThePin | baremetal/cfw/components/power_hold.c:3-5 | Output before direction: held throughout exactly when held at the start |
| Patchfinder.MaskMatch | baremetal/lib/pf.c:49-64 | Short patterns are compared with the window, long ones with the image |
| Patchfinder.RunPatch | baremetal/lib/pf.c:66-75 | One patch at one index, its call recorded |
| Patchfinder.SlideWindow | baremetal/lib/pf.c:136-138 | The window moves by one word |
| Patchfinder.ApplyPatches | baremetal/lib/pf.c:120-152 | The pass equals the specified scan; it returns exactly without a panic and with no required patch missing |
| PatchfinderCorrect.WindowShowsTheOriginal | baremetal/lib/pf.c:118-139 | Short patterns are seen exactly where they stand in the original image, while callbacks change the image |
| PatchfinderCorrect.CalledWhereItStands | baremetal/lib/pf.c:120-140 | A short patch is called at exactly its original places, once each and in order |
| PatchfinderCorrect.RequiredFiredExactlyOnce | baremetal/cfw/core/core.c:86-91 | After a return, a required patch that fires once fired exactly once, for any callbacks and lengths |
| PatchfinderCorrect.PassReturnsExactlyWhen | baremetal/lib/pf.c:142-152 | The pass returns exactly when every pattern stands at most once in the original image and the required ones do |
| PatchfinderCorrect.HopelessPatterns | baremetal/lib/pf.c:83-87 | A pattern word is refused exactly if no image word can match it |
| PowerHoldPatch.FitsTheFinder | baremetal/cfw/components/power_hold.c:81-87 | The v1.58.2 callback writes near its match, fires once, and panics at a second match |
| PowerHoldPatch.ExactPattern | baremetal/cfw/components/power_hold.c:16-18 | A pattern with full masks matches exactly where its words stand |
| PowerHoldPatch.PassRewritesTheOnePlace | baremetal/cfw/components/power_hold.c:81-87 | With this patch alone, the pass returns exactly when the firmware's words stand at most once, and rewrites that place and nothing else |
| Ecc.Locate | baremetal/lib/ecc.c:6-32 | Byte and mask of the named bit, or failure exactly for no single line or a negative offset |
| Ecc.EveryOffsetHasOneName | baremetal/lib/ecc.c:3-32 | Every bit offset is named by exactly one register value |
| Ecc.EveryNameHasOneOffset | baremetal/lib/ecc.c:3-32 | Every one-hot value names an offset from -900 to 4219, and encoding gives the value back |
| Ecc.Apply | baremetal/lib/ecc.c:34-59 | Inverts exactly the reported bits up to the first bad position, and reports success exactly as specified |
| Ecc.FlipInvertsOneBit | baremetal/lib/ecc.c:22-31 | A correction inverts exactly the bit at its offset, the most significant bit of each byte first |
| Ecc.FlipsInvertReported | baremetal/lib/ecc.c:39-56 | Corrections invert exactly the bits that are reported an odd number of times |
| Ecc.FlipsTwice | baremetal/lib/ecc.c:48-51 | Inverting the same bits twice restores them |
| Ecc.FlipsInAnyOrder | baremetal/lib/ecc.c:39-56 | The order of the reports does not matter |
| Ecc.CorrectionsRestore | baremetal/lib/ecc.c:34-59 | When the reports are the inverted bits, data and tag are restored |
| Ecc.RestoresExactlyWhen | baremetal/lib/ecc.c:34-59 | Corrections give the stored chunk exactly when the wrong bits are the reported ones |
| Ecc.DataIgnoresTag | baremetal/lib/nand.c:213-218 | Corrections of the data do not depend on what stands in for the tag |
| Nand.CorrectedChunk | baremetal/lib/nand.c:212-222 | A correctable chunk becomes what was written |
| Nand.PerfectIsHonest | baremetal/lib/nand.c:167-232 | A chip without errors is one of those that the results are about |
| Nand.ChunkIsBlank | baremetal/lib/nand.c:156-164 | All words of the chunk are ones |
| Nand.ReadChunk | baremetal/lib/nand.c:179-230 | One chunk: its code, and the stored data on success |
| Nand.ReadPageOnce | baremetal/lib/nand.c:167-232 | One try: the page's content, or the code of the first chunk that fails |
| Nand.ReadPage | baremetal/lib/nand.c:234-247 | Succeeds exactly if one of four tries does, with the page's content |
| Nand.LoadBlock | baremetal/lib/nand.c:319-331 | The pages of one good block, in order |
| Nand.UnreadableIs | baremetal/lib/nand.c:234-247 | A page that cannot be read fails four times, and the last code is reported |
| Nand.LoadImage | baremetal/lib/nand.c:296-334 | 0 means exactly the concatenated pages of good blocks, bit errors corrected, with at most 16 bad blocks skipped; otherwise a page fails in all tries with this code, or there are 17 |
| StorageRead.RestOfRun | baremetal/aipc-boot/storage.c:143-157 | A run cut in the middle is the run of what follows |
| StorageRead.RunAt | baremetal/aipc-boot/storage.c:143-157 | The link map gives the sector of the cluster chain and the rest of its run |
| StorageRead.ClustersTile | baremetal/aipc-boot/storage.c:151 | Cluster 2 is at the start of the data region, and the sectors follow each other without a gap |
| StorageRead.RunIsContiguous | baremetal/aipc-boot/storage.c:143-157 | The sectors of a run are the file's next sectors |
| StorageRead.SectorsAreTheFile | baremetal/aipc-boot/storage.c:176-205 | Card sectors read in a run are the bytes of the file |
| StorageRead.OpenFile.ReadSlow | baremetal/aipc-boot/storage.c:132-141 | The plain read |
| StorageRead.OpenFile.ReadRun | baremetal/aipc-boot/storage.c:176-205 | One multiple-block transfer, as long as run, request and card allow, or none with the position unchanged |
| StorageRead.OpenFile.ReadRuns | baremetal/aipc-boot/storage.c:176-205 | All of them, until less than a sector remains or one does not work |
| StorageRead.OpenFile.ReadTail | baremetal/aipc-boot/storage.c:176-209 | The part from a sector boundary: 0 means the file's bytes up to the end of the file |
| StorageRead.OpenFile.Read | baremetal/aipc-boot/storage.c:159-209 | 0 means exactly the slice of the file, up to its end, for every offset, alignment, fragmentation and outcome of the transfers; past the end 0 is returned only if the fast path is open and the crossing goes unnoticed, and then always if no call fails |
| StorageRead.ReadPastTheEnd | baremetal/aipc-boot/storage.c:176-209 | 1024 bytes read from a file of 700 return 0 with 700 delivered |
| StorageSave.EveryStateIsSafe | baremetal/aipc-boot/storage.c:236-268 | In every state of a save that began with the file, a load gives the whole old or the whole new content |
| StorageSave.Save | baremetal/aipc-boot/storage.c:246-268 | 0 exactly when every step goes well, and then the file holds the new content; under every failure all states passed are safe, and a write that fails leaves no part |
| StorageSave.TruncationLosesTheOnlyCopy | baremetal/aipc-boot/storage.c:256-258 | Without the file, the first step of a save destroys the only copy |
| StorageSave.SaveNeedsThePath | baremetal/aipc-boot/storage.c:246-268 | A save can be interrupted anywhere if and only if the file is there at the start |
| FatVolume.RegionsFollow | baremetal/lib/fat.c:155-200 | In a supported boot sector the FATs follow the reserved sectors, then a FAT16 root directory in just enough sectors for its entries, then the data |
| FatVolume.ClustersTile | baremetal/lib/fat.c:100 | Cluster 2 is at the start of the data region, and clusters and sectors follow each other without a gap |
| FatVolume.ZeroExactlyWhenLoadable | baremetal/lib/fat.c:191-231 | The expected code is 0 exactly for the files that can be loaded |
| FatVolume.Geometry.BelowMarkerExactlyWhen | baremetal/lib/fat.c:44-57 | No live cluster has its entry in the sector with the marker's number, exactly when the FAT stays below it |
| FatVolume.OneFirstMatch | baremetal/lib/fat.c:68-90 | A directory sector has at most one first match |
| FatLoad.ScanDirSector | baremetal/lib/fat.c:68-90 | First match, end of directory, or neither |
| FatLoad.FindPartition | baremetal/lib/fat.c:138-148 | The first of the four partitions with a FAT type |
| FatLoad.ReadBootSector | baremetal/lib/fat.c:155-190 | The geometry of a supported boot sector, and of no other |
| FatLoad.Loader.FatEntry | baremetal/lib/fat.c:44-57 | The cached entry is the entry on the card, for FAT16 and FAT32, unless the sector has the number of the empty cache; then it comes from the buffer as it is |
| FatLoad.EntryOfMarkerSector | baremetal/lib/fat.c:44-57 | For a fresh loader that entry is 0, whatever the card says |
| FatLoad.Loader.FindInChain | baremetal/lib/fat.c:104-125 | Searches a root chain as specified and stops on cyclic chains |
| FatLoad.Loader.FindInRoot | baremetal/lib/fat.c:92-126 | Finds the first entry with the name, before the end of the directory |
| FatLoad.Loader.LoadSector | baremetal/lib/fat.c:208-224 | One sector, the last one cut through the bounce buffer |
| FatLoad.Loader.LoadChain | baremetal/lib/fat.c:202-231 | Follows the chain, cyclic or not, until the file is complete |
| FatLoad.Loader.LoadFile | baremetal/lib/fat.c:128-231 | 0 means exactly the content of the cluster chain, with nothing written past the size; every other code tells which read failed or what the card lacks |
| Ini.TrimBounds | baremetal/aipc-boot/ini.c:5-13 | What is left without blanks around it |
| Ini.TrimIs | baremetal/aipc-boot/ini.c:5-13 | Spaces and tabs go from the front, carriage returns too from the end, and nothing else |
| Ini.LineIsExactly | baremetal/aipc-boot/ini.c:28-50 | A line is ignored, a header, a key or invalid by its first character and the one that it needs |
| Ini.CutLine | baremetal/aipc-boot/ini.c:28-50 | One line in place: pointers to the strings that the line means, and writes only within the line |
| Ini.IniParse | baremetal/aipc-boot/ini.c:15-58 | The in-place parser makes the calls and gives the result of the pure line parser of the original text |
| Ini.FirstProblem | baremetal/aipc-boot/ini.c:15-58 | 0, or the number of the first invalid line, or the result of the last call; all lines before are good |
| Ini.HandlersReturnedZero | baremetal/aipc-boot/ini.c:50-53 | Only the last handler call can have returned something else than 0 |
| Settings.Table.FindKey | baremetal/aipc-boot/settings.c:25-31 | The first key with the names |
| Settings.Table.RemoveAt | baremetal/aipc-boot/settings.c:45-49 | The move closes the gap |
| Settings.Table.SetKey | baremetal/aipc-boot/settings.c:41-60 | Sets, adds, drops when full, or removes |
| Settings.GetAfterSet | baremetal/aipc-boot/settings.c:33-60 | A key that was set is found exactly when its names fit their buffers |
| Settings.OthersAfterSet | baremetal/aipc-boot/settings.c:41-60 | Every other key answers as before, except exactly the one that a new, too long name is cut to and that was not there |
| Settings.GetAfterRemove | baremetal/aipc-boot/settings.c:45-51 | A removed key is gone |
| Settings.SetKeepsTable | baremetal/aipc-boot/settings.c:41-60 | Every buffer fits, and there are no duplicates exactly unless a new, too long name is cut to one that is there |
| SettingsFile.RegroupIsDistinct | baremetal/aipc-boot/settings.c:184-201 | Grouping makes no duplicates |
| SettingsFile.RegroupTwice | baremetal/aipc-boot/settings.c:184-201 | Grouping twice is grouping once, and prints the same bytes |
| SettingsRoundTrip.PrintedParses | baremetal/aipc-boot/settings.c:180-203 | A well-formed table prints to a text that parses without an error |
| SettingsRoundTrip.BuiltAsTheyAre | baremetal/aipc-boot/settings.c:159-166 | Distinct keys that fit are loaded as they are |
| SettingsRoundTrip.LoadAfterSave | baremetal/aipc-boot/settings.c:168-203 | Load after save is the stable regrouping, every key answers alike, and a second save writes the same bytes |
| SettingsRoundTrip.SaveLosesNameless | baremetal/aipc-boot/settings.c:192-194 | Otherwise a key without a section is lost |
| SettingsRoundTrip.SettingsSurviveExactlyWhen | baremetal/aipc-boot/settings.c:168-203 | All keys survive if and only if those without a section come first |
| SettingsRoundTrip.PrintedHasNoNul | baremetal/aipc-boot/settings.c:175-177 | The parser reads all of a saved text |
| SettingsKept.LineIsGood | baremetal/aipc-boot/ini.c:28-50 | What the parser finds in a line is something that a line can carry |
| SettingsKept.LoadedIsGood | baremetal/aipc-boot/settings.c:159-178 | A text whose keys fit loads to a well-formed table without duplicates |
| SettingsKept.LoadedNamelessFirst | baremetal/aipc-boot/settings.c:159-178 | Without an empty header, its keys without a section come first |
| SettingsKept.FilesSurvive | baremetal/aipc-boot/settings.c:168-203 | After a load, a save and a load, every key of such a text has its value |
| SettingsKept.ValueReadsBackExactlyWhen | baremetal/aipc-boot/ini.c:5-13 | A value is read back from its line exactly when it has no blanks around it |
| SettingsStore.Append | baremetal/aipc-boot/settings.c:193-198 | A bounded print that returns the whole length |
| SettingsStore.NextGroup | baremetal/aipc-boot/settings.c:184-199 | A key prints its whole group exactly if its section is new |
| SettingsStore.PutSection | baremetal/aipc-boot/settings.c:192-200 | One section; the length is below the buffer's size whenever it is subtracted |
| SettingsStore.Save | baremetal/aipc-boot/settings.c:180-203 | Hands the storage exactly the printed table, or reports that it does not fit, exactly when it does not |
| SettingsStore.Load | baremetal/aipc-boot/settings.c:159-178 | The table after each key of the text went through `set`, while the parser runs |
| KeyRing.Ring.Push | baremetal/lib/ch374.c:69-78 | A full ring drops its oldest event |
| KeyRing.Ring.Pop | baremetal/lib/ch374.c:476-487 | The oldest event comes out, as it went in |
| Keyboard.Driver.ProcessReport | baremetal/lib/ch374.c:369-400 | Queues what changed: modifiers, releases, presses; the newest 31 stay, in order |
| Keyboard.Driver.Enumerate | baremetal/lib/ch374.c:321-356 | Forgets the slots and queues nothing |
| Keyboard.IsSet | baremetal/lib/ch374.c:374-382 | Whether a modifier's bit is set |
| Keyboard.Driver.Poll | baremetal/lib/ch374.c:442-474 | Up to four reports in order, or a new enumeration; the newest 31 events stay |
| HeldKeys.ReportReplayed | baremetal/lib/ch374.c:369-400 | Replaying a report's events gives its held keys, exactly without a conflict |
| HeldKeys.RunReplayed | baremetal/lib/ch374.c:369-400 | Replaying a run reproduces the keys that the last report holds |
| HeldKeys.EnumerationForgets | baremetal/lib/ch374.c:321-356 | After an enumeration the listener is right exactly when no slot counted |
| DoomKeys.Game.Emit | baremetal/doom/src/ch374_keyboard.c:105-122 | Counts holders, and queues the first press and the last release |
| DoomKeys.Game.Drain | baremetal/doom/src/ch374_keyboard.c:124-131 | Takes every event of the driver, in order |
| DoomKeys.Game.Poll | baremetal/doom/src/ch374_keyboard.c:144-148 | Polls the driver and takes all that it kept |
| DoomKeys.Game.GetEvent | baremetal/doom/src/ch374_keyboard.c:150-164 | The oldest waiting event, after a poll if none waited |
| DoomKeys.KeysAlternate | baremetal/doom/src/ch374_keyboard.c:105-122 | For any input, presses and releases of a key alternate |
| DoomKeys.CountsHolders | baremetal/doom/src/ch374_keyboard.c:105-122 | A key counts exactly the held usages that map to it |
| DoomKeys.RunsAreClean | baremetal/lib/ch374.c:369-400 | A run of proper reports presses only what is up and releases only what is down |
| DoomKeys.KeyIsDownExactlyWhenHeld | baremetal/doom/src/ch374_keyboard.c:97-131 | Over the events of every run of proper reports, a game key is down exactly when a usage of it is held |
| DoomRuns.PollLosesNothingExactlyWhen | baremetal/lib/ch374.c:457-465 | A poll loses nothing exactly when its reports queue at most 31 events; one report never loses any |
| DoomRuns.TwoReportsCanLose | baremetal/lib/ch374.c:457-465 | Two reports can queue 34 events, of which 31 stay |
| DoomRuns.NothingIsDropped | baremetal/doom/src/ch374_keyboard.c:150-164 | Over every run of calls and whatever the keyboard does, the game's ring drops no event |
| DoomRuns.GameSeesTurns | baremetal/doom/src/ch374_keyboard.c:105-122 | So the game sees presses and releases of each key alternate, even where the driver dropped events |
| DoomRuns.GameKeysAreTheHeldKeys | baremetal/doom/src/ch374_keyboard.c:97-164 | Over every run of calls, enumerations included, whose polls lose nothing: with no event waiting, a key is down exactly when a usage of it is held or was held in a slot at an enumeration |

## Left out

- RspStub.Stub.Execute: says nothing about the replies to `?`, `g`, `G`, `q`, `Z0` and `z0`, or to a step that does not resume. Whether `s` and `vCont;s` resume is a parameter of the whole history, because it depends on registers and on the program; `Breakpoints` has the steps and the breakpoint commands.
- RspStub.DataArrives: target memory is apart from the stub's own buffers, and commands that write over planted breakpoint words are excluded by keeping the two models apart.
- Breakpoints.EveryRunIsTransparent: addresses name aligned words, and the program does not store over a planted word. What the program loads while it runs is not restricted.
- ArmStepCorrect.PredictionIsTheNextStep: defined ARM encodings only; exceptions and UNPREDICTABLE cases, among them register-specified shifts with pc and byte loads into pc, promise nothing.
- PatchfinderCorrect.CalledWhereItStands: needs callbacks that write within eight words of their match. The v1.88 power-hold callback writes up to twenty words away, so its exact places are not claimed for the set that holds both power-hold patterns.
- Nand.LoadImage: page numbers do not wrap at 32 bits; the chip reports truthfully which bits are wrong.
- DoomRuns.GameKeysAreTheHeldKeys: the map from usages to game keys is a parameter, because the header with the key codes is not part of the repository. A key needs room in its count of 255 for its usages and those stuck on it.
- The `g` and `G` packets, `qSupported`, `qXfer`, the monitor commands and the command trace: text and field unpacking.
- The interrupt-literal patch of the diagnostics component and the loop over components: one word replaced, one list walked.
- The probe for the number of pages per block, retry and correction counters, and log output.
- Number parsing of settings values and the named settings on top of `get` and `set`.
- Registers of the USB, SD, NAND, SPI and display controllers, timers, caches and the jump into programs.
- FatFs itself: the calls used are contracts.
- The user interface, fonts, the console and one-shot experiments.
