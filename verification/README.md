# Bitstream editor: verified model

A Dafny 4.11 model of the programs that edit FPGA configuration images, on the chip and on the
host, with proofs of what they promise. `dafny verify dfyconfig.toml` checks all of it.

| files | what they model |
|---|---|
| `Words`, `Crc`, `CrcNumbers` | machine words as bit sequences and as numbers; the bit-serial CRC at any width, and the same on plain numbers |
| `Frames`, `Cells` | the image, its per-frame CRC-16, full and dirty repair, the dirty bitmap; edits as XOR of cell sets |
| `LutCodec`, `LutNumbers`, `LutCells`, `Geometry` | from a logic element (x, y, n) to its sixteen cells; writing and reading masks; which elements can touch |
| `Editor`, `EditsBin`, `EditsNumbers`, `Generate` | edit lists, the edits.bin file as records and byte by byte, the on-chip gate, and mode 'g' as a whole |
| `Canon`, `CanonGate` | mining the canon table, the two ways of rebuilding a gold image, the gate and its controls, the transfer check |
| `Xmodem`, `DtbPatch`, `Fnv` | the Linux loader's receiver and device tree patch; the model-file trust gate |
| `RemoteUpdate` | the 29-bit remote-update shift machine under arbitrary bus traffic |

The main results, each for all inputs:

- Mode 'g' equals a reference edit that repairs every frame, reads back right and touches nothing
  else; applying the list again restores the base (`Generate.EndToEnd`).
- Fast repair refines slow repair after any edits (`LutCells.StrokesFastRefinesSlow`).
- The canon gate passes exactly the mined table (`Canon.GateDecidesMined`).
- Both CRCs detect every burst up to their width (`Crc.BurstDetected`); for edits.bin this reaches
  through to the gate (`EditsBin.RecordBurstRejected`).
- The XMODEM receiver is sound for every stream, and every stream is a line of frames, noise and
  silences that it takes for what it is, answering each as it should (`Xmodem.ReceiveSound`,
  `Xmodem.TransferExactly`).
- Elements share no cell exactly when twelve sums of table entries are far enough apart, as the
  recorded ones are (`Geometry.GeometryExact`, `Geometry.RecordedGeometry`).
- The shift machine runs each command once and delivers what the host wrote last
  (`RemoteUpdate.HostShiftsIn`, `RemoteUpdate.HostReadsBack`).

## How to read it

Code that works in place is a method over arrays or a class, tied by its postcondition to a
specification function; the properties are lemmas about that function. Bytes that are XOR-ed or
shifted are `Byte`, a word of eight bits, least significant first; bytes that are only compared and
added are `Octet`. 32-bit wrap-around is written out as `% U32`.

Reference lemmas say in plain numbers, constants included, what the specification functions compute:
`LutNumbers.RowNumbers` and `LutCells.MintermStep` for the cells, `Frames.RepairInNumbers` for the frame
CRCs, `EditsNumbers.ParseInNumbers` for the file.

What the model takes as parameters: the generated tables (column and slot bases, permutations), the
comparison of an image's SHA-256 with the baked-in hash, the memory around the image, the bytes and
timeouts on the serial line, and `regout`. `Geometry.GeometryOk` collects what the proofs need to
know about the tables: entries are permutations, windows lie on data bytes of frames, and the sums
of column and slot bases keep rows of one bit position apart. Disjointness inside one column and slot
is proved from the code alone.

## Where code and comments disagree

The model follows the code.

- Patch 0004, lines 93 and 956, gives 217 bytes for the dirty bitmap; the size is (1727 + 7) / 8 = 216.
- Patch 0003, line 479, gives -46 for `cram_n_delta(30)`; the code gives -64.
- Patch 0003, line 234, says that `lc_init` treats a table entry 0xFF as invalid; `lc_init` does not
  test for it. What it then leaves in `sigma` depends on what the structure held before
  (`LutCodec.SigmaDetermined`, `LutCodec.SentinelUndetermined`). The edit results are about tables of
  permutations, which the generator enforces for every valid LAB.
- Patch 0005, lines 2437 to 2439, says that SHIFT_IN pulses `rconfig` afterwards. The triggers are
  cleared one clock after they are set, long before S_LOAD_POST tests them, so it never does
  (`RemoteUpdate.ShiftInDelivers`); docs/plan.md, line 1128, records this and a later fix.
- Patch 0005, lines 2452 and 2453, puts the state in bits 0 to 4 of STATUS and has the done bit clear on
  read. The state is in bits 2 to 5 (`RemoteUpdate.StatusRead`), and a read on the last clock of an
  operation takes away a done bit that it does not show (`RemoteUpdate.DoneLostExactlyWhen`).
- The C gate computes the file size in 32 bits and the host parser does not. They agree exactly when
  16 + 8n fits (`EditsBin.GateAgreesWithHost`); `EditsBin.GateWrapsAt29Bits` gives a file where they
  do not.
- The host generator's frame offset is that of the chip's address exactly when the address does not
  wrap (`Geometry.GeneratorAgrees`).
- The device tree patch promises to count sentinels, but a written address can complete a new one
  with the bytes after it. The count is right exactly when no write does so
  (`DtbPatch.CountsExactlyWhen`, `DtbPatch.RelapseHappens`).
- init.c, line 131, asks for a file of 20 bytes; a longer file also passes, since only 20 are read.

## Model

| member | source | states |
|---|---|---|
| `Generate.EndToEnd` | patches/neorv32_rot/0004-Phase-8-mode-g-Track-B-generate-edits.bin-on-chip-LU.patch:1028-1119 | For every consistent base the hash accepts and every file that parses to accepted records, in any order and with repeats: all frame CRCs are right, every whitelisted element reads back as its old mask XOR all masks aimed at it, no other data bit changes, and applying the list again would restore the base byte for byte; a second run of the mode gets that far if and only if the hash accepts the edited image, and otherwise leaves it alone |
| `Generate.EditsBinEndToEnd` | patches/neorv32_rot/0004-Phase-8-mode-g-Track-B-generate-edits.bin-on-chip-LU.patch:1028-1119 | The same for a list packed by the host tool into edits.bin, at the real magic, version and CRC |
| `Generate.EditedDelivers` | patches/neorv32_rot/0004-Phase-8-mode-g-Track-B-generate-edits.bin-on-chip-LU.patch:1090-1119 | The reference edit alone has these properties, the restoring second application included |
| `Generate.GeneratesReference` | patches/neorv32_rot/0004-Phase-8-mode-g-Track-B-generate-edits.bin-on-chip-LU.patch:1028-1119 | For every parsed file of accepted records, packed or not, the run equals the reference edit (flip the net cells, repair all 1727 frames) although it repairs only marked frames; a base with another hash is left alone |
| `Generate.ParsedRun` | patches/neorv32_rot/0004-Phase-8-mode-g-Track-B-generate-edits.bin-on-chip-LU.patch:1028-1119 | Any parsed file: the run applies the records before the first rejected one, and repairs only if there is none |
| `Generate.AppliesReference` | patches/neorv32_rot/0004-Phase-8-mode-g-Track-B-generate-edits.bin-on-chip-LU.patch:1090-1118 | The same for the apply loop and the repair alone |
| `Generate.ModeGenerate` | patches/neorv32_rot/0004-Phase-8-mode-g-Track-B-generate-edits.bin-on-chip-LU.patch:983-1119 | The method leaves exactly the outcome and the image of the specification `Run`, for every header, record count, memory and base, halts included; records are read from the memory that is being edited |
| `Generate.OutcomeWhen` | patches/neorv32_rot/0004-Phase-8-mode-g-Track-B-generate-edits.bin-on-chip-LU.patch:983-1088 | Every outcome comes exactly when its tests say so, in their order, and the image is the base until the last test has passed |
| `Generate.ApplyAndRepair` | patches/neorv32_rot/0004-Phase-8-mode-g-Track-B-generate-edits.bin-on-chip-LU.patch:1090-1118 | In-place apply and repair equal the live loop on the old buffer |
| `Generate.ApplyRecords` | patches/neorv32_rot/0004-Phase-8-mode-g-Track-B-generate-edits.bin-on-chip-LU.patch:1090-1115 | The loop stops at the first record that is rejected where it lies at that moment; otherwise the bitmap holds exactly the frames to repair |
| `Generate.ApplyRecord` | patches/neorv32_rot/0004-Phase-8-mode-g-Track-B-generate-edits.bin-on-chip-LU.patch:1097-1112 | One turn: the record read from the memory as it is now |
| `Generate.ReadRecord` | patches/neorv32_rot/0004-Phase-8-mode-g-Track-B-generate-edits.bin-on-chip-LU.patch:1092-1100 | A record is eight bytes at a 32-bit address, of the image or beside it |
| `Generate.ClearBitmap` | patches/neorv32_rot/0004-Phase-8-mode-g-Track-B-generate-edits.bin-on-chip-LU.patch:1091 | The cleared bitmap stands for no frame |
| `Generate.LutApplyWithCanon` | patches/neorv32_rot/0003-Phase-7-LutCodec-C-port-per-frame-CRC-IMEM-16K-32K-b.patch:893-906 | Status of the element; a rejected record changes neither buffer nor bitmap |
| `Generate.EditsGate` | patches/neorv32_rot/0004-Phase-8-mode-g-Track-B-generate-edits.bin-on-chip-LU.patch:994-1069 | Method form of the gate, in 32-bit arithmetic |
| `Generate.GateOnHeader` | patches/neorv32_rot/0004-Phase-8-mode-g-Track-B-generate-edits.bin-on-chip-LU.patch:1031-1067 | The tests after the header is loaded, in their order |
| `Generate.RejectedRun` | patches/neorv32_rot/0004-Phase-8-mode-g-Track-B-generate-edits.bin-on-chip-LU.patch:1102-1111 | A rejected record halts the run before repair: CRC bytes are still the old ones, and a full repair would complete the edit by the records before it |
| `Generate.ParsedReachesLoop` | patches/neorv32_rot/0004-Phase-8-mode-g-Track-B-generate-edits.bin-on-chip-LU.patch:1028-1101 | Whatever file the host parses, the chip opens it and the loop reads the same records, however the image beside it has been edited |
| `Generate.LiveIsApplyAll` | patches/neorv32_rot/0004-Phase-8-mode-g-Track-B-generate-edits.bin-on-chip-LU.patch:1090-1118 | Then reading from the memory under edit is the same as applying the parsed list |
| `Editor.ReadEdited` | patches/neorv32_rot/0004-Phase-8-mode-g-Track-B-generate-edits.bin-on-chip-LU.patch:1090-1119 | Read-back of any element after any accepted list: old mask XOR the XOR of all masks aimed at it |
| `Editor.EditTwiceRestores` | patches/neorv32_rot/0004-Phase-8-mode-g-Track-B-generate-edits.bin-on-chip-LU.patch:1090-1119 | The edit is an involution on consistent images |
| `Editor.EditsCompose` | patches/neorv32_rot/0004-Phase-8-mode-g-Track-B-generate-edits.bin-on-chip-LU.patch:1090-1119 | Two runs in sequence equal one run on the concatenated list |
| `Editor.EditsCommute` | patches/neorv32_rot/0004-Phase-8-mode-g-Track-B-generate-edits.bin-on-chip-LU.patch:1097-1113 | The result depends on the records as a multiset, not on their order |
| `Editor.OtherBitsKept` | patches/neorv32_rot/0004-Phase-8-mode-g-Track-B-generate-edits.bin-on-chip-LU.patch:1090-1119 | A data bit of no edited element is unchanged |
| `Editor.OtherFramesKept` | patches/neorv32_rot/0004-Phase-8-mode-g-Track-B-generate-edits.bin-on-chip-LU.patch:1117-1119 | A frame without a touched cell keeps every byte, its CRC included |
| `Editor.NetBit` | patches/neorv32_rot/0004-Phase-8-mode-g-Track-B-generate-edits.bin-on-chip-LU.patch:1097-1113 | A cell of an element is flipped by the whole list exactly when the element's net mask has that bit |
| `LutCells.StrokesFastRefinesSlow` | patches/neorv32_rot/0003-Phase-7-LutCodec-C-port-per-frame-CRC-IMEM-16K-32K-b.patch:689-718 | From a consistent image, after any sequence of mask applications on any descriptors, even ones that hit CRC bytes, the dirty repair equals the full repair |
| `Cells.FastRefinesSlowAfter` | patches/neorv32_rot/0003-Phase-7-LutCodec-C-port-per-frame-CRC-IMEM-16K-32K-b.patch:689-718 | The same for any kind of XOR edit |
| `Frames.FastRefinesSlow` | patches/neorv32_rot/0003-Phase-7-LutCodec-C-port-per-frame-CRC-IMEM-16K-32K-b.patch:699-709 | Repairing the dirty frames equals repairing all as soon as every frame that differs from a consistent base is dirty |
| `Frames.RepairConsistent` | patches/neorv32_rot/0003-Phase-7-LutCodec-C-port-per-frame-CRC-IMEM-16K-32K-b.patch:689-697 | A full repair always yields right CRCs in every frame |
| `Frames.RepairFixpoint` | patches/neorv32_rot/0003-Phase-7-LutCodec-C-port-per-frame-CRC-IMEM-16K-32K-b.patch:689-697 | The images a full repair leaves alone are exactly the consistent ones |
| `Frames.RepairEqual` | patches/neorv32_rot/0003-Phase-7-LutCodec-C-port-per-frame-CRC-IMEM-16K-32K-b.patch:689-697 | Two images repair to the same image if and only if they agree on all non-CRC bytes |
| `Frames.LcPatchRbfCrc` | patches/neorv32_rot/0003-Phase-7-LutCodec-C-port-per-frame-CRC-IMEM-16K-32K-b.patch:689-697 | The in-place loop over all frames equals `Repair` of the old buffer: each CRC is that of the original data, nothing else changes |
| `Frames.LcPatchRbfCrcFrames` | patches/neorv32_rot/0003-Phase-7-LutCodec-C-port-per-frame-CRC-IMEM-16K-32K-b.patch:699-709 | The in-place loop repairs exactly the frames whose bitmap bit is set |
| `Frames.WriteCrc` | patches/neorv32_rot/0003-Phase-7-LutCodec-C-port-per-frame-CRC-IMEM-16K-32K-b.patch:692-695 | One frame is repaired, low byte first, and nothing else changes |
| `Frames.LcMarkDirty` | patches/neorv32_rot/0003-Phase-7-LutCodec-C-port-per-frame-CRC-IMEM-16K-32K-b.patch:711-718 | Adds the frame of the byte to the set the bitmap stands for, and nothing for bytes outside frames 25 to 1751 |
| `Frames.Crc16RbfFrame` | patches/neorv32_rot/0003-Phase-7-LutCodec-C-port-per-frame-CRC-IMEM-16K-32K-b.patch:674-687 | The byte-wise loop equals the bit-serial shift register over the 208 bytes, and returns the number that `FrameCrcNumber` gives |
| `Frames.FrameCrcNumber` | patches/neorv32_rot/0003-Phase-7-LutCodec-C-port-per-frame-CRC-IMEM-16K-32K-b.patch:674-687 | Which CRC it is, in plain numbers: start at 0xFE54, XOR each byte in, eight times halve and XOR 0xA001 when odd |
| `CrcNumbers.RunNumber` | patches/neorv32_rot/0003-Phase-7-LutCodec-C-port-per-frame-CRC-IMEM-16K-32K-b.patch:674-687 | The bit-serial register over a message is this loop on plain numbers, at any width, polynomial and start value |
| `Frames.RepairInNumbers` | patches/neorv32_rot/0003-Phase-7-LutCodec-C-port-per-frame-CRC-IMEM-16K-32K-b.patch:689-709 | After the repair of any set of frames, each of them that lies in 25 to 1751 ends in that CRC of its 208 bytes, low byte first |
| `Frames.RepairKeeps` | patches/neorv32_rot/0003-Phase-7-LutCodec-C-port-per-frame-CRC-IMEM-16K-32K-b.patch:689-709 | No other byte changes |
| `Frames.RepairIsAll` | patches/neorv32_rot/0003-Phase-7-LutCodec-C-port-per-frame-CRC-IMEM-16K-32K-b.patch:689-697 | The full repair is the repair of frames 25 to 1751 |
| `Canon.FrameBurstDetected` | patches/neorv32_rot/0003-Phase-7-LutCodec-C-port-per-frame-CRC-IMEM-16K-32K-b.patch:674-687 | Every nonzero corruption of a frame's data confined to 16 consecutive bits in processing order changes its CRC |
| `Crc.StepInjective` | patches/neorv32_rot/0003-Phase-7-LutCodec-C-port-per-frame-CRC-IMEM-16K-32K-b.patch:678-684 | The CRC clock is injective on registers, at any width |
| `Crc.StepSurjective` | patches/neorv32_rot/0003-Phase-7-LutCodec-C-port-per-frame-CRC-IMEM-16K-32K-b.patch:678-684 | Every register value has a predecessor, so the clock is a bijection |
| `Crc.FeedLinear` | patches/neorv32_rot/0003-Phase-7-LutCodec-C-port-per-frame-CRC-IMEM-16K-32K-b.patch:674-687 | The CRC is affine: it commutes with XOR of registers and messages |
| `Crc.FeedAtOnce` | patches/neorv32_rot/0003-Phase-7-LutCodec-C-port-per-frame-CRC-IMEM-16K-32K-b.patch:677-684 | XOR-ing a byte in and clocking eight times equals feeding its bits one by one |
| `Crc.BurstDetected` | patches/neorv32_rot/0003-Phase-7-LutCodec-C-port-per-frame-CRC-IMEM-16K-32K-b.patch:674-687 | Bursts up to the register width always change the CRC, for every width, start value and message length |
| `Crc.RunConcat` | patches/neorv32_rot/0004-Phase-8-mode-g-Track-B-generate-edits.bin-on-chip-LU.patch:796-802 | A message may be processed in two pieces at any split |
| `LutCodec.LcInit` | patches/neorv32_rot/0003-Phase-7-LutCodec-C-port-per-frame-CRC-IMEM-16K-32K-b.patch:815-874 | Status in the order x, y, n; on success the descriptor of the element, for every table and every prior contents of the structure |
| `LutNumbers.RowNumbers` | patches/neorv32_rot/0003-Phase-7-LutCodec-C-port-per-frame-CRC-IMEM-16K-32K-b.patch:792-856 | Address and bit of every element, row by row: each group of three rows lies three bytes further up and one bit lower, second and third rows have the bit below the first, and a middle element that falls off its period is moved up by 206 or 207 bytes and has the bit of the first row |
| `LutNumbers.DeltaDigits` | patches/neorv32_rot/0003-Phase-7-LutCodec-C-port-per-frame-CRC-IMEM-16K-32K-b.patch:792-799 | Element n = 16h + 4a + 2b lies 38h + 8a + 2b bytes below the first of its row |
| `LutNumbers.EveryRow` | patches/neorv32_rot/0003-Phase-7-LutCodec-C-port-per-frame-CRC-IMEM-16K-32K-b.patch:822-825 | Every accepted row and element has these coordinates |
| `LutNumbers.OddElements` | patches/neorv32_rot/0003-Phase-7-LutCodec-C-port-per-frame-CRC-IMEM-16K-32K-b.patch:871 | The two bytes of the pairs are exchanged exactly for n = 2, 6, 10, ... |
| `LutNumbers.FlatOrder` | patches/neorv32_rot/0003-Phase-7-LutCodec-C-port-per-frame-CRC-IMEM-16K-32K-b.patch:858-861 | The permutation table is in the order of x, then y, then n ... |
| `LutNumbers.FlatOnto` | patches/neorv32_rot/0003-Phase-7-LutCodec-C-port-per-frame-CRC-IMEM-16K-32K-b.patch:858-861 | ... and each of its 1152 entries belongs to an element, so no other index satisfies both |
| `LutNumbers.SigmaNumber` | patches/neorv32_rot/0003-Phase-7-LutCodec-C-port-per-frame-CRC-IMEM-16K-32K-b.patch:861-868 | The i-th two-bit digit of the table byte, from the low end, says which place of `sigma` holds i |
| `LutCodec.InitStatus` | patches/neorv32_rot/0003-Phase-7-LutCodec-C-port-per-frame-CRC-IMEM-16K-32K-b.patch:815-820 | Each status exactly when its coordinate is the first that is not accepted |
| `LutCodec.LcAddress` | patches/neorv32_rot/0003-Phase-7-LutCodec-C-port-per-frame-CRC-IMEM-16K-32K-b.patch:823-856 | Address modulo 2^32 and bit position, slot-1 wrap cases included |
| `LutCodec.LcSigma` | patches/neorv32_rot/0003-Phase-7-LutCodec-C-port-per-frame-CRC-IMEM-16K-32K-b.patch:858-868 | The four stores of the inversion, onto whatever was there |
| `LutCodec.SigmaDetermined` | patches/neorv32_rot/0003-Phase-7-LutCodec-C-port-per-frame-CRC-IMEM-16K-32K-b.patch:858-868 | The result is independent of the prior contents if and only if the table entry is a permutation |
| `LutCodec.SentinelUndetermined` | patches/neorv32_rot/0003-Phase-7-LutCodec-C-port-per-frame-CRC-IMEM-16K-32K-b.patch:228-235 | The sentinel 0xFF is not a permutation |
| `LutCodec.ScatterInverts` | patches/neorv32_rot/0003-Phase-7-LutCodec-C-port-per-frame-CRC-IMEM-16K-32K-b.patch:867-868 | For a permutation the stores give its inverse |
| `LutCodec.FindIndex` | patches/neorv32_rot/0003-Phase-7-LutCodec-C-port-per-frame-CRC-IMEM-16K-32K-b.patch:810-813 | First index of the value, or -1 exactly when it is absent |
| `LutCodec.SearchX` | patches/neorv32_rot/0003-Phase-7-LutCodec-C-port-per-frame-CRC-IMEM-16K-32K-b.patch:816-817 | The search accepts exactly the four pin columns and gives their index |
| `LutCodec.SearchY` | patches/neorv32_rot/0003-Phase-7-LutCodec-C-port-per-frame-CRC-IMEM-16K-32K-b.patch:818-819 | The search accepts exactly the eighteen LAB rows and gives their index |
| `LutCodec.UnpackPack` | patches/neorv32_rot/0003-Phase-7-LutCodec-C-port-per-frame-CRC-IMEM-16K-32K-b.patch:155-162 | The chip unpacks what the host packed |
| `LutCodec.InvertInverse` | patches/neorv32_rot/0003-Phase-7-LutCodec-C-port-per-frame-CRC-IMEM-16K-32K-b.patch:867-868 | The inverted table entry is a permutation and the true inverse |
| `LutCodec.InverseIsPerm` | patches/neorv32_rot/0003-Phase-7-LutCodec-C-port-per-frame-CRC-IMEM-16K-32K-b.patch:867-868 | A left inverse of a permutation of four is a permutation and a two-sided inverse |
| `Geometry.SameSlotDisjoint` | patches/neorv32_rot/0003-Phase-7-LutCodec-C-port-per-frame-CRC-IMEM-16K-32K-b.patch:815-891 | For arbitrary tables, two different elements of one column and slot share no cell in 32-bit arithmetic, the +206 and +207 wrap cases and their changed bit position included |
| `Geometry.RowsApart` | patches/neorv32_rot/0003-Phase-7-LutCodec-C-port-per-frame-CRC-IMEM-16K-32K-b.patch:827-856 | Rows of one slot with equal bit position are, modulo the pair spacing, further apart than a byte pair |
| `Geometry.DifferentApart` | patches/neorv32_rot/0003-Phase-7-LutCodec-C-port-per-frame-CRC-IMEM-16K-32K-b.patch:815-891 | If the twelve sums of column and slot bases are far enough apart, any two different elements share no cell |
| `Geometry.GeometryExact` | patches/neorv32_rot/0003-Phase-7-LutCodec-C-port-per-frame-CRC-IMEM-16K-32K-b.patch:815-891 | That numeric condition holds if and only if any two different elements share no cell |
| `Geometry.ApartWhen` | patches/neorv32_rot/0003-Phase-7-LutCodec-C-port-per-frame-CRC-IMEM-16K-32K-b.patch:880-887 | Two elements share no cell exactly when their bit positions differ or their base addresses are not within a pair of each other modulo the pair spacing |
| `Geometry.OffsetOnto` | patches/neorv32_rot/0003-Phase-7-LutCodec-C-port-per-frame-CRC-IMEM-16K-32K-b.patch:880-887 | The sixteen cells fill both bytes of all eight pairs, for every permutation and parity |
| `Geometry.RecordedGeometry` | docs/analysis/mode_h_canon/iron_transfer_run_20260531.log:9-24 | The recorded column and slot distances meet the condition, whatever the permutations |
| `Geometry.RecordedElements` | docs/captures/uart_20260521_modeH_v2_validated.log:47 | Tables with these distances give the recorded base addresses and bit positions |
| `Geometry.RecordedTables` | docs/analysis/mode_h_canon/iron_transfer_run_20260531.log:9-24 | There are such tables |
| `Geometry.GeneratorAgrees` | patches/neorv32_rot/0003-Phase-7-LutCodec-C-port-per-frame-CRC-IMEM-16K-32K-b.patch:210-222 | The host's frame offset equals the chip's if and only if the address needs no 32-bit wrap, and then the frame number modulo 8 agrees too |
| `LutCells.LutApplyMask` | patches/neorv32_rot/0003-Phase-7-LutCodec-C-port-per-frame-CRC-IMEM-16K-32K-b.patch:876-891 | The in-place loop flips exactly the mask's cells and marks exactly their frames; a null bitmap is allowed |
| `LutCells.FlipMinterm` | patches/neorv32_rot/0003-Phase-7-LutCodec-C-port-per-frame-CRC-IMEM-16K-32K-b.patch:887-889 | One minterm: one cell flipped, its frame marked |
| `LutCells.MintermOffset` | patches/neorv32_rot/0003-Phase-7-LutCodec-C-port-per-frame-CRC-IMEM-16K-32K-b.patch:880-887 | The pair and delta arithmetic that writer and readers share |
| `LutCells.CellNumber` | patches/neorv32_rot/0003-Phase-7-LutCodec-C-port-per-frame-CRC-IMEM-16K-32K-b.patch:878-888 | The cell of every minterm from the numbers b / 2^sigma[j] mod 2 |
| `LutCells.MintermZero` | patches/neorv32_rot/0003-Phase-7-LutCodec-C-port-per-frame-CRC-IMEM-16K-32K-b.patch:878-888 | The minterm of four zeros lies in the last of the eight pairs |
| `LutCells.MintermStep` | patches/neorv32_rot/0003-Phase-7-LutCodec-C-port-per-frame-CRC-IMEM-16K-32K-b.patch:878-888 | Setting input 0, 1 or 2 lowers the address by 4, 2 or 1 pair spacings, and setting input 2 or 3 changes the byte of the pair; with the minterm of four zeros this fixes all sixteen cells |
| `LutCells.ReadMaskAt` | docs/analysis/h1h2_silicon_test/host/scan_rbf.py:58-75 | The reader returns bit b of the cell of minterm b, and 0 beyond the end of the file |
| `LutCells.ReadAfterWrite` | docs/analysis/h1h2_silicon_test/host/scan_rbf.py:58-75 | Reading after writing gives the old mask XOR the written one, for every image and permutation |
| `LutCells.ReadUndisturbed` | docs/analysis/h1h2_silicon_test/host/scan_rbf.py:58-75 | Flips that miss an element's sixteen cells are invisible to its reader |
| `LutCells.MaskCellsXor` | patches/neorv32_rot/0003-Phase-7-LutCodec-C-port-per-frame-CRC-IMEM-16K-32K-b.patch:876-891 | Applying M1 then M2 is applying M1 XOR M2 |
| `LutCells.OffsetInjective` | patches/neorv32_rot/0003-Phase-7-LutCodec-C-port-per-frame-CRC-IMEM-16K-32K-b.patch:880-887 | Sixteen minterms have sixteen different cells, for every permutation and parity |
| `LutCells.PredictCells` | docs/analysis/mode_h_canon/analyze_iron_transfer.py:78-90 | The predicted set is exactly the set the writer flips, one distinct cell for every set mask bit |
| `Cells.DiffXor` | docs/analysis/mode_h_canon/upstream_ref/verify_canon_d1pp_table.py:48-52 | The difference between an image and its edited form is exactly the cell set |
| `Cells.XorDiff` | docs/analysis/mode_h_canon/upstream_ref/verify_canon_d1pp_table.py:48-52 | XOR-ing the difference of two images onto one gives the other |
| `Cells.XorInvolution` | docs/analysis/mode_h_canon/upstream_ref/verify_canon_d1pp_table.py:48-52 | Applying a cell set twice gives the image back |
| `Cells.FoldPermuted` | patches/neorv32_rot/0004-Phase-8-mode-g-Track-B-generate-edits.bin-on-chip-LU.patch:1097-1113 | The net effect of a list of edits is invariant under permutation |
| `Cells.XorApply` | docs/analysis/mode_h_canon/upstream_ref/verify_canon_d1pp_table.py:48-52 | The loop over the set flips exactly its cells, in whatever order |
| `Cells.FlipCell` | docs/analysis/mode_h_canon/upstream_ref/verify_canon_d1pp_table.py:51 | One byte changes in one bit |
| `Canon.MineLossless` | docs/analysis/mode_h_canon/upstream_ref/build_canon_d1pp_table.py:88-108 | Mining then rebuilding equals gold outside the per-build bytes, for every base, every gold with valid CRCs and every predicted set |
| `Canon.PerBuildBytes` | docs/analysis/mode_h_canon/upstream_ref/build_canon_d1pp_table.py:29-34 | The per-build bytes are the fourteen bytes 41 to 52, 73 and 74 |
| `Canon.GateDecidesMined` | docs/analysis/mode_h_canon/test_canon_vs_golden.py:119-140 | The gate passes a candidate table if and only if it agrees with the mined cells wherever a cell can be mined |
| `Canon.NoCanonControl` | docs/analysis/mode_h_canon/test_canon_vs_golden.py:189-203 | Without canon the gate passes if and only if nothing was mined |
| `Canon.WrongCellControl` | docs/analysis/mode_h_canon/test_canon_vs_golden.py:205-216 | A table wrong in any one cell, missing or invented, shows as the data byte plus one or two CRC bytes of its frame; outside the CRC-carrying frames as that byte alone |
| `Canon.OneBitChangesCrc` | docs/analysis/mode_h_canon/test_canon_vs_golden.py:205-216 | A single flipped data bit always changes the CRC of its frame |
| `Canon.RebuiltByte` | docs/analysis/mode_h_canon/test_canon_vs_golden.py:137-140 | A mineable byte comes out right exactly when the candidate has its mined cells and no others |
| `CanonGate.MineEntry` | docs/analysis/mode_h_canon/upstream_ref/build_canon_d1pp_table.py:88-122 | The listed cells are the canon cells, in order, each with its region; the counts are those of the regions and of each part, and add up to the raw difference |
| `CanonGate.SortedCells` | docs/analysis/mode_h_canon/upstream_ref/build_canon_d1pp_table.py:105 | The sorted list has every element of the set exactly once |
| `CanonGate.TagCells` | docs/analysis/mode_h_canon/upstream_ref/build_canon_d1pp_table.py:103-108 | One table cell and one count for each canon cell |
| `CanonGate.RegionCount` | docs/analysis/mode_h_canon/upstream_ref/build_canon_d1pp_table.py:103-108 | The counter of a region is the number of canon cells in it |
| `CanonGate.RegionBounds` | docs/analysis/mode_h_canon/upstream_ref/build_canon_d1pp_table.py:43-51 | The regions by frame numbers: frames 1692 to 1738 are the block band |
| `CanonGate.ThreeParts` | docs/analysis/mode_h_canon/upstream_ref/build_canon_d1pp_table.py:92-101 | The filter partitions the raw difference |
| `CanonGate.Reconstruct` | docs/analysis/mode_h_canon/test_canon_vs_golden.py:119-134 | The two-step in-place form (codec, then canon cells, then all CRCs) equals one XOR with the symmetric difference, then repair |
| `CanonGate.FlipList` | docs/analysis/mode_h_canon/test_canon_vs_golden.py:131-132 | A list of cells flips those listed an odd number of times |
| `CanonGate.VerifyBuild` | docs/analysis/mode_h_canon/upstream_ref/verify_canon_d1pp_table.py:55-80 | The one-step form reports exactly the non-per-build bytes that differ |
| `CanonGate.MineThenReconstruct` | docs/analysis/mode_h_canon/test_canon_vs_golden.py:171-187 | What was mined and listed makes the acceptance run report no differing byte |
| `CanonGate.CollisionLoop` | docs/analysis/mode_h_canon/analyze_iron_transfer.py:174-181 | The loop finds and counts exactly the touched cells where production differs from the baseline, and their number for each region that occurs |
| `CanonGate.LabelCounts` | docs/analysis/mode_h_canon/analyze_iron_transfer.py:177-181 | Each region counts the colliding cells that the canon table gives to it, and `lut_data` those that are not in the table |
| `CanonGate.CollisionsAreWrong` | docs/analysis/mode_h_canon/analyze_iron_transfer.py:161-184 | If the net cells are places where the two golds differ, the collisions are exactly the touched cells that come out wrong, on any production image |
| `CanonGate.TransferSafe` | docs/analysis/mode_h_canon/analyze_iron_transfer.py:161-188 | For mined tables: zero collisions if and only if every touched cell ends with the gold value, and the count is the number of wrong cells |
| `EditsBin.ParsePack` | patches/neorv32_rot/0004-Phase-8-mode-g-Track-B-generate-edits.bin-on-chip-LU.patch:220-268 | Parsing a packed list gives back its records |
| `EditsBin.PackParse` | patches/neorv32_rot/0004-Phase-8-mode-g-Track-B-generate-edits.bin-on-chip-LU.patch:220-268 | Re-packing any parsed file gives back its first 16 + 8n bytes |
| `EditsBin.BodyEncodes` | patches/neorv32_rot/0004-Phase-8-mode-g-Track-B-generate-edits.bin-on-chip-LU.patch:226-268 | Decoded records encode to the bytes they came from |
| `EditsBin.BodyDecodes` | patches/neorv32_rot/0004-Phase-8-mode-g-Track-B-generate-edits.bin-on-chip-LU.patch:226-268 | Packed records decode to themselves |
| `EditsBin.PackEdits` | patches/neorv32_rot/0004-Phase-8-mode-g-Track-B-generate-edits.bin-on-chip-LU.patch:220-237 | Packs exactly the accepted lists; otherwise reports the first offending record and why |
| `EditsBin.MakeHeader` | patches/neorv32_rot/0004-Phase-8-mode-g-Track-B-generate-edits.bin-on-chip-LU.patch:231-236 | The CRC in the header is that of version, count and records |
| `EditsBin.ParseEdits` | patches/neorv32_rot/0004-Phase-8-mode-g-Track-B-generate-edits.bin-on-chip-LU.patch:240-268 | Method form of the host parser, with each reason for refusal |
| `EditsBin.UnpackRecords` | patches/neorv32_rot/0004-Phase-8-mode-g-Track-B-generate-edits.bin-on-chip-LU.patch:264-268 | The loop reads the records of the body |
| `EditsBin.Crc32Two` | patches/neorv32_rot/0004-Phase-8-mode-g-Track-B-generate-edits.bin-on-chip-LU.patch:796-802 | Equals the CRC of the concatenation, for every split |
| `EditsBin.Crc32OneShot` | patches/neorv32_rot/0004-Phase-8-mode-g-Track-B-generate-edits.bin-on-chip-LU.patch:791-794 | The byte-wise loop computes the IEEE 802.3 frame check sequence, a bit-serial shift register over the message |
| `EditsBin.Crc32Number` | patches/neorv32_rot/0004-Phase-8-mode-g-Track-B-generate-edits.bin-on-chip-LU.patch:781-794 | Which CRC it is, in plain numbers: polynomial 0xEDB88320, all ones before and after |
| `EditsBin.Crc32Update` | patches/neorv32_rot/0004-Phase-8-mode-g-Track-B-generate-edits.bin-on-chip-LU.patch:781-789 | Any register and any data: the register after the data |
| `EditsBin.RecordBurstRejected` | patches/neorv32_rot/0004-Phase-8-mode-g-Track-B-generate-edits.bin-on-chip-LU.patch:1028-1069 | A corruption of the records body of a packed file confined to 32 consecutive bits is refused by chip and host, whatever the record count |
| `EditsBin.EditsBurstRejected` | patches/neorv32_rot/0004-Phase-8-mode-g-Track-B-generate-edits.bin-on-chip-LU.patch:1028-1069 | The same at the real magic, version and CRC |
| `EditsBin.WrongCrcRejected` | patches/neorv32_rot/0004-Phase-8-mode-g-Track-B-generate-edits.bin-on-chip-LU.patch:1061-1067 | Records whose CRC is not the header's are refused by both sides |
| `EditsBin.GateAgreesWithHost` | patches/neorv32_rot/0004-Phase-8-mode-g-Track-B-generate-edits.bin-on-chip-LU.patch:1028-1069 | The host accepts a file if and only if the chip opens and 16 + 8n fits 32 bits, and then the chip reads the records the host parsed |
| `EditsNumbers.ParseInNumbers` | patches/neorv32_rot/0004-Phase-8-mode-g-Track-B-generate-edits.bin-on-chip-LU.patch:240-268 | The host parser byte for byte: every verdict exactly when its condition on the bytes holds, from the letters EDIT to the checksum, and x, y, n, mask of every record as little-endian numbers |
| `EditsNumbers.GateInNumbers` | patches/neorv32_rot/0004-Phase-8-mode-g-Track-B-generate-edits.bin-on-chip-LU.patch:1006-1067 | The same for the on-chip gate, with sizes in 32 bits |
| `EditsBin.GateWrapsAt29Bits` | patches/neorv32_rot/0004-Phase-8-mode-g-Track-B-generate-edits.bin-on-chip-LU.patch:1044-1060 | Where the sizes wrap: on a file that is only a header declaring 2^29 records the chip opens and the host reports a truncated file |
| `Xmodem.XmodemReceive` | docs/analysis/linux_tpu/scratch_merge/sw/stage2_loader/main.c:137-196 | The receiver equals `Receive` on the stream, for any destination that holds what is delivered, and speaks first, with 0x15; on a normal end it returns 128 times the number of accepted frames, and the destination is their concatenated payloads followed by its old contents; it returns on every finite stream followed by silence |
| `Xmodem.ReceiveSound` | docs/analysis/linux_tpu/scratch_merge/sw/stage2_loader/main.c:137-196 | The accepted frames stand in the stream without gaps and in order, numbered 1, 2, ... mod 256 with right complements and checksums, all before the EOT that ended the transfer; the data is their payloads |
| `Xmodem.ReceiveComplete` | docs/analysis/linux_tpu/scratch_merge/sw/stage2_loader/main.c:145-195 | Any line of good frames, refused frames, cut frames, noise and silences is taken for what it is: the good frames are delivered, each item has the reply it should have, EOT and CAN end it, and only a silence after 20 fruitless attempts ends it before them |
| `Xmodem.EveryStream` | docs/analysis/linux_tpu/scratch_merge/sw/stage2_loader/main.c:145-195 | Every stream followed by silence is such a line, and ends as the transfer ends |
| `Xmodem.ReceiveExactly` | docs/analysis/linux_tpu/scratch_merge/sw/stage2_loader/main.c:145-195 | Both together: what is delivered, every byte of the replies and how the transfer ends, for every stream and from every state |
| `Xmodem.TransferExactly` | docs/analysis/linux_tpu/scratch_merge/sw/stage2_loader/main.c:137-196 | The same for a whole transfer: first 0x15, then 0x06 for each good frame, 0x15 for each refused or cut frame and each silence, nothing for noise, 0x06 for EOT and 0x18 0x18 on giving up; block 1 is expected first and none of the 20 retries is used |
| `Xmodem.SendReceive` | docs/analysis/linux_tpu/scratch_merge/sw/stage2_loader/main.c:137-196 | A sender's frames for any number of blocks arrive as those blocks, past the wrap of the block number, with one ACK each and one for the EOT |
| `Xmodem.WireReceived` | docs/analysis/linux_tpu/scratch_merge/sw/stage2_loader/main.c:137-196 | Byte for byte: 0x01, number, complement, 128 bytes, low byte of their sum, and 0x04 at the end, are received as the blocks |
| `Xmodem.RefusalsNeverEnd` | docs/analysis/linux_tpu/scratch_merge/sw/stage2_loader/main.c:148-187 | Refused frames are never capped, although they use up the retries, so a single silence ends the transfer exactly after 20 or more of them |
| `Xmodem.ReceiveAcks` | docs/analysis/linux_tpu/scratch_merge/sw/stage2_loader/main.c:137-196 | The sender sees one ACK for each delivered frame and one more exactly on a normal end |
| `Xmodem.ReadBlock` | docs/analysis/linux_tpu/scratch_merge/sw/stage2_loader/main.c:168-180 | Payload, checksum and checksum byte of an uninterrupted block, or the position after the first timeout |
| `Xmodem.ReadAfterSoh` | docs/analysis/linux_tpu/scratch_merge/sw/stage2_loader/main.c:164-187 | A frame is accepted exactly when it is whole and good for the expected number; both header bytes are read before either is tested |
| `Xmodem.StoreBlock` | docs/analysis/linux_tpu/scratch_merge/sw/stage2_loader/main.c:190-192 | The payload is appended to what the destination holds, and nothing else changes |
| `Xmodem.Uart.GetcTimeout` | docs/analysis/linux_tpu/scratch_merge/sw/stage2_loader/main.c:95-105 | The next event, or a timeout for ever once the stream has ended |
| `Xmodem.TakeTurn` | docs/analysis/linux_tpu/scratch_merge/sw/stage2_loader/main.c:145-195 | One turn of the loop, reply bytes and retries included |
| `Xmodem.Turn` | docs/analysis/linux_tpu/scratch_merge/sw/stage2_loader/main.c:145-195 | Every turn that does not stop consumes an event or one of the retries left |
| `DtbPatch.PatchedOnce` | docs/analysis/linux_tpu/scratch_merge/sw/stage2_loader/main.c:362-385 | Returns 1 if and only if the blob holds exactly one sentinel and the write does not complete another; then only those four bytes change and read big-endian as 0x41F80000 plus the ramdisk's size, in 32 bits |
| `DtbPatch.CountsExactlyWhen` | docs/analysis/linux_tpu/scratch_merge/sw/stage2_loader/main.c:362-385 | The return value is the number of sentinels the blob held if and only if no sentinel of the blob is completed again by its own write |
| `DtbPatch.ScanAtLeast` | docs/analysis/linux_tpu/scratch_merge/sw/stage2_loader/main.c:362-385 | It is never smaller |
| `DtbPatch.RelapsesWhen` | docs/analysis/linux_tpu/scratch_merge/sw/stage2_loader/main.c:369-378 | The write completes another sentinel exactly when its last bytes followed by the next bytes of the blob spell one |
| `DtbPatch.ScanCounts` | docs/analysis/linux_tpu/scratch_merge/sw/stage2_loader/main.c:362-385 | It counts right in particular whenever none of the three low bytes of the address is C0 |
| `DtbPatch.RelapseHappens` | docs/analysis/linux_tpu/scratch_merge/sw/stage2_loader/main.c:365-385 | With a ramdisk of 49374 bytes a blob with one sentinel is patched twice |
| `DtbPatch.PatchDtbInitrdEnd` | docs/analysis/linux_tpu/scratch_merge/sw/stage2_loader/main.c:365-385 | The in-place scan equals `Scan` of the old blob |
| `RemoteUpdate.CommandsAndOperations` | patches/neorv32_rot/0005-Phase-2-EPCS-controller-remote-update-via-cycloneive.patch:2524-2684 | Under any traffic from reset each accepted nonzero command starts exactly one operation, none starts without a command, and operations never overlap |
| `RemoteUpdate.OperationRuns` | patches/neorv32_rot/0005-Phase-2-EPCS-controller-remote-update-via-cycloneive.patch:2547-2633 | An operation follows its schedule clock by clock whatever the bus does, and takes no command before its end |
| `RemoteUpdate.ReturnsToIdle` | patches/neorv32_rot/0005-Phase-2-EPCS-controller-remote-update-via-cycloneive.patch:2547-2633 | From every reachable state the machine is idle within 33 clocks |
| `RemoteUpdate.OperationPins` | patches/neorv32_rot/0005-Phase-2-EPCS-controller-remote-update-via-cycloneive.patch:2537-2633 | `shiftnld` is high for exactly the 29 clocks after clock 2 of a shift; a reconfiguration is requested by its own command only |
| `RemoteUpdate.ShiftInDelivers` | patches/neorv32_rot/0005-Phase-2-EPCS-controller-remote-update-via-cycloneive.patch:2548-2592 | A shift-in leaves an ideal 29-bit register holding the DATA value of the moment of acceptance, whatever is written to DATA or CMD meanwhile, and never pulses `rconfig` |
| `RemoteUpdate.HostShiftsIn` | patches/neorv32_rot/0005-Phase-2-EPCS-controller-remote-update-via-cycloneive.patch:2648-2671 | What the host wrote last to DATA is what a later shift-in leaves in the block, whatever traffic there is before, between and after |
| `RemoteUpdate.HostReadsBack` | patches/neorv32_rot/0005-Phase-2-EPCS-controller-remote-update-via-cycloneive.patch:2602-2676 | Until another shift-out is commanded, every read of DATA returns the 29 samples in bits 0 to 28 and zeros above |
| `RemoteUpdate.CommandPins` | patches/neorv32_rot/0005-Phase-2-EPCS-controller-remote-update-via-cycloneive.patch:2547-2671 | Which bit of CMD does what, on the pins; the lowest bit that is set decides |
| `RemoteUpdate.StatusRead` | patches/neorv32_rot/0005-Phase-2-EPCS-controller-remote-update-via-cycloneive.patch:2674-2679 | STATUS: bit 0 busy, bit 1 done, bits 2 to 5 the state number of the source, zeros above |
| `RemoteUpdate.BusyWhileRunning` | patches/neorv32_rot/0005-Phase-2-EPCS-controller-remote-update-via-cycloneive.patch:2516-2679 | Polling during an operation reads busy until the last clock but one |
| `RemoteUpdate.DoneUntilRead` | patches/neorv32_rot/0005-Phase-2-EPCS-controller-remote-update-via-cycloneive.patch:2545-2630 | The end of an operation sets the done bit, and it stays until a read of STATUS |
| `RemoteUpdate.DoneLostExactlyWhen` | patches/neorv32_rot/0005-Phase-2-EPCS-controller-remote-update-via-cycloneive.patch:2545-2679 | The done bit is lost unseen exactly when STATUS is read on the last clock of the operation; that read shows neither busy nor done |
| `RemoteUpdate.AckExactly` | patches/neorv32_rot/0005-Phase-2-EPCS-controller-remote-update-via-cycloneive.patch:2656-2658 | A transfer is acknowledged exactly when it lies in the megabyte at 0xF3000000 and the clock before gave no acknowledge |
| `RemoteUpdate.OtherReads` | patches/neorv32_rot/0005-Phase-2-EPCS-controller-remote-update-via-cycloneive.patch:2673-2681 | Any other offset reads as zero |
| `RemoteUpdate.ResetReads` | patches/neorv32_rot/0005-Phase-2-EPCS-controller-remote-update-via-cycloneive.patch:2524-2646 | After reset everything reads as zero and no output is high |
| `RemoteUpdate.ShiftOutCaptures` | patches/neorv32_rot/0005-Phase-2-EPCS-controller-remote-update-via-cycloneive.patch:2602-2620 | Bit i of the captured word is the i-th sample of `regout` |
| `RemoteUpdate.WbAltremoteUpdate.Clock` | patches/neorv32_rot/0005-Phase-2-EPCS-controller-remote-update-via-cycloneive.patch:2524-2684 | One clock edge on the registers, both blocks reading the old values |
| `RemoteUpdate.WbAltremoteUpdate.ShiftCase` | patches/neorv32_rot/0005-Phase-2-EPCS-controller-remote-update-via-cycloneive.patch:2569-2620 | The two shifting states |
| `RemoteUpdate.WbAltremoteUpdate.FsmBlock` | patches/neorv32_rot/0005-Phase-2-EPCS-controller-remote-update-via-cycloneive.patch:2524-2635 | The state machine block on the triggers and data of before the edge |
| `RemoteUpdate.WbAltremoteUpdate.BusBlock` | patches/neorv32_rot/0005-Phase-2-EPCS-controller-remote-update-via-cycloneive.patch:2638-2684 | The bus block: which writes are accepted, what reads return, and that triggers live for one clock |
| `RemoteUpdate.WbAltremoteUpdate.constructor` | patches/neorv32_rot/0005-Phase-2-EPCS-controller-remote-update-via-cycloneive.patch:2524-2536 | The reset state |
| `RemoteUpdate.AfterOk` | patches/neorv32_rot/0005-Phase-2-EPCS-controller-remote-update-via-cycloneive.patch:2524-2684 | Over every run: a pending trigger is one clock old and seen only when idle; the bit counter stays in range |
| `Fnv.OneByteDetected` | docs/analysis/linux_tpu/host_reference.py:49-54 | Messages of any equal length that differ in exactly one byte have different hashes |
| `Fnv.StepBijective` | docs/analysis/linux_tpu/host_reference.py:51-53 | For every byte the step is a bijection on 32-bit values, with its inverse |
| `Fnv.StatesStayApart` | docs/analysis/linux_tpu/host_reference.py:51-53 | Different states stay different whatever follows |
| `Fnv.FnvRule` | docs/analysis/linux_tpu/host_reference.py:49-54 | Which hash it is: 0x811C9DC5 for no bytes, and one more byte is XOR-ed in and multiplied by 0x01000193 modulo 2^32 |
| `Fnv.Fnv1a32` | docs/analysis/linux_tpu/host_reference.py:49-54 | The masked host loop computes the hash |
| `Fnv.TrustGate` | docs/analysis/linux_tpu/initramfs/init.c:129-141 | The wrapping loop of the gate computes the host's hash of the first 16 bytes |
| `Fnv.GateDetects` | docs/analysis/linux_tpu/initramfs/init.c:133-141 | The model passes with every input vector, and with any one weight changed fails with every input vector; a file is refused for its length exactly when it has fewer than 20 bytes |

## Left out

- Generate.ModeGenerate: the SD transfers that fill the memory and the printed messages; the dirty bitmap lies outside the modelled memory.
- LutCells.LutApplyMask: requires the whole sixteen-cell window inside the buffer, because the C code writes there without a test, and a permutation in the descriptor.
- Geometry.RecordedGeometry: no recorded address lies in slot 2; the slot base used for it is only an example.
- Xmodem.XmodemReceive: requires a destination that holds the delivered data, since the C code writes without a bound; `retries` does not overflow; text messages on the line are not part of the replies.
- DtbPatch.PatchDtbInitrdEnd: requires a blob shorter than 2^32 - 1 bytes, where the loop bound does not wrap.
- RemoteUpdate.ShiftInDelivers: the block behind the pins is an ideal shift register while shifting and arbitrary otherwise; what it does with the word, and whether a captured word echoes it, is not modelled. The unreachable states 9 to 15 of the four-bit state register do not exist in the model.
- `is_crc_byte` of analyze_iron_transfer.py, which lacks the frame range test, is printed only and is not part of this model.
- UART, SPI and SD electrical handshakes, timeouts in cycles, jumps to kernels, and the SD header fields.
- `sd_write_multi` and `sd_read_many`: block copies over a block map would only add easy members.
- `crc32` of main.c, lines 34 to 43: the same loop as `EditsBin.Crc32OneShot`.
- SHA-256 and the golden hashes: the hash core is not part of this model.
- The EPCS flash driver and the vendor megafunctions, whose behaviour is not in the repository.
- The accelerator's registers, the argmax of `cmd_tpu`, and the kernel's memory map.
- Whether canon cells matter on silicon, and placement and timing.
