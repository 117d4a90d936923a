# qboot, modelled and proved in Dafny

qboot is a minimal x86 firmware. Most of what it does is done in place: it numbers PCI buses through
the registers of the bridges themselves, runs a linker script over memory, walks and extends SMBIOS
tables, builds an MP table with a running checksum, cuts up a memory map and patches the header of a
kernel. This project models these algorithms and proves what they are for, for all inputs.

One module corresponds to one component:

| modules | component |
|---|---|
| `PciTopology`, `PciRouting`, `PciPlan`, `PciEnumeration`, `PciTheorems` | `pci.c`: recursive bus enumeration |
| `AcpiScript`, `AcpiLoader` | `tables.c`: the table-loader script, on values and over memory |
| `Malloc` | `malloc.c`: the two bump allocators |
| `SmbiosTable`, `Smbios`, `SmbiosExtract`, `SmbiosTheorems` | `smbios.c`: structure walk, type 0 writer, publication |
| `MpTable`, `MpTheorems` | `mptable.c`: the MP configuration table |
| `MemoryMap`, `MapLayout`, `MapExtraction`, `MapTheorems`, `Int15` | `main.c` and `code16.c`: the memory map, on values and in memory, and the INT 15h service |
| `LinuxBoot`, `BootFromFwCfg` | `linuxboot.c` and `fw_cfg.c`: placing and loading a bzImage |
| `FwCfg` | `fw_cfg.c`: directory lookup and the data stream |
| `Printf`, `Format` | `printf.c` and `atol`: bounded formatting and its inverse |
| `StringLib`, `Bytes` | `string.c`: sums and comparisons; little-endian numbers and patches |

Every component follows one pattern. Where the source changes memory, registers or globals there is a
class or a method over an `array` that does the same steps, and its `ensures` gives the whole new state
as a function of the old one. What the firmware promises is then proved about that function: the
numbering is a preorder, walking what was written gives it back, sums are zero, and so on. Numbers are
unbounded in Dafny, so 8-, 16- and 32-bit wrap-around is written out where the source can reach it.

The functions that specify the methods are not taken on trust either. For each component there are
results that do not mention them and speak of what is outside: `FunctionsAfter` of the registers of every
function before and after a run, `Records` and `WrittenAs` of the bytes of a linker script, `TableReads`,
`PlatformDeclared`, `PublishedBytes` and `SetupInPlace` of finished memory at the offsets that the
respective standard gives, and `PositionalValue` of printed digits. Addresses, types and magic numbers are
written out there.

**PCI.** The hierarchy is a finite tree, and the registers of a function are found by its path in the
tree. The configuration space of class `Pci` is what the hardware does: an access for a bus number is
delivered wherever the bridges, as they stand at that moment, forward it (section 3.1.2 of the
PCI-to-PCI Bridge Architecture Specification 1.2). The enumeration only ever sees such accesses. Its
invariant `Valid` holds after every one of them and says that each access so far reached the intended bus
and no other. The trace of accesses cannot leave any of them out unnoticed: every method only appends to it,
and `Valid` also says that replaying it from the registers at power-on gives the registers as they are.
`Open` says why the accesses go where they should. The preconditions are those under which bus numbers can work at all: no
more than 255 bridges (`NumbersRunOut` shows that with more no register contents keep the buses apart),
bridges that have the PCI-to-PCI bridge class and that the multi-function rule lets software find, and
zero globals.

**Where code and intention differ, the code is modelled.**

- Without the MMCONFIG window `nr_map` counts one entry more than is filled, because `main.c:66`
  decrements a local variable. `CompleteIffMmconfig` states it as an equivalence.
- `do_checksum` zeroes the sum of a range exactly when the corrected byte lies in the range, or the sum was
  zero before (`ChecksumZeroes`).
- A file name that fills all its 56 bytes matches nothing (`fw_cfg.c:55-57`); `Matches` says so.
- The published SMBIOS table length has 16 bits, so it is right exactly when the new table fits them
  (`PublishedTable`).
- An initrd larger than the limit makes the 32-bit subtraction wrap; it ends below the limit exactly when it
  is not larger (`InitrdPlacement`). The 16-bit command-line and heap offsets of old protocols lead to the
  command line exactly under the size conditions in `CmdlinePlacement`.
- `vsnprintf` returns one more than the length of its output, and its `0` flag swallows the next character
  and prints a zero (`printf.c:172-176`); both are in the specification of `Vsnprintf`.

## Model

| member | source | states |
|---|---|---|
| PciTheorems.NumberingIsPreorder | pci.c:130-145 | the numbers 0 to the bridge count are used once each, and the bus with number k is the k-th in preorder, both ways |
| PciTheorems.NumbersAreDistinct | pci.c:135-136 | two buses with the same number are the same bus |
| PciTheorems.RangeIsSubtree | pci.c:135-144 | the range from a bridge's number to its last number holds exactly the numbers of the buses behind it, so ranges nest or are disjoint |
| PciTheorems.EnumerationConfigures | pci.c:115-146 | whatever the registers held, after a run every bridge has its parent's number as primary and forwards exactly its subtree |
| PciTheorems.OneAddressEach | pci.c:115-146 | after a run a function answers at one bus, device and function number, and at this address nothing else answers |
| PciTheorems.NumbersRunOut | pci.c:100-110 | with more than 255 bridges, no register contents make every bus reachable under a number of its own |
| PciTheorems.SetUpExactlyOnce | pci.c:14-40 | one run sets up each function that the multi-function rule lets software see once, and nothing else |
| PciTheorems.SwizzleIsSum | pci.c:139-142 | folding the bridge swizzle (pin + device) mod 4 up a path is one sum mod 4 |
| PciTheorems.LineFollowsSwizzle | pci.c:51-63 | in i440fx mode the line of a function is 11 or 10 by the upper half of its swizzled pin |
| PciTheorems.VisibleByBits | pci.c:19-37 | software sees a function exactly by its vendor number, and functions 1 to 7 also by vendor and bit 7 of the header type of function 0 |
| PciTheorems.RunSetsUp | pci.c:42-113 | for every function, the registers after a run from the registers before: a visible one with a pin and line 0 gets 11 or 10 by the sum over its path, in i440fx mode by the swizzle, and every other line stays; the SERR bit by bit 0 of the header type, no other control bit; the IDE ports; the bus numbers of bridges only |
| PciRouting.LandsThere | pci.c:130-144 | while a path is open, an access for its bus number is delivered on that bus and on no other bus of the hierarchy |
| PciRouting.RoutedTo | pci.c:19-20 | on an open path, an access to a device and function number reaches just the function there, or nobody |
| PciRouting.OpenPathOnly | pci.c:135-137 | any number from the path's own to 255 travels down the open path and enters no other bus of its level |
| PciRouting.ReachesSubtree | pci.c:144 | once all bridges are configured, a number enters a bridge exactly if it belongs to the bus subtree behind it |
| PciRouting.FinalRouting | pci.c:144 | once all bridges are configured, a bus answers to its preorder number and to no other |
| PciPlan.SiblingsEndBelow | pci.c:101-102 | while a bridge is being opened its finished siblings end below its number and its pending ones claim nothing |
| PciPlan.LinkIsPrevious | pci.c:103-109 | until it is taken up, a bridge's secondary bus register still holds the bridge found before it, in spite of all recursion on its later siblings |
| PciPlan.HiddenFound | pci.c:24-37 | slots that the multi-function rule hides add nothing to what a scan finds |
| PciPlan.ScanToAt | pci.c:124 | a scan changes the functions of its own bus only, each to its blocked and linked state |
| PciPlan.MidwayEnd | pci.c:130-145 | when no bridge is left on the list, every register below the bus is in its final state |
| PciPlan.BridgeDone | pci.c:136-144 | opening a bridge, finishing everything behind it and closing its range moves the bus from one list position to the next |
| PciPlan.PreparedRoutesSame | pci.c:72-97 | interrupt line, SERR bit and IDE registers leave alone what routing depends on |
| PciPlan.DeviceSumStep | pci.c:139-142 | adding and subtracting a device number in 16 bits follows the sum over the path and restores it exactly |
| PciPlan.LineFromSum | pci.c:51-63 | the 16-bit sum masked to two bits picks the line of the sum over the whole path, in both chipset modes |
| PciTopology.HeadIsBridge | pci.c:126-131 | while the counter is positive the list head is a real bridge, also at devfn 0xFF, and one fewer is left below it |
| PciTopology.RangeBound | pci.c:135 | numbers of subtrees stay within the bridge count, so they fit the 8-bit counter |
| PciEnumeration.Pci.Read | pci.c:20 | a configuration read returns what the targets of the access answer, or all ones |
| PciEnumeration.Pci.Write | pci.c:100-108 | a configuration write changes the addressed register of every function the access reaches, and no other, and is recorded in the trace |
| PciEnumeration.ExplainedMore | pci.c:20 | an access made as the bridges stand extends a complete trace to a complete trace |
| PciEnumeration.Pci.ReadAt | pci.c:131-133 | during enumeration a read is answered by the intended function or by nobody |
| PciEnumeration.Pci.WriteAt | pci.c:136-137 | during enumeration a write changes the intended function only, reaches no other bus, and the path stays open |
| PciEnumeration.Pci.DoSetupPciIrq | pci.c:42-65 | a zero line becomes the line of the path formula; another one is kept |
| PciEnumeration.Pci.BlockBridge | pci.c:99-111 | a bridge gets its primary number, is blocked, and is pushed on the list kept in the secondary registers |
| PciEnumeration.Pci.ForwardErrors | pci.c:76-82 | a function with an odd header type gets its SERR bit set, the other control bits stay |
| PciEnumeration.Pci.SetupIde | pci.c:86-97 | the IDE registers, with the enable bits for the two Intel controllers only |
| PciEnumeration.Pci.DoSetupPci | pci.c:67-113 | all registers of one function, the list head and the count after its setup |
| PciEnumeration.Pci.VisitSlot | pci.c:19-34 | one round of the scan: a present function is set up, an absent one leaves everything as it was |
| PciEnumeration.Pci.PciForeach | pci.c:14-40 | the break and continue rules amount to setting up the visible functions among all 256 slots, in order |
| PciEnumeration.Pci.OpenBridge | pci.c:131-137 | the link is read before it is replaced, the bridge gets the next number and is opened up to 255 |
| PciEnumeration.Pci.CloseBridge | pci.c:144 | once the range is closed, everything from the bridge's devfn upwards is final |
| PciEnumeration.Pci.SetupBridge | pci.c:131-144 | one bridge with everything behind it, and back: final registers below, list link and running sum intact |
| PciEnumeration.Pci.DoSetupPciBus | pci.c:115-146 | everything below a bus is in its final state, max_bus is the last number of the subtree, the running sum is as before, and the functions below were set up in order |
| PciEnumeration.Pci.SetupPci | pci.c:163-175 | an Intel host bridge with device number 0x1237 or 0x29c0 selects the routing mode and the whole hierarchy is enumerated with max_bus equal to the bridge count; every function is set up and every bridge configured as `FunctionsAfter` and `AllConfigured` say of its registers; otherwise it fails and no register changes; the accesses of the run are appended to the trace, which is intended throughout |
| AcpiScript.DecodeReads | tables.c:9-37 | decoding a 128-byte record gives the command whose fields are written in it, in the declared order and whatever the padding; other command numbers are unknown |
| AcpiScript.RecordsDecoded | tables.c:9-37 | every record writes down what is decoded from it, so no two commands have a record in common |
| AcpiScript.WrittenIsDecoded | tables.c:140 | a script file is the writing of exactly one list of commands |
| AcpiScript.JoinedRecords | tables.c:140 | records put behind each other are decoded to their commands in order |
| AcpiScript.CommandOutcome | tables.c:54-158 | when each kind of command goes on, stops or panics |
| AcpiScript.AllocPlaces | tables.c:54-80 | a file lies at a multiple of the alignment asked for, at least 16, in zone 2 upwards of the F-segment pointer and otherwise below the top, and holds its blob |
| AcpiScript.InterpretParts | tables.c:140-158 | running two scripts one after the other is running their concatenation, and a panic in the first stays |
| AcpiScript.QuitEnds | tables.c:153-154 | what follows a QUIT has no effect |
| AcpiScript.ScriptLeaves | tables.c:140-158 | bytes that no command writes are the same after any script |
| AcpiScript.StepZeroes | tables.c:110-126 | a checksum command with its byte inside its range leaves the range summing to zero |
| AcpiScript.ChecksumHoldsAtEnd | tables.c:110-126 | in any script that gets that far, such a range still sums to zero at the end unless a later command writes into it |
| AcpiScript.FieldIsRelocated | tables.c:82-108 | at the end a pointer field holds its old value plus all source addresses added to it, modulo its own width |
| AcpiScript.LoadedBytes | tables.c:71-72 | bytes of a file that nothing writes after its allocation are those of its blob at the end |
| AcpiScript.AddedIsFinal | tables.c:91-106 | what is added to a field while a script runs are the final addresses of its sources, unless one is allocated again after its use |
| AcpiScript.FieldIsLinked | tables.c:128-159 | in a script that completes, a pointer field is the number in the blob plus the final addresses of the files it was made to point to, in its own width |
| AcpiScript.AddTwice | tables.c:103-107 | two additions to a field are one addition of the sum, for any width |
| AcpiScript.RelocatedTwice | tables.c:101-107 | relocations of apart or identical fields of a file commute |
| AcpiScript.Commute | tables.c:82-108 | two pointer commands with apart or identical fields can be exchanged |
| AcpiScript.AnyOrder | tables.c:82-108 | a run of pointer commands with pairwise apart or identical fields gives the same memory in every order |
| AcpiLoader.Loader.DoAlloc | tables.c:54-80 | a new block of the right zone holds the file's data at an aligned address, and a root pointer table in the F-segment is remembered; an unknown file panics and changes nothing |
| AcpiLoader.Loader.DoPtr | tables.c:82-108 | memory holds the script's tables with the field increased by the source address; a file without memory panics |
| AcpiLoader.Loader.DoChecksum | tables.c:110-126 | memory holds the tables with the corrected byte; a range outside the file panics |
| AcpiLoader.Loader.DoCommand | tables.c:141-157 | each kind of command does to memory what it means on values |
| AcpiLoader.Loader.ExtractAcpi | tables.c:128-159 | for the commands whose records are the loader file: memory ends up with exactly the bytes the script means, every byte outside the allocated blocks is as before, it fails exactly when the script panics, and the remembered root pointer is that of the last table with the signature |
| AcpiLoader.NextCommand | tables.c:140-158 | a well-formed script that fits into memory stays so from command to command |
| AcpiLoader.RootKept | tables.c:74-79 | a script that puts no file beginning with "RSD PTR " into the F-segment keeps the root pointer |
| AcpiLoader.RootFound | tables.c:74-79 | the root pointer that is kept is the final address of the last such file |
| StringLib.ChecksumZeroes | tables.c:125 | the range sums to zero exactly when the corrected byte is inside it or the sum was zero |
| StringLib.ChecksumAgain | tables.c:125 | repeating the command at once changes nothing exactly under the same condition |
| StringLib.Csum8 | string.c:136-142 | the 32-bit running sum gives the byte sum mod 256 |
| StringLib.MemCmp | string.c:65-77 | zero exactly for equal bytes, otherwise the difference at the first unequal ones |
| Malloc.MaskRoundsDown | malloc.c:10 | and-ing with the complement of a power of two rounds down to its multiple |
| Malloc.MultipleAbove | malloc.c:17 | rounding up gives the multiple in [x, x + a), rounding down the one in (x - a, x] |
| Malloc.Heap.MallocAlign | malloc.c:8-12 | an aligned block below all earlier ones; `Valid` keeps all blocks disjoint and bounds the total |
| Malloc.Heap.MallocFsegAlign | malloc.c:14-21 | an aligned block above all earlier ones |
| Malloc.AllBlocksApart | malloc.c:8-21 | after any interleaving of calls no address is in two blocks of either allocator and all blocks are aligned |
| Malloc.BlocksInNvsWindow | main.c:56-57 | downward blocks lie in [0xd0000, 0xf0000) whenever sizes and alignments add up to at most 128 KB |
| FwCfg.FileNameCmp | fw_cfg.c:47-61 | zero exactly when both names are the same C string and end within 56 bytes |
| FwCfg.MatchesByBytes | fw_cfg.c:47-61 | names are equal exactly when their bytes agree up to and including a NUL at one of the positions 0 to 55 |
| FwCfg.FileIdIsFirst | fw_cfg.c:63-72 | an id is the result exactly if it is that of the first matching file, or -1 and none matches |
| FwCfg.FwCfgFileId | fw_cfg.c:63-72 | the lookup loop returns that id |
| FwCfg.StreamSplit | fw_cfg.c:292-306 | reading an entry in two parts without selecting it again is reading it at once |
| FwCfg.LongByBytes | fw_cfg.c:270-287 | sizes and addresses are read from the first four bytes of their entries, lowest first |
| FwCfg.Device.Read | fw_cfg.c:113-120 | memory gets the next bytes of the selected entry, and the position moves on |
| FwCfg.Device.ReadEntry | fw_cfg.c:122-135 | memory gets the entry from its beginning, whatever was selected before |
| SmbiosTable.WalkInvertsEncode | smbios.c:99-123 | repeated calls on the concatenation of any well-formed structures give exactly their starts, in order, then nothing |
| SmbiosTable.NextIs | smbios.c:107-122 | on arbitrary bytes a call goes on behind the first double NUL after the formatted area, exactly if more than a header and more than the announced length are left there |
| SmbiosTable.NextInside | smbios.c:108-122 | on arbitrary bytes a call advances strictly and gives a structure whose formatted area is inside the table |
| SmbiosTable.MeetsType0Iff | smbios.c:156-161 | the scan meets a type 0 structure exactly when the list has one |
| SmbiosTable.StringSetIsWellFormed | smbios.c:91-96 | the strings and their ending form a string set that the walk steps over, also when all are empty |
| SmbiosTable.StringsFound | smbios.c:48-58 | string number n of a structure, as section 6.1.3 of DMTF DSP0134 counts them, is the string that was stored under that number |
| Smbios.SmbiosNext | smbios.c:99-123 | the pointer loop reads only inside the table, whatever its bytes, and computes the next position |
| Smbios.NeedsType0 | smbios.c:156-161 | the scan loop ends, and finds out whether a walk meets a type 0 structure |
| Smbios.SetStrField | smbios.c:48-58 | a C string is stored with its number in the field; an empty or missing one gets number 0 and no space |
| Smbios.SmbiosNewType0 | smbios.c:60-97 | memory gets the bytes of the type 0 structure, and nothing else changes |
| SmbiosExtract.Type0IsStructure | smbios.c:60-97 | what is written is a well-formed structure of type 0 |
| SmbiosExtract.Type0Length | smbios.c:133-134 | for non-empty strings the size is what the caller reserves |
| SmbiosExtract.Type0Strings | smbios.c:71-74 | each string field of the new structure leads to the string it was given |
| SmbiosExtract.LocatedFields | smbios.c:153-154 | the table address is set; length, count and maximal size stay |
| SmbiosExtract.ExtendedFields | smbios.c:165-169 | count, address, length and maximal size after a structure was added, each in its own width |
| SmbiosExtract.SummedIsZero | smbios.c:172-173 | both areas of the entry point sum to zero, the second exactly if its checksum byte is within the announced length or nothing was to be corrected |
| SmbiosExtract.Publish | smbios.c:153-173 | the entry point, the table and, if needed, the new structure in front of it, and no other byte changed |
| SmbiosExtract.ExtractSmbios | smbios.c:125-174 | succeeds exactly when both files are there with the announced sizes, and then publishes them; nothing outside the new blocks changes |
| SmbiosExtract.PublishedTable | smbios.c:125-174 | a type 0 structure is added exactly when there was none; the walk of the published table finds it and the old list; address, count, size and length agree and all three sums are zero |
| SmbiosTheorems.ProvidedMeans | smbios.c:136-147 | both files are there, an entry point of 31 bytes and a table of the length it announces at offset 22 |
| SmbiosTheorems.EntryKeeps | smbios.c:153-173 | every byte of the entry point but checksums, address, and with a new structure count, length and maximal size is kept |
| SmbiosTheorems.PublishedBytes | smbios.c:125-174 | the bytes of the published entry point at their offsets: address, count, length and maximal size of all structures, three sums of zero, everything else as given |
| SmbiosTheorems.BiosStructureReads | smbios.c:60-97 | the bytes of the new structure at their offsets, and the three strings that its string numbers lead to |
| MpTable.ParseInvertsFlatten | mptable.c:86-180 | reading by type-determined sizes recovers any list of entries |
| MpTable.IntendedAre | mptable.c:90-178 | which entries the table is meant to have, position by position |
| MpTable.IntendedReadsBack | mptable.c:86-180 | a reader of the finished bytes recovers the intended entries, in ascending order of type |
| MpTable.PinsDiffer | mptable.c:133-153 | interrupt sources keep different sources and destination pins, with or without the override |
| MpTable.IntendedLength | mptable.c:183 | header and entries make up the stored length |
| MpTable.FitsEbda | main.c:54-55 | everything fits the reserved kilobyte exactly for up to 40 processors |
| MpTable.MpTableChecksum | mptable.c:22-32 | the sum of signed bytes agrees with the unsigned sum mod 256 |
| MpTable.Emit | mptable.c:102-103 | one entry is in place, and offset and running checksum account for exactly the entries so far |
| MpTable.EmitCpus | mptable.c:90-104 | all processor entries |
| MpTable.EmitIntSrcs | mptable.c:133-153 | the interrupt sources; the slot of the skipped source 2 is overwritten by the next entry |
| MpTable.EmitAll | mptable.c:86-180 | all intended entries in order, with offset and running checksum for exactly them |
| MpTable.FinishHeader | mptable.c:183-185 | from the running checksum alone all bytes of the table come to sum to zero |
| MpTable.SetupMpTable | mptable.c:43-186 | floating pointer and table with exactly the intended entries, both summing to zero, and nothing behind them changed |
| MpTheorems.ApicDiffers | mptable.c:90-141 | the I/O APIC has an id that no processor has exactly for up to 254 processors |
| MpTheorems.IntendedDescribes | mptable.c:86-180 | each entry by its bytes: processor i has id i and is enabled, only processor 0 boots; every interrupt source names the id of the ISA bus entry and that of the I/O APIC entry, and leads to the pin of its number, 0 to 2 with the override |
| MpTheorems.FinishedTable | mptable.c:43-186 | the floating pointer leads to the header, the header has its names, the local APIC address 0xfee00000 and a length within which those entries are parsed, and both sum to zero |
| MpTheorems.SetupAndRead | mptable.c:43-186 | so is the memory that setup_mptable leaves |
| MapLayout.EntryBytesOf | main.c:68 | a record of 20 bytes and the entry it stands for determine each other |
| MapLayout.EntriesBytes | main.c:68 | and so do the bytes of whole records and their entries |
| MapLayout.PatchEntries | main.c:52-74 | overwriting entries in memory is replacing them in the list |
| MapExtraction.StoreEntry | main.c:52-64 | storing one entry replaces it and no other |
| MapExtraction.SplitInPlace | main.c:69-75 | in memory, the first entry that starts at 0 loses its first megabyte; without one nothing changes |
| MapExtraction.BuildMap | main.c:51-75 | memory gets count and entries of the built map, and no other byte changes |
| MapExtraction.ExtractE820 | main.c:37-78 | the map is allocated, built and edited in memory and its segment is saved; without a file it fails and nothing changes |
| MapExtraction.SegmentLeadsBack | main.c:77 | the segment leads back to an address exactly if it is 16-aligned and below 1 MB |
| MapTheorems.EntryRead | main.c:68 | address, size and type of an entry are at offsets 0, 8 and 16 of its record |
| MapTheorems.BuiltDeclares | main.c:52-64 | the map declares [0xd0000, 0xf0000) as type 4, and [0x9fc00, 0xa0000), [0xf0000, 0x100000) and with MMCONFIG [0xb0000000, 0xc0000000) as type 2 |
| MapTheorems.BlocksDeclared | main.c:56-57 | every address of every downward block is declared as ACPI memory, when sizes and alignments add up to at most 128 KB |
| MapTheorems.WholeMap | main.c:50-75 | with MMCONFIG and a map as platforms provide it, the bytes declare for every address the firmware's types and, from 1 MB on, the platform's; no more |
| MapTheorems.ExtractAndDeclare | main.c:37-78 | all this of the memory that extract_e820 leaves, at the segment it saves |
| MemoryMap.MapWithMmconfig | main.c:50-75 | disjoint entries, RAM that is exactly the platform's RAM without [639 KB, 1 MB), and lowmem at its old top |
| MemoryMap.CompleteIffMmconfig | main.c:62-66 | all counted entries have been filled exactly when there is an MMCONFIG window |
| Int15.E820QueryMap | code16.c:44-74 | one entry is copied to the caller's buffer, which may be anywhere beside the map, if the index is in the map; the index moves on, or to 0 at the end |
| Int15.QueryAll | code16.c:64-73 | a caller that goes on until it gets 0 has every entry once, in order, after as many calls as there are entries; only its buffer changes |
| Int15.AllocatedMapIsAddressed | main.c:50 | so it does for any 16-aligned block of the downward allocator |
| Int15.ExtractAndQuery | main.c:37-78 | the map is built at boot, and a caller with a buffer in conventional memory reads exactly its entries |
| LinuxBoot.InitrdPlacement | linuxboot.c:46-75 | the highest page at which the initrd ends by both limits; it does so exactly if it is not larger than them |
| LinuxBoot.InitrdInHeader | linuxboot.c:72-77 | the same about the address and size that the kernel reads from its header |
| LinuxBoot.CmdlinePlacement | linuxboot.c:29-44 | old kernels: the highest 16-aligned place below 0x9a000, and when exactly the 16-bit offsets lead to it |
| LinuxBoot.PatchedFields | linuxboot.c:53-77 | what every field of the patched header says, by protocol version |
| LinuxBoot.OffsetsByBytes | linuxboot.c:53-70 | command-line pointer and offsets of the patched header in numbers, by the protocol version and load flag in its bytes |
| LinuxBoot.HeaderLaidOut | linuxboot.c:28-84 | kernel at 64 KB or 1 MB, command line, initrd, and a setup of 512 bytes plus 512 for each sector that byte 0x1f1 announces, 4 for 0 |
| LinuxBoot.PatchedKeeps | linuxboot.c:53-77 | bytes outside the fields of the protocol version are as before |
| LinuxBoot.WriteOf | linuxboot.c:53-77 | each byte that the protocol version lets change is indeed written |
| LinuxBoot.PatchedPrefix | linuxboot.c:14-84 | what is decided and patched does not depend on what follows the header |
| LinuxBoot.PatchedTwice | linuxboot.c:53-77 | patching keeps what it decides by, so patching again changes nothing |
| LinuxBoot.ParseBzimage | linuxboot.c:12-90 | a header without "HdrS" at 0x202 is refused and left alone; otherwise the header in memory is the patched one, and placements and setup size follow from the bytes of the header |
| BootFromFwCfg.SetupInTwoParts | fw_cfg.c:292-306 | peek, patch and read the remainder leaves the same as patching the whole setup |
| BootFromFwCfg.BootFromFwcfg | fw_cfg.c:268-317 | which way a boot goes, told from the bytes of the entries, and memory after it: the parts written in order, and the whole setup blob in place when they lie apart |
| BootFromFwCfg.OutcomesByBytes | fw_cfg.c:289-301 | no kernel, an ELF file, another file or a bzImage, told from entries 8, 0x17 and the bytes of entry 0x18 |
| BootFromFwCfg.BlobLoaded | fw_cfg.c:304-306 | a setup blob of a boot sector and the sectors that byte 0x1f1 announces is in memory to its last byte, but for the fields of its protocol version |
| BootFromFwCfg.LoadedParts | fw_cfg.c:292-315 | parts that lie apart are all in memory at the end, and no other byte has changed |
| BootFromFwCfg.KernelFindsParts | fw_cfg.c:292-317 | the kernel finds its setup with only the protocol's fields changed, and the command line and initrd where its header says |
| BootFromFwCfg.SizesSuffice | linuxboot.c:39-75 | for a recent kernel that loads high, sizes for which the placements keep all parts apart and below the top of low memory |
| BootFromFwCfg.KernelFindsPartsBySize | fw_cfg.c:292-317 | so, from the sizes alone, the kernel finds setup, command line, initrd and its own code |
| Printf.PStream.AddChar | printf.c:18-25 | the buffer holds the first characters that fit, and all are counted |
| StringLib.StrLen | string.c:3-10 | the length of the C string |
| Printf.PrintStr | printf.c:35-59 | the string padded to the width, also while the counter is negative midway |
| Printf.PaddedLength | printf.c:40-58 | the padded length is the larger of the width's magnitude and the string's length |
| Printf.PaddedSides | printf.c:40-58 | a positive width ends with the string, any other begins with it; the rest is padding |
| Printf.PrintInt | printf.c:63-95 | the numeral of the number, for every long but the minimum, within the local buffer of 14 bytes |
| Printf.PrintUnsigned | printf.c:97-122 | the numeral of an unsigned long, within 13 bytes |
| Printf.ReverseInPlace | printf.c:84-90 | the swap loop reverses the digits |
| Printf.WordDigits | printf.c:65 | a 32-bit number has at most 11 digits in any base from octal on |
| Printf.DigitsDenote | printf.c:73-76 | the digits denote the number in their base |
| Printf.NoLeadingZero | printf.c:73-76 | the first digit is not 0 |
| Printf.Atol | string.c:105-134 | the number that a string starts with; it does not overflow if that is a long |
| Printf.ParsePrinted | string.c:105-134 | parsing undoes decimal printing, for every number and every width padded with blanks |
| Printf.ParseSigned | string.c:105-134 | blanks and tabs, an optional plus and the numeral of any number, whatever follows, are parsed to that number |
| Printf.PrintedDenotes | printf.c:97-122 | what is printed of an unsigned number, without blanks, denotes it in its base |
| Format.FmtNum | printf.c:124-138 | a width is read as the number it is written as, and the format continues behind it |
| Format.ReadFlags | printf.c:158-185 | widths and length modifiers up to the letter of a directive |
| Format.NumeralIsWidth | printf.c:124-138 | the numeral of a number other than 0 is a width and means that number |
| Format.EveryFormat | printf.c:147-224 | every format string with proper arguments consists of pieces |
| Format.Vsnprintf | printf.c:140-228 | for a format string, given by what it consists of, the buffer gets the first size - 1 characters of the unbounded output and a NUL, nothing beyond changes, and the value is the length plus one |
| Format.Snprintf | printf.c:231-240 | the same for every format string whose arguments are proper |
| Format.FormatThenParse | printf.c:186-199 | what a decimal directive prints is read back as its argument, whatever its flags |
| Format.FormatHexReads | printf.c:200-213 | what a hexadecimal directive prints reads back in base 16 as its argument, at every width |
| Format.Letters | printf.c:160-222 | the letters of the directives, and what they print of their arguments |
| Bytes.FromToLE | tables.c:103-107 | reading back a little-endian number gives it modulo its width |
| Bytes.ToFromLE | tables.c:103-107 | writing back the bytes that were read gives the same bytes |

## Left out

- Port I/O, inline assembly, mode switches and final jumps (`include/ioport.h`, `cstart.S`, `entry.S`, `boot_bzimage`): the PCI configuration space is modelled by its routing rule and the fw_cfg device by a selected entry and an offset.
- `hwsetup.c`, the interrupt controller, PAM and chipset register writes, `code32seg.c` and the INT 10h handlers: fixed sequences and dispatch.
- `setup_bios32`: a fixed sequence of stores with a byte checksum.
- The multiboot and PVH loaders: `BootFromFwcfg` ends with the decision to go there. The test for the ELF magic number is part of the outcome.
- `fw_cfg_setup` and the DMA interface: the directory is given as a list of names and data in host byte order.
- `puts` and `printf`, which only send text to a port, and `strcpy`, `strcat`, `strcmp`, `strchr`, `strstr`, `memchr` and `memmove`, which are plain library loops.
- Firmware-provided input that is not well formed is outside the preconditions: scripts with unknown destination files, ids of 20 and more, fields outside their file, lengths that are no multiple of 128 or alignments that are no powers of two; an SMBIOS entry point whose announced length is outside 16 to 31; an MP table whose length does not fit 16 bits or the memory.
- AcpiLoader.Loader.DoAlloc: for a file in the F-segment that is a proper prefix of the root pointer signature the comparison goes on behind the file, and nothing is said of the remembered address.
- The entry-count field of the MP table: the source never fills it, and in the model it stays zero.
- `kernel_size` of the boot arguments: computed as in the source, which subtracts sectors from bytes and never uses it, so no contract speaks of it.
- `lowmem` of 0: `ParseBzimage` takes it as positive, as `extract_e820` leaves it on every platform with low RAM.
- Printf.PrintInt: the minimal long has no absolute value and is excluded; bases below 8, which the local buffers are too small for, are excluded too.
- Printf.Atol: a number that is no long overflows in the source, so it is excluded.
- Format.Snprintf: two `l` before `d` or `x` lead to a panic and are excluded by `Proper`, as are a `0` flag at the very end of a string, which would read behind it, and a width beyond a long; a size below 1 is excluded because the stream would then not be bounded.
- MapExtraction.ExtractE820: a file whose size is no multiple of 20 is excluded, because its last bytes would be written behind the allocated map.
- BootFromFwCfg.SizesSuffice: kernels before protocol 2.02, or that do not load high, are placed in low memory next to each other and are covered by `KernelFindsParts` under its condition that the parts lie apart.
- Memory is an array whose index is the physical address; code and stack are not in it, so aliasing between tables and firmware code is not expressed. In `MpTable` index 0 stands for 0x9fc00.
- Some methods are parts of one source function, split off to keep their contracts small: `VisitSlot`, `ForwardErrors`, `ActOnClass`, `SetupIde`, `BlockBridge`, `OpenBridge`, `Descend`, `CloseBridge` and `SetupBridge` in `PciEnumeration`, `PlaceFile` and `FillFile` in `AcpiLoader`, `SkipToEnd`, `WriteFixed` and `WriteStrings` in `Smbios`, `FillFront` and `BuildMap` in `MapExtraction`, `PutType0`, `CountType0`, `CorrectSums` and `LoadAndPublish` in `SmbiosExtract`, the `Emit` and `Write` methods in `MpTable`, `PlaceKernel`, `LimitInitrd` and `PatchHeader` in `LinuxBoot`, `PeekAndParse`, `FirstWord` and `LoadRest` in `BootFromFwCfg`, the loops of `print_str` and of both number printers in `Printf`, and the parts of the loop of `vsnprintf` in `Format`.
- Agreement of interrupt lines with the wiring of a particular chipset: the path formula of the code is what is proved.
