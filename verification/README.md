# Boot payload model

A Dafny model of the bare-metal boot payload: the Mach-O prober, load planner and materializer, the
ARMv7 first-level section tables, the Apple device-tree builder and walkers, and the interrupt, timer,
exclusive-monitor and cache code. `dafny verify dfyconfig.toml` checks all of it.

Words are 32-bit (`Words`, wrap-around explicit), masks are bit vectors, memory is bytes. Pointers are
offsets, and 32-bit addresses for the device-tree walkers, which add lengths found in the tree to them.
Code that updates state in place is a class or a method over arrays, proved against functions on values;
the theorems are about those functions and therefore about the methods.

| area | modules |
|---|---|
| arithmetic, flags, memory helpers | `Words`, `Bits`, `Masks`, `Runtime` |
| prober and planner | `MachoFormat`, `MachoSpec` (specification), `MachoProbe` (the code), `MachoLayout` (well-formedness), `MachoParse`, `MachoPlan`, `MachoAccept`, `MachoFrame` (accepted artifacts), `MachoCut`, `MachoNames`, `MachoSums`, `MachoFaults`, `MachoReport`, `MachoLoad` (what is reported, for any file) |
| materializer | `StagingSpec`, `Staging` (the code), `StagingImage`, `StagingTheorems`, `StagingFaults` (every flag, for any placement), `Specimen` (concrete artifacts the theorems apply to) |
| section tables | `SectionTable`, `SectionTheorems`, `DryrunTable`, `HighVaTable`, `Workspace`, `LoadedTables` (all of them for an accepted artifact) |
| device tree | `DeviceTree` (format, builder, intended walk), `DeviceTreeWalk` (the 32-bit walk), `AppleDt` (the code), `DeviceTreeTheorems`, `DeviceTreeWrap`, `DeviceTreeLookup` (written trees), `DeviceTreeSeek` (arbitrary memory) |
| machines | `Irq`, `HandlerTheorems`, `Gic`, `Disarm`, `Timebase`, `Exclusive`, `Cache` |

Main results, hardest first:

- `MaterializeExactly` rests on `ProbeFrame` (a parse depends only on header, commands and "range within
  size"), `ArenaIsImage` (what the copier writes) and `AcceptsExactlyWellFormed` (what the prober accepts).
- `ReportedFaults`, `ReportedValidity`, `ReportedSegments`, `ReportedSections` and `ReportedCommands` say what
  the prober reports about an arbitrary file, `PlacementFaults` and `CopyAndCheckFaults` what the materializer
  raises; `WalkFrame` and `ProbeReads` bound what the prober looks at.
- `RoundTrip`, `WalkExactly` and the lookup refinements tie builder and walkers to one abstract tree;
  `FindChildFollows` covers lookups in memory that was not written by the builder.
- `IdentityTableExact`, `HighVaExact` and `HighVaAgainstPlan` give the translation of every address.
- `WatchdogFiresExactly`, `RingIsRecent`, `EndsEachOnce`, `DisarmIsFinal` hold of every run.

## Exact limits of the code

Where an intended property does not hold on all inputs, the condition under which it does is proved:

- The device-tree walk tests a pointer plus a length from the tree without a guard against wrap-around. It
  is the intended walk exactly when no such sum wraps (`WalkExactly`, `HeaderWrapsMeans`); otherwise it may
  never end or arrive before its start (`LoopNeverEnds`, `LoopComesBack`, `LookupNeverEnds`). In written
  trees nothing wraps (`EncodedWalk`). The same goes for lookups (`FindChildFollows`), where a wrap need
  not show in the result (`WrappedMayAgree`).
- The builder rounds its position up in 32 bits: the reported length can be trusted exactly for capacities up
  to 0xfffffffc (`TruthfulExactly`).
- The prober accepts a segment with more file bytes than memory; the copier then refuses it
  (`AcceptedCopies`, with an artifact in `MoreFileThanMemory`).
- The second parse compares file ranges with the arena size and demands that the last address equal
  `max_vmaddr`; an accepted artifact with a large file offset, or whose top segment is empty, does not
  materialize (`ReparseExactly`, `LastAddrReachesTop`, with artifacts in `FarFileRange` and `EmptyTopSegment`).
- The high-address table moves section bases, the load plan moves addresses: they agree only for a
  section-aligned base (`HighVaAgreesExactly`, with an artifact in `HighVaMissesByAPage`).
- The set/way sweep shifts the way by a logarithm rounded down where section B4.2.1 of the ARMv7-A manual
  (DDI 0406C) rounds up: it cleans the whole cache exactly when the number of ways is a power of two, and
  otherwise the even ways only (`CleanedExactly`, `SweepCoversExactly`; of three ways the middle one is
  missed, `ThreeWaysMissOne`).
- The range clean runs for ever when the wrapped end lies inside the topmost line (`RangeEndsExactly`,
  `TopLineNeverEnds`); when it ends, it has visited the right lines exactly if the range does not wrap
  (`VisitsTouchedExactly`).
- `timebase_usec_to_ticks` wraps above 223696213 microseconds (`UsecToTicksExact`, `TicksWrapJustAbove`).

The comment at src/gic.c:614-628 says that each level of the disarm alone leaves the tick a way in. The
model makes this exact: all three are needed, and after all three a delivery takes both a re-arm and a
re-enable (`LeaksUnlessDisarmed`, `DisarmIsFinal`, `BothWakeIt`).

## Model

| member | source | states |
|---|---|---|
| MachoAccept.AcceptsExactlyWellFormed | src/macho_probe.c:477-702 | For every byte string: the prober says yes exactly to the well-formed artifacts, a declarative notion (header values; commands that tile the region in exactly `ncmds` pieces; every segment, section and symbol table sound; required names present; every loadable segment fits the boot bank) that mentions no parser state, loop or failure bit |
| MachoAccept.AcceptedHasTiling | src/macho_probe.c:564-622 | An accepted artifact has a cut of its command region into exactly `ncmds` aligned commands, each inside the region, and nothing was raised along the way |
| MachoLayout.TilingUnique | src/macho_probe.c:564-618 | The cut is unique, so "the segments of the artifact" is well defined |
| MachoParse.WalkTiled | src/macho_probe.c:564-618 | The walk over a tiled region visits exactly the commands of the tiling, in order, and stops at its end |
| MachoParse.WalkFindsTiling | src/macho_probe.c:564-622 | Conversely a walk that raises nothing and reaches the end has read a tiling |
| MachoParse.FoldFail | src/macho_probe.c:565-618 | The commands together raise nothing exactly when each of them is sound on its own and at most eight segments need planning |
| MachoParse.SumMin | src/macho_probe.c:309-345 | `min_vmaddr` is the least start of all segments |
| MachoParse.SumMax | src/macho_probe.c:309-345 | `max_vmaddr` is the greatest end of all segments, when none wraps |
| MachoParse.SumPlan | src/macho_probe.c:206-241 | The plan is the loadable segments, in command order, unless the table overflows |
| MachoFrame.ProbeFrame | src/macho_probe.c:477-702 | Frame: if two files agree on an accepted header and command region, the second is accepted exactly when it is long enough for every range the commands name, and then the two reports are equal |
| MachoFrame.AcceptedReport | src/macho_probe.c:477-702 | What an accepting probe reports: true minimum and maximum, the plan entry by entry, the load bounds |
| MachoFrame.WalkFrame | src/macho_probe.c:564-618 | For every byte string and every region: the walk reads nothing outside the region; files that agree on it give the same facts and the same stopping offset |
| MachoFrame.ProbeReads | src/macho_probe.c:477-702 | Accepted or not: the report depends on the file length, the header, and the command region when that lies in the file; no other byte is looked at |
| MachoReport.AcceptedKeys | src/macho_probe.c:169-204 | Of an accepted artifact: each of the six kept extents is the four fields of the last segment with its name, and each of the four kept spans address and size of the last section with its pair of names; zero when there is none |
| MachoCut.WalkCut | src/macho_probe.c:564-622 | For every byte string the command loop visits exactly the longest prefix of the region that is cut into fitting commands, within the announced count, and raises where it stops the flag for too few bytes or a size that does not fit |
| MachoCut.VisitsSome | src/macho_probe.c:564-622 | Every file of at least a header has such a list of visited commands, so the next theorems speak of all of them |
| MachoReport.ReportedFaults | src/macho_probe.c:523-648 | For every file and every flag of the failure word: it is raised exactly when its cause is there, each cause said of header, commands, segments and sections |
| MachoReport.ReportedValidity | src/macho_probe.c:523-648 | The same for every flag of the validity word |
| MachoReport.ReportedStatus | src/macho_probe.c:680-702 | The status of any file is OK, or its low bits give the failure word back |
| MachoReport.RejectedReport | src/macho_probe.c:510-521 | A missing artifact and one shorter than a header leave one flag of their own and nothing else |
| MachoReport.ReportedSegments | src/macho_probe.c:309-345 | For every file: the segment count, the least start (zero when the first segment wraps) and the greatest end, the names seen, and the six kept extents, wrapping segments being counted and ignored |
| MachoReport.ReportedSections | src/macho_probe.c:243-280 | For every file: the section count, the name pairs seen, and the four kept spans |
| MachoReport.ReportedCommands | src/macho_probe.c:581-615 | For every file: command and unknown counts, the kinds seen, the entry kinds, the entry address of the last long enough thread command, and the greatest end of a named file range |
| MachoReport.ReportedPlan | src/macho_probe.c:206-241 | For every file the plan describes the first eight plannable segments in order: index, name bit, address and file range, and the three flags |
| MachoLoad.AcceptedLoad | src/macho_probe.c:420-444 | Of an accepted artifact: the file base is the least offset and the file end the greatest end of the loadable segments with file bytes, count and size are those of the plan, and the plan record repeats the bounds |
| MachoNames.SegmentBit | src/macho_probe.c:136-167 | Each of the nine segment names gives its own bit and no other name does |
| MachoNames.SectionBit | src/macho_probe.c:248-274 | So do the nine pairs of section names |
| MachoPlan.FinalizeMeaning | src/macho_probe.c:372-444 | Planning raises nothing exactly when there is something to plan and every entry fits between the start of RAM and the RAM console |
| MachoPlan.PlanStatusOk | src/macho_probe.c:372-444 | The plan status is OK exactly under that condition, whatever other bits the parse has raised |
| MachoPlan.PlacedIsLinear | src/macho_probe.c:372-444 | In an OK plan `physaddr - vmaddr` is one constant, every rounded range stays in the boot bank, and disjoint address ranges get disjoint memory |
| MachoProbe.ProbeResult.Run | src/macho_probe.c:477-702 | The prober method on the artifact bytes leaves exactly the report of the specification, the plan record included, for every input including none, and returns whether it is OK |
| MachoProbe.ProbeResult.WalkCommands | src/macho_probe.c:564-618 | The command loop computes the specified walk and stops where it stops |
| MachoProbe.ProbeResult.DispatchCommand | src/macho_probe.c:581-615 | One command changes the facts as specified for its kind |
| MachoProbe.ProbeResult.NoteCommand | src/macho_probe.c:588-615 | Counters, seen kinds and entry metadata of one command |
| MachoProbe.ProbeResult.ReadSegment | src/macho_probe.c:583-591 | A segment command is too short and raises a bit, or is recorded with its sections |
| MachoProbe.ProbeResult.ReadSymtab | src/macho_probe.c:592-601 | A symbol table whose strings escape the file raises the extent bit |
| MachoProbe.ProbeResult.RecordOneSegment | src/macho_probe.c:309-345 | Totals, extents and the plan after one segment |
| MachoProbe.ProbeResult.AddLoadPlanEntry | src/macho_probe.c:206-241 | An empty segment is not planned; a ninth entry raises the plan-full bit |
| MachoProbe.ProbeResult.RecordOneSection | src/macho_probe.c:282-307 | Bounds of one section against its segment and the file |
| MachoProbe.ProbeResult.RecordSectionMatch | src/macho_probe.c:243-280 | A section with a known name pair replaces the one kept and sets its bit; other names change only the count |
| MachoProbe.ProbeResult.ParseSegmentSections | src/macho_probe.c:347-370 | A section table that overruns its command raises the bounds bit and is not read; otherwise every section is recorded |
| MachoProbe.ProbeResult.FinalizeLoadPlan | src/macho_probe.c:372-444 | The in-place planning loop computes the specified placement, bounds and status; the plan record keeps its bounds even when nothing is planned |
| MachoProbe.ProbeResult.PlaceOne | src/macho_probe.c:389-425 | One round of that loop |
| MachoProbe.ProbeResult.CheckHeader | src/macho_probe.c:523-550 | Header verdict bits |
| MachoProbe.ProbeResult.ConcludeProbe | src/macho_probe.c:624-648 | Required names, extents and entry metadata after the walk |
| MachoFormat.Fixed16Eq | src/macho_probe.c:107-122 | The bounded comparison succeeds exactly when the 16-byte field spells the name, terminated or full |
| MachoFormat.SegmentMaskForName | src/macho_probe.c:136-167 | The nine comparisons in order pick the bit of the name |
| MachoFormat.SectionMaskForNames | src/macho_probe.c:248-274 | The nine pairs of comparisons in order pick the bit of the name pair |
| Words.MulOverflowMeaning | src/macho_probe.c:71-79 | The division test detects exactly the products of 2^32 and more |
| Runtime.AlignUpMeaning | src/macho_probe.c:81-105 | The checked rounding returns the least multiple of the power of two that is not below the value, or fails exactly when that is no 32-bit word |
| Bits.PowerOfTwoTest | src/macho_probe.c:81-95 | Clearing the lowest set bit leaves zero exactly for powers of two |
| StagingTheorems.MaterializeExactly | src/macho_probe.c:874-1035 | Materialization of an accepted artifact whose segments are disjoint and whose first arena segment holds header and commands succeeds, by its final status, exactly when no segment has more file bytes than memory, every named file range ends within the arena size, a non-empty segment reaches the top address, and the file holds the three markers at the bytes that the segments bring to the recorded section addresses |
| StagingTheorems.MarkersStand | src/macho_probe.c:776-797 | With disjoint segments the marker check of the staged arena passes exactly when the file holds each marker byte by byte where some segment brings it to its address |
| StagingTheorems.MaterializeMeaning | src/macho_probe.c:976-1004 | The final status is OK exactly when the failure mask is clean, and that exactly when the copying, the second parse, the markers and the zero-fill check all succeed |
| StagingFaults.AliasMeans | src/macho_probe.c:750-774 | A placement is refused exactly when the artifact wraps, or some address of the arena lies in the artifact, the RAM console, the planned image or at or above 0xf0000000 |
| StagingFaults.PlacementFaults | src/macho_probe.c:887-921 | For every artifact, report and placement: the span flag is raised exactly when the segments are no range of at most 64 KB or the arena wraps, the alias flag exactly under the condition above, and then nothing is staged |
| StagingFaults.CopyAndCheckFaults | src/macho_probe.c:923-1004 | After a good placement: destination, source and copy flags exactly when some entry has that fault, and the flags of the three checks, in both words, exactly by the outcome of each |
| StagingFaults.DescriptorsFollow | src/macho_probe.c:947-960 | Every descriptor of a clean staging: copied and zeroed bytes follow each other at the place of the segment, inside the arena, without wrap |
| StagingFaults.ZeroFillMeans | src/macho_probe.c:799-835 | The zero-fill check holds exactly when every byte after the file bytes of every staged segment is zero |
| StagingFaults.MarkersMeanTexts | src/macho_probe.c:776-797 | The marker check holds exactly when the three texts stand, byte by byte, at their sections in the arena |
| StagingFaults.ReparseMeans | src/macho_probe.c:837-872 | The second parse of the arena of an accepted artifact agrees exactly when it accepts and reports the same identification, names and bounds, with the highest loaded end at the upper bound |
| StagingFaults.StatusCarries | src/macho_probe.c:990-1004 | A failing status gives the failure word back |
| StagingTheorems.ReparseExactly | src/macho_probe.c:837-872 | The second parse reproduces header fields, masks, bounds and last address exactly under the last two of those conditions |
| StagingTheorems.ArenaIsImage | src/macho_probe.c:919-970 | For every plan: each arena byte is what the last covering entry says (file byte, then zero), zero where none covers it, and copied plus zeroed bytes are the sum of the memory sizes |
| StagingTheorems.OwnByte | src/macho_probe.c:962-969 | A byte of an entry survives when no later entry covers it |
| StagingTheorems.StagedIsPlan | src/macho_probe.c:919-974 | With no failure the staged entries are the plan entries, in order, and failure is exactly a failed bounds check |
| StagingTheorems.AcceptedCopies | src/macho_probe.c:932-945 | For an accepted artifact the copy loop fails exactly when a segment has more file bytes than memory |
| StagingTheorems.ApartMeansZeroFilled | src/macho_probe.c:799-835 | If entries are disjoint the zero-fill check cannot fail |
| StagingTheorems.LastAddrIsMax | src/macho_probe.c:735-748 | The last address is the greatest non-wrapping end of the plan |
| StagingTheorems.LastAddrReachesTop | src/macho_probe.c:735-748 | It equals `max_vmaddr` exactly when a non-empty segment reaches it |
| StagingImage.StageAllKeeps | src/macho_probe.c:919-970 | The image invariant is kept by every round of the copy loop |
| StagingImage.StageAllFails | src/macho_probe.c:928-945 | The loop raises nothing exactly when every entry passes the bounds checks |
| StagingImage.StageAllEntries | src/macho_probe.c:947-960 | And then appends exactly the descriptors of the plan |
| Staging.Stager.MaterializeToArena | src/macho_probe.c:874-1035 | The materializing method leaves exactly the specified arena, entries, counters, masks and status, raises its masks in the result of the probe, copies status, byte counts and bounds there, and returns whether the status is OK |
| Staging.Stager.StageAndVerify | src/macho_probe.c:887-991 | Everything up to the status |
| Staging.Stager.Prepare | src/macho_probe.c:887-917 | Clears, and decides span and alias conditions before anything is written |
| Staging.Stager.CopySegments | src/macho_probe.c:919-977 | The copy loop with its final count check |
| Staging.Stager.StageSegments | src/macho_probe.c:919-970 | The copy loop equals the specified fold |
| Staging.Stager.StageSegment | src/macho_probe.c:928-970 | One entry: the three rejections, or descriptor, copy and zero fill |
| Staging.Stager.WriteSegment | src/macho_probe.c:962-969 | File bytes, then zeros, at the right offsets and nothing else |
| Staging.Stager.VerifyStaged | src/macho_probe.c:978-990 | The three verifications set exactly their own bits |
| Staging.Stager.VerifyMarkers | src/macho_probe.c:979-989 | The marker bit is set exactly when all three texts stand at their sections, the failure bit otherwise |
| Staging.Stager.VerifyMarker | src/macho_probe.c:776-797 | One text, compared up to its first difference, at a section inside the arena |
| Staging.Stager.VerifyZeroFill | src/macho_probe.c:799-835 | The check passes exactly when every zero tail reads zero inside the arena |
| Staging.Stager.CheckTail | src/macho_probe.c:812-827 | One tail |
| Staging.Stager.VerifyReparse | src/macho_probe.c:837-872 | Runs the same prober on the arena and compares the thirteen agreed values |
| Staging.GetLastAddr | src/macho_probe.c:735-748 | The loop computes the specified last address |
| Specimen.ArtifactAccepted | src/macho_probe.c:477-702 | A whole family of artifacts (three segments, three sections, an entry command, any padding) is accepted |
| Specimen.ArtifactMaterializes | src/macho_probe.c:874-1035 | Each of them materializes, markers and status included, exactly when its top segment is not empty, has no more file bytes than memory and a file range that ends within the arena size, and the markers are there |
| Specimen.OneMaterializes | src/macho_probe.c:874-1035 | Concrete: one that is accepted and materializes |
| Specimen.MoreFileThanMemory | src/macho_probe.c:932-935 | Concrete: accepted by the prober, refused by the copier |
| Specimen.EmptyTopSegment | src/macho_probe.c:865-871 | Concrete: accepted by the prober, refused by the second parse |
| Specimen.FarFileRange | src/macho_probe.c:844-847 | Concrete: accepted by the prober, refused by the second parse because a file range lies past the arena size |
| Specimen.SegmentRead | src/macho_probe.c:583-591 | What was written as a segment command is read as that segment |
| SectionTheorems.RangeTranslates | src/macho_probe.c:1201-1230 | After mapping a range, every address of every touched section moves by the distance of the base sections, keeping its low 20 bits; every other address translates as before |
| SectionTheorems.RangeTranslatesExactly | src/macho_probe.c:1279-1310 | Without wrap in the physical addresses the distance is exact |
| SectionTheorems.MapAllIsUnion | src/macho_probe.c:1488-1494 | Several identity map calls write exactly the union of their sections |
| SectionTheorems.OrderIsIrrelevant | src/macho_probe.c:1488-1494 | So order and overlap of the calls do not matter |
| SectionTheorems.IdentityTranslates | src/macho_probe.c:1076-1084 | An identity table translates a covered address to itself and leaves the others unmapped |
| SectionTheorems.MappedSlotVerifies | src/macho_probe.c:1110-1132 | Every mapped slot reads back as the descriptor meant, with its attributes |
| SectionTable.MapSection | src/macho_probe.c:1069-1074 | Writes the index and the unmasked flags to one slot, for all flags; ignores an index outside the table |
| SectionTable.MapSectionRange | src/macho_probe.c:1076-1084 | Writes exactly the slots of the range inside the table |
| SectionTable.MapSectionPa | src/macho_probe.c:1192-1199 | Writes the slot of the address |
| SectionTable.MapSectionRangePa | src/macho_probe.c:1201-1230 | Writes exactly the touched slots, nothing for an empty or wrapping range |
| SectionTable.VerifyRange | src/macho_probe.c:1134-1170 | Succeeds exactly when every slot verifies; returns the boundary words |
| DryrunTable.IdentityTableExact | src/macho_probe.c:1437-1495 | The identity table translates an address to itself exactly in low RAM, the kernel range, the first console section and the interrupt controller section; everything else is unmapped |
| DryrunTable.ChecksHold | src/macho_probe.c:1505-1663 | Every descriptor, attribute and translation check passes on the table the map calls produce, for every kernel range |
| DryrunTable.Dryrun.BuildIdentity | src/macho_probe.c:1355-1671 | On load bounds and a proposed workspace the failure mask is exactly the layout faults, the kernel-range bit and, when one of them keeps the table from being built, all check bits; otherwise no check raises anything and the table is the exact identity table; the rest of the arena stays zero either way |
| DryrunTable.Dryrun.MapIdentity | src/macho_probe.c:1486-1495 | The four map calls equal the specified union |
| DryrunTable.Dryrun.CheckIdentity | src/macho_probe.c:1505-1663 | Raises exactly the bits of the checks that fail: readback, attributes with both folds, and the four translations |
| DryrunTable.ReadBoundaries | src/macho_probe.c:1505-1541 | Reads the four ranges back and returns the seven boundary words |
| DryrunTable.FoldsFollow | src/macho_probe.c:1543-1586 | When every word has the right attributes both OR-folds are right, so they add nothing to the verdict |
| DryrunTable.TailZeroed | src/macho_probe.c:1086-1094 | True exactly when every byte after the first-level table is zero |
| DryrunTable.ExpectTranslation | src/macho_probe.c:1312-1330 | Succeeds exactly when the address translates to the expected one |
| DryrunTable.ChecksMean | src/macho_probe.c:1505-1663 | On any table, bit by bit: a covered section without its own descriptor, a boundary word with other attributes, and each of the five addresses not translated to itself |
| DryrunTable.BuildFaultMeans | src/macho_probe.c:1486-1503 | The layout faults stay, an empty kernel range is one more, and a table that could not be built fails all six checks |
| DryrunTable.IdentityFields | src/macho_probe.c:1486-1495 | Every descriptor of the identity table gives full access, not execute-never, strongly ordered, domain 0 |
| SectionTheorems.VerifySlotMeans | src/macho_probe.c:1110-1132 | Reading a slot back succeeds exactly on the word index * 2^20 + flags |
| SectionTheorems.VerifySlotPaMeans | src/macho_probe.c:1232-1262 | Likewise for a slot mapped to another section |
| SectionTheorems.StoredUnmasked | src/macho_probe.c:1069-1074 | The stored flags are not masked |
| HighVaTable.HighVaExact | src/macho_probe.c:1764-1786 | From an empty table exactly the sections that hold a byte of the kernel range are translated, each address by the distance of the two base sections; every other address is unmapped |
| HighVaTable.HighVaFields | src/macho_probe.c:1783-1785 | Every descriptor gives full access, not execute-never, strongly ordered, domain 0 |
| HighVaTable.HighVaTranslates | src/macho_probe.c:1764-1786 | Every address of the kernel range, from its first section on, moves by that distance |
| LoadedTables.HighVaAgainstPlan | src/macho_probe.c:400-407 | For every accepted artifact: every byte of every planned segment is translated by the high-address table to its planned place plus the base address modulo 1 MiB |
| LoadedTables.HighVaAgreesExactly | src/macho_probe.c:1764-1786 | So table and plan agree on all of them exactly when the lowest address is section aligned |
| LoadedTables.HighVaMissesByAPage | src/macho_probe.c:1764-1786 | Concrete: an accepted artifact whose first byte is planned for the start of RAM and translated one page further |
| HighVaTable.EndsVerify | src/macho_probe.c:1787-1852 | Both ends read back and translate |
| HighVaTable.HighVa.Build | src/macho_probe.c:1764-1858 | The only failure is a missing range; otherwise the table translates exactly the sections of the kernel range, by the distance of the bases, with one set of attributes |
| HighVaTable.CheckEnds | src/macho_probe.c:1787-1852 | Raises the mapping bit exactly when an end slot is wrong and the translation bit exactly when an end translates elsewhere |
| HighVaTable.EndsMean | src/macho_probe.c:1787-1852 | On any table: both end slots hold the words of their places, and both ends are translated to their places |
| Workspace.WorkspaceSound | src/macho_probe.c:2999-3024 | For a planned image the workspace is approved exactly when the rounded image end leaves room for it; then the dry run of lines 1386-1435 raises nothing and image, both tables and scratch are ordered, disjoint, aligned, below the RAM console, and end where available memory starts |
| Workspace.ProposalMeans | src/macho_probe.c:2999-3024 | For any load bounds: where the workspace starts, the image ending at the plan end or, without one, 64 KB or the address span above the start of RAM; approved exactly when the image starts in RAM and there is room |
| Workspace.LayoutFaults | src/macho_probe.c:1386-1450 | For any proposal: range, alignment, overflow and overlap are each raised exactly when they hold, and the tables follow each other |
| LoadedTables.AcceptedWorkspace | src/macho_probe.c:2999-3024 | The same from an accepted artifact, with the image end the load plan computes, and every planned segment ending below the tables |
| LoadedTables.AcceptedDryrun | src/macho_probe.c:1386-1495 | And then the identity table is built without a fault |
| LoadedTables.AcceptedBounds | src/macho_probe.c:372-444 | What the plan of an accepted artifact says of its bounds and of each entry |
| Workspace.RangesOverlap | src/macho_probe.c:1050-1057 | Disjoint exactly when both ranges are non-empty and one ends before the other starts; an empty range counts as overlapping |
| DeviceTreeTheorems.RoundTrip | src/apple_dt.c:15-119 | For every capacity, a tree whose encoding fits finishes with the length of its encoding; skipping the root then returns exactly the end, and reading back gives the tree as stored. Otherwise it finishes with zero, up to the capacity 0xfffffffc |
| DeviceTreeTheorems.TruthfulExactly | src/apple_dt.c:28-35 | The reported length is right for every tree (its encoding, or zero when that does not fit) if and only if the capacity is at most 0xfffffffc |
| DeviceTreeTheorems.BrimfulIsReported | src/apple_dt.c:28-35 | For each larger capacity, a tree that does not fit and whose unpadded length is reported |
| DeviceTreeTheorems.StoredIsSame | src/apple_dt.c:54-67 | Storing changes nothing exactly when all names have at most 31 characters |
| DeviceTreeTheorems.BuildAppends | src/apple_dt.c:15-88 | From any aligned position and for every capacity, building appends exactly the encoding when it fits; when it does not, it fails, up to the capacity 0xfffffffc |
| DeviceTreeTheorems.StickyError | src/apple_dt.c:15-36 | After an error nothing is written and finish returns zero |
| DeviceTreeTheorems.ParseEncoded | src/apple_dt.c:90-119 | Anywhere in a buffer, an encoded tree is skipped exactly and read back |
| DeviceTreeTheorems.SkipAgreesWithParse | src/apple_dt.c:90-119 | The intended walk, with positions that do not wrap: on arbitrary bytes a node is skipped exactly when it can be read as a tree, to the same position |
| DeviceTreeTheorems.SkipStaysInside | src/apple_dt.c:90-119 | The intended walk from an aligned start towards an aligned end: a result is at least 8 past the start, aligned, and never past the end |
| DeviceTreeTheorems.UnalignedEndIsPassed | src/apple_dt.c:105-108 | Concrete: with an unaligned end the result can lie past it |
| DeviceTreeWrap.WalkExactly | src/apple_dt.c:90-119 | On arbitrary memory, with an end up to 0xfffffffc, the 32-bit walk (null tests included) passes the same tests and ends the same way as the intended one if and only if no sum it tests at a header wraps |
| DeviceTreeWrap.HeaderWrapsMeans | src/apple_dt.c:100-108 | For a tree below the last forty bytes of the address space that condition is: at no property header visited does the end of the value reach 2^32, the test the code lacks |
| DeviceTreeWrap.WalkIsTotal | src/apple_dt.c:90-119 | Under it the walk ends, whatever the counts, with nothing or at least 8 past the start and inside the buffer |
| DeviceTreeWrap.LoopNeverEnds | src/apple_dt.c:105-116 | Concrete: a 44-byte node whose length leads back to it is walked for ever, at every address and depth |
| DeviceTreeWrap.LoopComesBack | src/apple_dt.c:105-118 | Concrete: without children the walk of such a node arrives at its own start, which at address zero is the null pointer |
| DeviceTreeWrap.LoopIsRejected | src/apple_dt.c:105-107 | The intended walk rejects both |
| DeviceTreeWrap.LookupNeverEnds | src/apple_dt.c:160-177 | Concrete: looking for a child of that node never ends either |
| DeviceTreeSeek.FindChildFollows | src/apple_dt.c:151-180 | On arbitrary memory: when no sum on the way wraps (passing the properties by their lengths, the names read, the children before the one found), the child search ends and returns what the search over positions that do not wrap returns |
| DeviceTreeSeek.SeekChild | src/apple_dt.c:151-180 | And that lies behind the header of the node, with its own header inside the buffer, and has the name |
| DeviceTreeSeek.GetPropFollows | src/apple_dt.c:274-309 | On arbitrary memory: the property search on a node that does not wrap is the search over positions that do not wrap |
| DeviceTreeSeek.WrappedMayAgree | src/apple_dt.c:160-166 | The condition is not necessary for the result: a node whose properties wrap and whose lookup still ends as intended |
| DeviceTreeWrap.EncodedWalk | src/apple_dt.c:90-119 | Every written tree, at every address, is walked exactly to its end: nothing in it wraps |
| DeviceTree.SkipNode | src/apple_dt.c:90-119 | The intended walk: none, or a position at least 8 past the start and at most 3 past the end |
| DeviceTree.SkipProps | src/apple_dt.c:99-109 | The intended walk: every property passed takes at least 36 bytes |
| DeviceTree.SkipChildren | src/apple_dt.c:111-116 | The intended walk: every child passed takes at least 8 bytes |
| DeviceTreeLookup.NodeNameRefines | src/apple_dt.c:121-149 | A node has a name exactly when one of its non-empty "name" properties is that string |
| DeviceTreeLookup.FindChildRefines | src/apple_dt.c:151-180 | The child found is the first in sibling order with that name, or none when no child has it |
| DeviceTreeLookup.ChildAt | src/apple_dt.c:151-180 | What starts at the returned place is that child |
| DeviceTreeLookup.GetPropRefines | src/apple_dt.c:274-309 | The first property of that name, its exact length and bytes, or none |
| DeviceTreeLookup.GetU32Refines | src/apple_dt.c:333-341 | The first word of the value of the first property of that name, so a word written is the word read; absent or shorter values give the fallback |
| AppleDt.DtBuilder.constructor | src/apple_dt.c:37-44 | The buffer is taken over and cleared up to the capacity |
| AppleDt.DtBuilder.WriteBytes | src/apple_dt.c:15-26 | Appends when there is room, sets the flag otherwise; later bytes are untouched |
| AppleDt.DtBuilder.PadToWord | src/apple_dt.c:28-35 | Zeros up to the next word |
| AppleDt.DtBuilder.BeginNode | src/apple_dt.c:46-52 | The two counts |
| AppleDt.DtBuilder.Property | src/apple_dt.c:54-67 | Name field, length, value, padding |
| AppleDt.DtBuilder.MakeName | src/apple_dt.c:58-63 | At most 31 characters in 32 zeroed bytes |
| AppleDt.DtBuilder.PropertyString | src/apple_dt.c:69-72 | The value with its terminator |
| AppleDt.DtBuilder.PropertyU32 | src/apple_dt.c:74-77 | The value as four little-endian bytes |
| AppleDt.DtBuilder.FinishTree | src/apple_dt.c:84-88 | Padding, then the length or zero |
| AppleDt.SkipNodeBytes | src/apple_dt.c:90-119 | On arbitrary memory and with 32-bit pointers the walker ends as specified, address zero being the null pointer, or is still running when the recursion reaches the given depth |
| AppleDt.NodeHasNameBytes | src/apple_dt.c:121-149 | The name search equals the specified one, pointer wrap included |
| AppleDt.FindChildByName | src/apple_dt.c:151-180 | The child search equals the specified one, pointer wrap, null pointers and untested value ends included |
| AppleDt.GetProperty | src/apple_dt.c:274-309 | The property search equals the specified one, pointer wrap and a value at the null pointer included |
| AppleDt.GetU32Property | src/apple_dt.c:333-341 | The word lookup equals the specified one: the fallback for a null pointer or a short value |
| AppleDt.StringEquals | src/runtime.c:31-38 | The comparison succeeds exactly when the key and its terminator stand at the address, wherever it runs |
| Runtime.MemSet | src/runtime.c:3-10 | Fills the range and nothing else |
| Runtime.MemCpy | src/runtime.c:12-20 | Copies into the range and nothing else |
| Irq.CountsFollow | src/gic.c:244-325 | Over every run each counter grows by the number of handled interrupts of its kind, and samples by all of them, modulo 2^32 |
| Irq.AccountingBalances | src/gic.c:244-344 | Since a reset the total equals the sum of the four kinds and the sample count |
| Irq.RingIsRecent | src/gic.c:257-265 | The ring holds exactly the latest sixteen addresses at their index modulo sixteen, also across counter wrap |
| Irq.EndsEachOnce | src/gic.c:286-325 | Each handled interrupt that is not spurious is ended once, in order and with its own value, the firing one included; a spurious one never |
| Irq.WatchdogFiresExactly | src/gic.c:275-307 | The watchdog fires exactly at the timer interrupt that uses up the budget, never earlier; before that every timer interrupt leaves the timer enabled with the same interval, and other interrupts change neither |
| HandlerTheorems.KindByNumber | src/gic.c:247-248 | The kind of an interrupt is decided by the low ten bits of what was acknowledged: 0, 18 or 19, 1023, any other |
| HandlerTheorems.BitByNumber | src/gic.c:454-474 | The enable bits of the two timer interrupts stand at their interrupt numbers |
| HandlerTheorems.NormalTimerStops | src/gic.c:299-302 | Outside sampling mode a timer interrupt clears the enable bit, sets the mask bit, and leaves every other bit, the interval, the CPU mask and the budget alone |
| HandlerTheorems.NormalRunStops | src/gic.c:268-302 | Over every run outside sampling mode: every interrupt is handled, and after the first timer interrupt the timer is stopped and stays so |
| HandlerTheorems.SamplingTimerStep | src/gic.c:273-298 | In sampling mode: one sample used and the next window opened, or at the budget the timer stopped, interrupts masked and the machine rebooted |
| HandlerTheorems.OthersLeaveTheTimer | src/gic.c:266-307 | An interrupt of another kind changes neither timer, mask nor budget |
| HandlerTheorems.NoteStep | src/gic.c:252-272 | What one interrupt leaves in the record, with the timer control read on entry |
| HandlerTheorems.LastFollows | src/gic.c:252-272 | After a run the record names the last interrupt handled, its address, and the last timer interrupt among those handled |
| HandlerTheorems.ShutdownStops | src/gic.c:157-164 | Stopping clears the enable bit, sets the mask bit and keeps all others |
| Gic.ArmedRunFires | src/gic.c:519-559 | From a freshly armed state a run ends in a reboot exactly when it has max(1, N) timer interrupts, with balanced accounts and the right ring throughout |
| Gic.Controller.Handler | src/gic.c:244-325 | The handler changes the globals and registers exactly as one step of the machine, whose meaning the rows on single interrupts and runs give |
| Gic.Controller.SampleWindow | src/gic.c:275-307 | Re-arm, or stop, mask, end and reboot |
| Gic.Controller.RecordSample | src/gic.c:257-265 | One sample |
| Gic.Controller.TimerShutdown | src/gic.c:157-164 | Mask set, enable cleared, other bits kept |
| Gic.Controller.ResetIrqCounters | src/gic.c:327-344 | Counters, last values, ring and used budget are reset; everything else is kept |
| Gic.Controller.Arm | src/gic.c:519-559 | Success exactly with both bases known, and then an armed state with a full budget; failure leaves the timer stopped and interrupts masked |
| Gic.Controller.Stop | src/gic.c:561-567 | Masked, stopped, sampling mode off |
| Gic.Controller.DisarmTimer | src/gic.c:630-668 | Success leaves all three levels off; failure changes nothing |
| Gic.Controller.BorrowTimerEnables | src/gic.c:421-455 | Both timer interrupts are enabled, and the word before is kept |
| Gic.Controller.ReturnTimerEnables | src/gic.c:473-477 | And put back |
| Gic.Controller.TimerSelftest | src/gic.c:416-506 | For any interrupts that arrive in the window: the selftest passes exactly when a controller is there and switched on and one of them is a timer interrupt; in the window both enable bits are set and the timer runs, afterwards the timer is stopped, interrupts are masked, the enable word is as before, and counters and ends of interrupt are those of the window |
| Disarm.DisarmIsFinal | src/gic.c:606-668 | After a disarm no run of ticks, latches, masks, unmasks and register writes delivers either timer interrupt unless it both re-arms the timer and re-enables it at the distributor |
| Disarm.LeaksUnlessDisarmed | src/gic.c:606-668 | Exactness: a machine is safe in that sense if and only if all three levels are off, so none can be left out |
| Disarm.BothWakeIt | src/gic.c:519-559 | Re-arming and re-enabling together do bring the interrupt back from every disarmed state |
| Disarm.EnablesRestored | src/gic.c:473-477 | Setting the two bits and clearing those that were clear restores every 32-bit word |
| Timebase.DeltaToUsExact | src/timebase.c:66-84 | The split product is floor(5d/96) for all 2^32 deltas and no intermediate result wraps |
| Timebase.ElapsedUsExact | src/timebase.c:66-72 | On a clock that does not run backwards the elapsed microseconds are exact if and only if the difference fits a word |
| Timebase.UsecToTicksExact | src/timebase.c:86-91 | The conversion is floor(96u/5) modulo 2^32, hence exact if and only if u is at most 223696213 |
| Timebase.TicksWrapJustAbove | src/timebase.c:86-91 | Concrete: 223696214 microseconds become twelve ticks |
| Timebase.ThereAndBack | src/timebase.c:66-91 | There and back is the identity on multiples of five and one less otherwise |
| Timebase.DelayUs | src/timebase.c:93-100 | The loop leaves at the first later reading that is far enough from the start |
| Timebase.DelayNeverEarly | src/timebase.c:93-100 | On a monotone clock it never returns before the target |
| Timebase.DelayOnTime | src/timebase.c:93-100 | With poll gaps of at most 2^32 minus the target it returns at the first poll that has reached it |
| Exclusive.Cpu.ProbeRunInto | src/exclusive_probe.c:136-275 | With the reservation as state, for every monitor: every field of the report is decided by what the monitor does and what is lost from outside; usable exactly when the first load read the word, the undisturbed pair kept its reservation, and the monitor is guarded and drops its reservation on CLREX or lost it there; the tests run with interrupts masked and the mask is put back |
| Exclusive.Cpu.PairTests | src/exclusive_probe.c:175-221 | The four pairs succeed exactly as the reservation survives the plain store, the CLREX, the store elsewhere and outside events |
| Exclusive.Cpu.Strex | src/exclusive_probe.c:83-94 | A store-exclusive lands exactly with a reservation or on an unguarded monitor, reports so, and leaves none |
| Exclusive.Cpu.CountLoop | src/exclusive_probe.c:223-238 | The counting loop |
| Exclusive.Cpu.RunDcache | src/exclusive_probe.c:341-455 | The probe runs exactly when the MMU is on, the slot is free and the carve-out reads back; it then runs with the mapping in the table, the coherency bit and the cache bit set, and every exit leaves the table, both control registers and the interrupt mask as on entry |
| Exclusive.CarveOutTranslates | src/exclusive_probe.c:375-380 | With that mapping every address of the carve-out section is translated to itself |
| Exclusive.LandedCounts | src/exclusive_probe.c:223-238 | The final count is the number of landing stores |
| Exclusive.LandedExtremes | src/exclusive_probe.c:223-238 | Full exactly when all land, zero exactly when none does |
| Cache.DecodeGeometry | src/cache_ops.c:67-78 | The three fields are in range and together are the register word below bit 28 |
| Cache.Log2 | src/cache_ops.c:80-88 | The loop computes the rounded-down logarithm |
| Cache.Log2Brackets | src/cache_ops.c:80-88 | Which brackets the value between two powers of two |
| Cache.WayBits | src/cache_ops.c:99-104 | The width of the way field at the top of the operand: the least number of bits that holds all ways |
| Cache.OperandDecodes | src/cache_ops.c:111-115 | With ways within the power of two every operand decodes to its own way and set |
| Cache.DistinctExactly | src/cache_ops.c:106-120 | All operands differ if and only if the number of ways is a power of two |
| Cache.ShiftedTooFar | src/cache_ops.c:111-115 | The operand of a way, read with a field one bit wider, is that of twice the way modulo the lower power of two |
| Cache.OperationReaches | src/cache_ops.c:111-115 | What one operation reaches: its own way when the ways are a power of two, and otherwise an even one |
| Cache.CleanedExactly | src/cache_ops.c:106-120 | The sweep cleans a way and set if and only if the number of ways is a power of two or the way is even |
| Cache.SweepCoversExactly | src/cache_ops.c:106-120 | The sweep cleans every way and set if and only if the number of ways is a power of two |
| Cache.WayWraps | src/cache_ops.c:111-115 | The operands of the way just past the last power of two are those of way zero |
| Cache.ThreeWaysMissOne | src/cache_ops.c:111-115 | Concrete: of three ways the sweep reaches 0, 2 and 0, so way 1 is never cleaned |
| Cache.CleanInvalidateAll | src/cache_ops.c:106-120 | The nested loop issues ways times sets operands, each at its place |
| Cache.SweepCoversOnce | src/cache_ops.c:106-120 | For a power-of-two geometry they decode to every way and set once |
| Cache.CleanRange | src/cache_ops.c:124-134 | The loop visits exactly the lines from that of the start below the end, once each and in order, whenever it ends |
| Cache.VisitsTouchedExactly | src/cache_ops.c:124-134 | When the loop over a non-empty range ends, the lines visited are exactly those holding a byte of it if and only if the range does not wrap |
| Cache.TopLineMissed | src/cache_ops.c:124-134 | Of a wrapping range the topmost line is touched and not visited |
| Cache.WrappingVisitsOne | src/cache_ops.c:124-134 | And at most the line of its first byte is visited |
| Cache.RangeEndsExactly | src/cache_ops.c:126-130 | The loop ends if and only if the wrapped end is no later than the start of the topmost line |
| Cache.TopLineNeverEnds | src/cache_ops.c:126-130 | Concrete: cleaning the last sixteen bytes of the address space never ends |

## Left out

- Staging.Stager.VerifyMarker: a text that would run past the end of the arena counts as a mismatch; the code would read on behind it.
- MachoProbe.ProbeResult.Run: does not carry the artifact's base address, version numbers, required-mask copies and values kept only for logging; the flat result fields are grouped into records and the fixed entry array is a sequence.
- Staging.Stager.VerifyZeroFill: the required and checked slots are sets of indices instead of bits of a word, and of the reparse only the compared values are kept.
- Staging.Stager.Prepare: link-time addresses of arena and artifact are parameters; the alias test is a parameterised predicate.
- DryrunTable.Dryrun.BuildIdentity: the arena is words whose bytes are derived; satisfied masks, case counts, stored observed words, the boot-policy masks, the copy into the safe table and the arena-alias tests are not modelled.
- HighVaTable.HighVa.Build: the observed words are not added to the folds of the identity part, nor those judged again.
- AppleDt.DtBuilder.WriteBytes: requires position plus length below 2^32, which holds because source and buffer are separate objects in one 32-bit address space; so do the methods that call it.
- DeviceTree.SkipNode: the intended walk, on positions that do not wrap; the code's own walk is DeviceTreeWalk.WalkNode, and DeviceTreeWrap.WalkExactly says when the two are one.
- DeviceTree.SkipProps: part of the intended walk, likewise.
- DeviceTree.SkipChildren: part of the intended walk, likewise.
- DeviceTreeTheorems.SkipAgreesWithParse: about the intended walk, likewise.
- DeviceTreeTheorems.SkipStaysInside: about the intended walk, likewise; DeviceTreeWrap.WalkIsTotal is its counterpart for the 32-bit one.
- DeviceTreeWrap.WalkExactly: for ends up to 0xfffffffc, so for every 4-aligned one; with the last three ends a wrapped pointer can be zero, where the null test stops the walk as the intended one stops, so a wrap need not show. The other theorems about the 32-bit walk and the child search have the same bound.
- DeviceTreeSeek.FindChildFollows: one direction only, since a search in which a sum wraps can have the same result (DeviceTreeSeek.WrappedMayAgree).
- AppleDt.GetProperty: a found value at the null pointer is none; the length that the code still stores for it is dropped. Starting at the root for a null node is left to the caller.
- AppleDt.SkipNodeBytes: recursion is cut at a depth and then reported as still running, where the code would exhaust its stack; unaligned word loads are taken byte by byte. The lookup theorems take written trees whose "name" values hold a terminator.
- Timebase.DelayUs: the clock is the finite sequence of values the polls return.
- Exclusive.Cpu.ProbeRunInto: the first load may return anything, later loads return the word; the reservation has no address granule, and which store drops it is given by an arbitrary function instead.
- Exclusive.Cpu.RunDcache: the readback through the new mapping is a parameter; barriers, TLB and line maintenance are erased.
- Cache.CleanInvalidateAll: at least two ways; with one way the C shift count is 32, which the language leaves undefined. The register reads are parameters.
- Cache.CleanRange: called only where the loop ends; `RangeEndsExactly` gives that condition.
- Gic.Controller.TimerSelftest: called outside sampling mode, as the payload does; the two control registers and the interrupts of the window are parameters, and the values it only logs or copies for observation are not kept. The software-interrupt selftest and the snapshots are not modelled. A reboot is a terminal state.
- Disarm.DisarmIsFinal: a step model of the timer line, the distributor's pending and enable bits and the CPU mask; priorities, targets and active state are not modelled, and other interrupts appear only as their pending bits.
- The device-tree selftest, child and property counts, array properties (`apple_dt_prop_u32_array`), and the semantic mask of the preflight: constant checks and loops over what the lookups above already give.
- The remaining preflight roll-up and the record checksums: status copying over records whose code is elsewhere.
- Console logging, boot-argument parsing, the hardware watchdog, the platform state record and the build scripts.
