# DFIR-ORC command cores, verified

DFIR-ORC is a collection of forensic commands for Windows. Most of each command is
plumbing around the system; inside are small algorithms and protocols whose results
matter for what is collected. This project models those cores in Dafny, in the form the
source gives them (classes with fields that methods update, buffers cut in place, loops),
and proves what they are for, over every input and every run.

| file | core |
|---|---|
| `SlackSpace.dfy` | GetSectors: plan which parts of a disk no partition and no earlier chunk uses |
| `SectorReader.dfy` | GetSectors: read a chunk sector by sector |
| `VolumeAccess.dfy` | GetSectors: find a mounted volume to read through |
| `SampleLimits.dfy`, `SampleNaming.dfy`, `SampleKeys.dfy`, `SampleCollection.dfy` | GetThis: collect samples once each, under unique names, within limits |
| `SampleRefusal.dfy` | GetThis: whether a size once refused stays refused |
| `MultipleOutput.dfy` | the life of the writers of a command with several outputs, and of the archive agent |
| `WolfExecution.dfy` | WolfLauncher: send commands, route notifications to their tasks |
| `ToolEmbed.dfy` | dump embedded resources as an element tree and read it back |
| `ImportData.dfy` | round-robin dispatch of import items |
| `BlockCopy.dfy` | DD: block copy with optional error skipping |
| `RegInfo.dfy` | column-list parsing, row shape and value cells |
| `FilterExtensions.dfy` | splitting a list of file extensions in place |
| `CommaList.dfy`, `AsciiCase.dfy`, `Decimal.dfy`, `Windows.dfy` | shared: lists, letter case, decimal printing, unsigned widths and result codes |

Each state-changing method is tied to a function of the old state, and the theorems are
about those functions: `SlackSpace.Main.DumpSlackSpace` appends `Dumped(…)`, and
`DumpedChunksArePlan`, `CoversDiskIff` and `SecondRunEmptyIff` say what `Dumped` is.
Unsigned 32-bit and 64-bit arithmetic is written out (`Low32`, `Low64`) where the source
can wrap or truncate.

## Where the code and its intent differ

The model follows the code. Where a promise one would expect fails, a lemma shows an input for
which it does, and another says exactly when it holds, or exactly what happens instead.

- Slack space: a gap of 2^32 bytes or more is cut to its low 32 bits before the cap is applied
  (`GapOfTwoTo32IsLost`, `CoversDiskIff`), and a zero-size partition or chunk in free space splits one
  free run into two chunks (`EmptyLocationSplitsFreeRun`, `MaximalFreeIsGapIff`).
- Sector reads: rounding a size up to 2^32 gives 0 (`LargestSizeRoundsToNothing`,
  `AlignedFaultFreeCoversIff`), and an unaligned offset is rounded down without lengthening the request, so
  its tail may be missing (`UnalignedTailIsMissing`, `FaultFreeCoversIff`).
- Sample limits: the total is compared after a 64-bit sum that can wrap, so a size near 2^64 is accepted
  where a smaller one is refused (`WrappedSumIsAccepted`, on a run). In the runs from the configured limits over
  files of at most some size, a refusal lasts for that size if and only if the maxima refuse it outright or keep the
  samples of the specification from wrapping a total (`RefusalLastsIff`): either too small a total or too small a
  count does. With several specifications and a global total that such a file can wrap, `RefusalLasts`,
  `RefusalLifted` and `RefusalLiftedByOther` give one direction each. `RefusalPersistsIff` is about all accumulators
  within the maxima, reached by a run or not. INFINITE is 2^32 - 1 for the 64-bit maxima too.
- Sample collection: every attribute of a match is collected under the status of its first one
  (`FirstAttributeDecides`), and a match counts as one sample of that attribute's size, if its last attribute is
  new (`MatchAddsFresh`, `SecondAttributeEscapesTheLimit`). When the accounting nevertheless matches what is kept
  is stated for one match and for a run (`AccurateAfterIff`, `RunAccurateIff`).
- `SampleRef`: a reference without a match is equivalent to all others, so the order is one only among
  references with matches (`EmptyRefBreaksTheOrder`).
- `MultipleOutput`: an exception from a callback ends the walk and leaves later Directory or Archive writers
  open (`ThrowLeavesWriterOpen`, `AllClosedOnceIff`); so does a writer that cannot be created with those before
  it (`FailedCreationStaysOpen`). `CloseAll` sends a completion request on every call (`LifeEvents` counts them).
- Wolf: a command whose keyword is already known is logged as ignored, but is sent all the same
  (`RepeatIsSent`, `RepeatsIgnoredIff`).
- DD: the offset kept for error recovery starts at the number of skipped *blocks*, while the copy starts at
  their bytes, so copying resumes at the wrong place after an error (`ResumesAtTheWrongPlace`,
  `CopyIsIdealIff`); a short last block is written with the stale tail of the buffer (`StaleTailIsWritten`,
  `FaultFreeCopy`); `seek` moves the input, never an output.
- RegInfo: a column list of more than 258 characters loses what does not fit, last token included
  (`LastTokenIsLost`, `LongListIff`); without the value column, a value row ends two cells early
  (`WriteValueRow`); a value with forbidden characters is dumped to a file even if the dump column is not
  wanted; PRESENT does not mean a non-empty cell, since other value types are not printed.
- Extension lists: the caller's list is cut at its first comma afterwards (`CutLeavesFirst`).

## Model

| member | source | states |
|---|---|---|
| SlackSpace.SweepIsPlan | src/OrcCommand/GetSectors_Run.cpp:978-1004 | over any non-inverted list sorted by start, the `farthestEnd` sweep yields exactly one chunk per gap between used locations, with strictly increasing offsets and the 32-bit, capped size of its gap |
| SlackSpace.PlanUnique | src/OrcCommand/GetSectors_Run.cpp:978-1004 | a set of used locations has only one plan, so the declarative description determines the chunks |
| SlackSpace.PlanIgnoresOrder | src/OrcCommand/GetSectors_Run.cpp:978-1004 | two start-sorted lists with the same set of locations, whatever their order among equal starts and their repetitions, give the same chunks |
| SlackSpace.DumpedChunksArePlan | src/OrcCommand/GetSectors_Run.cpp:973-1004 | what one run adds is the plan of the used set, for every start-sorted permutation an unstable sort may leave |
| SlackSpace.PlanIsSafe | src/OrcCommand/GetSectors_Run.cpp:984-1001 | planned chunks are pairwise disjoint, end within the disk, and hold no byte of a used location |
| SlackSpace.DumpedIsSlack | src/OrcCommand/GetSectors_Run.cpp:947-1004 | for any chunks and partitions on the disk, the dumped chunks hold only bytes of the disk that lie in no earlier chunk and no non-extended partition, and all of these if and only if no gap is cut |
| SlackSpace.UsedIs | src/OrcCommand/GetSectors_Run.cpp:947-976 | the swept list holds exactly the extents of the earlier chunks and of the non-extended partitions, and the end of the disk |
| SlackSpace.GapPrefixDumped | src/OrcCommand/GetSectors_Run.cpp:989-996 | of every gap exactly the first bytes are dumped, as many as the low 32 bits of its size tell and the cap allows |
| SlackSpace.FreeByteInGap | src/OrcCommand/GetSectors_Run.cpp:978-1004 | every unused byte of the disk lies in some gap |
| SlackSpace.CoversDiskIff | src/OrcCommand/GetSectors_Run.cpp:987-997 | used locations and chunks cover every byte of the disk if and only if every gap is below 2^32 and within the cap |
| SlackSpace.GapOfTwoTo32IsLost | src/OrcCommand/GetSectors_Run.cpp:989-996 | an unused disk of 2^32 bytes, whose only gap is dumped as a chunk of size 0 |
| SlackSpace.MaximalFreeIsGapIff | src/OrcCommand/GetSectors_Run.cpp:978-1004 | gaps are exactly the maximal free intervals if and only if no empty location lies between two free bytes |
| SlackSpace.EmptyLocationSplitsFreeRun | src/OrcCommand/GetSectors_Run.cpp:978-1004 | a concrete disk whose single free interval is dumped as two chunks because of a zero-size location |
| SlackSpace.UsedWellFormed | src/OrcCommand/GetSectors_Run.cpp:947-976 | chunks and partitions that start on the disk and fit 64 bits give well-formed used locations, whatever their overlaps |
| SlackSpace.SecondRunEmptyIff | src/OrcCommand/GetSectors_Run.cpp:947-1004 | a second run over the grown list of dumped chunks adds nothing if and only if the first one cut no gap |
| SlackSpace.Main.CollectUsed | src/OrcCommand/GetSectors_Run.cpp:947-963 | the used locations are those of the dumped chunks, then those of the non-extended partitions, with 64-bit ends |
| SlackSpace.Main.SweepUsed | src/OrcCommand/GetSectors_Run.cpp:978-1004 | the loop appends exactly the sweep of the list and keeps the chunks already there |
| SlackSpace.Main.DumpSlackSpace | src/OrcCommand/GetSectors_Run.cpp:924-1006 | the whole command: a failing table or disk, or an empty table, leaves the chunks alone; otherwise chunks are appended that hold only bytes of the disk outside earlier chunks and non-extended partitions, and all of these if and only if no gap is cut |
| SectorReader.RunBytesIsLongest | src/OrcCommand/GetSectors_Run.cpp:330-348 | the number of bytes read is the longest run of sectors that can all be read and sought, in both directions |
| SectorReader.ReadingIsLongestRun | src/OrcCommand/GetSectors_Run.cpp:281-386 | a sector-by-sector read gives exactly the disk bytes from the sector-floored offset, for the longest run within the rounded and clamped request, never past the end of the disk |
| SectorReader.FaultFreeCoversIff | src/OrcCommand/GetSectors_Run.cpp:281-307 | without faults, the requested bytes that exist are all read if and only if the rounded size makes up for the floored offset or reaches the end of the disk |
| SectorReader.UnalignedTailIsMissing | src/OrcCommand/GetSectors_Run.cpp:281-307 | a concrete unaligned request whose last byte is not read although the disk has it |
| SectorReader.AlignedFaultFreeCoversIff | src/OrcCommand/GetSectors_Run.cpp:287-307 | an aligned fault-free request is fully covered if and only if its size is at most 2^32 minus a sector |
| SectorReader.RoundUpIsSector | src/OrcCommand/GetSectors_Run.cpp:287-291 | the rounded size is the least multiple of the sector not below the size, except that 2^32 becomes 0 |
| SectorReader.LargestSizeRoundsToNothing | src/OrcCommand/GetSectors_Run.cpp:287-291 | the largest DWORD size rounds up to 0 |
| SectorReader.ReadSectors | src/OrcCommand/GetSectors_Run.cpp:330-348 | the loop ends with the disk bytes of the longest run in the buffer, whether or not the device moves its own pointer |
| SectorReader.ReadSector | src/OrcCommand/GetSectors_Run.cpp:335-346 | one sector is appended to what was read and the pointer sought past it, or the attempt fails |
| SectorReader.DiskChunk.Read | src/OrcCommand/GetSectors_Run.cpp:247-389 | every outcome of reading a chunk: already read, device not opened, geometry unknown, beyond the disk, or the reading of the rounded request |
| SectorReader.DiskChunk.Fill | src/OrcCommand/GetSectors_Run.cpp:307-386 | the buffer holds the longest run in sector mode; in one piece it holds everything or nothing |
| SectorReader.OnePieceIsAllOrNothing | src/OrcCommand/GetSectors_Run.cpp:349-363 | in one piece, the whole rounded and clamped request is read, or nothing and an error, if and only if it can be sought and no byte of it is bad |
| SectorReader.FailedReading | src/OrcCommand/GetSectors_Run.cpp:281-325 | beyond the disk, or where the first sector cannot be sought, nothing is read and the chunk keeps the rounded request |
| SectorReader.UnsignedOffsetReadsNothing | src/OrcCommand/GetSectors_Run.cpp:309-312 | an offset beyond a signed 64-bit number reads nothing and reports no error |
| VolumeAccess.ReadAtVolumeLevel | src/OrcCommand/GetSectors_Run.cpp:428-497 | access is granted if and only if some volume has a mounted location after a raw one that places the offset in it; it is through the first such volume, relative to its start |
| VolumeAccess.AccessIn | src/OrcCommand/GetSectors_Run.cpp:449-491 | within a volume, the first location that places the offset and the first mounted one after it are chosen, or there is none |
| VolumeAccess.PlacesIff | src/OrcCommand/GetSectors_Run.cpp:477-480 | a location places an offset if and only if it is on that disk and the offset lies inside it, past its first byte |
| VolumeAccess.AccessIsInside | src/OrcCommand/GetSectors_Run.cpp:461-474 | the offset of an access is inside the volume, as far from its start as the offset on the disk |
| SampleLimits.AccountKeepsBounds | src/OrcCommand/GetThis_Run.cpp:423-456 | accounting for a sample within limits keeps both accumulators at or below their maxima |
| SampleLimits.AcceptsIff | src/OrcCommand/GetThis_Run.cpp:423-456 | a sample is accepted if and only if limits are ignored, or both counts are short of their maxima, its size is at most both maxima, and both 64-bit totals are |
| SampleLimits.StatusIsFirst | src/OrcCommand/GetThis_Run.cpp:423-456 | the status names the first limit that refuses: counts first, then global sizes and totals, then local ones |
| SampleLimits.RefusalPersistsIff | src/OrcCommand/GetThis_Run.cpp:423-456 | over all accumulators within the maxima, the refusal of a size carries over to a larger one in every later state if and only if some maximum refuses the larger size outright, or it can wrap neither total |
| SampleLimits.NeverTakesIff | src/OrcCommand/GetThis_Run.cpp:423-456 | maxima refuse a size outright if and only if no accumulators within them let it through |
| SampleLimits.RefusalMonotone | src/OrcCommand/GetThis_Run.cpp:423-456 | refusal is monotone in the size and in the accumulators while no limited sum can wrap |
| Decimal.PrintInjective | src/OrcCommand/GetThis_Run.cpp:215-260 | different indices print differently |
| Decimal.PrintPaddedInjective | src/OrcCommand/UtilitiesMain.h:244-250 | different indices print differently when padded with zeros |
| SampleNaming.CandidatesDistinct | src/OrcCommand/GetThis_Run.cpp:215-303 | names tried for distinct non-zero indices are distinct, sanitizing included |
| SampleNaming.SampleNameIs | src/OrcCommand/GetThis_Run.cpp:197-293 | what a name holds at every attempt: the parent reference, the file, its stream, the index from the second attempt on, and the kind of content |
| SampleNaming.ReferenceReads | src/OrcCommand/GetThis_Run.cpp:215-293 | the sixteen digits of the parent reference read as its sequence number, high part and low part |
| SampleNaming.SanitizedIs | src/OrcCommand/GetThis_Run.cpp:298-301 | white space, colons and hash signs become underscores, and nothing else changes |
| SampleNaming.CandidateIs | src/OrcCommand/GetThis_Run.cpp:667-671 | a name stands in the directory of its specification, if that has a name |
| SampleNaming.Pigeonhole | src/OrcCommand/GetThis_Run.cpp:657-677 | if the first n non-zero candidates are all taken, at least n names are |
| SampleNaming.FirstFree | src/OrcCommand/GetThis_Run.cpp:657-677 | a free name exists at an index of at most the number of names in use plus one, and every earlier candidate is taken |
| SampleNaming.FindUniqueName | src/OrcCommand/GetThis_Run.cpp:657-677 | the search terminates with the first free candidate after at most the number of names plus two tries |
| SampleKeys.MemcmpOrder | src/OrcCommand/GetThis.h:238-240 | the byte comparison is antisymmetric and 0 only on equal bytes |
| SampleKeys.MemcmpTransitive | src/OrcCommand/GetThis.h:238-240 | the byte comparison is transitive, strictly if either step is strict |
| SampleKeys.LessIsStrictWeakOrder | src/OrcCommand/GetThis.h:222-249 | among references with matches, the comparison is a strict weak order whose equivalence is equality of volume, snapshot, low reference part and instance |
| SampleKeys.LessIsLexicographic | src/OrcCommand/GetThis.h:222-249 | the comparison is the lexicographic order of volume, snapshot parts and bytes, low reference part and instance |
| SampleKeys.EmptyRefBreaksTheOrder | src/OrcCommand/GetThis.h:222-249 | with a reference without matches, equivalence is not transitive |
| SampleKeys.InsertOrdered | src/OrcCommand/GetThis_Run.cpp:685 | inserting keeps the samples strictly ordered by key |
| SampleKeys.InsertMembers | src/OrcCommand/GetThis_Run.cpp:685 | inserting drops nothing, adds nothing else, and adds the sample unless an equivalent one is there |
| SampleCollection.RunSound | src/OrcCommand/GetThis_Run.cpp:597-691 | in every run, samples stay ordered by key, and distinct named samples have distinct names, all among the names in use |
| SampleCollection.RunExtends | src/OrcCommand/GetThis_Run.cpp:636-685 | in every run, a collected sample is never dropped or altered: the first with a key wins and its off-limits mark never changes |
| SampleCollection.AddAgainIsNoOp | src/OrcCommand/GetThis_Run.cpp:597-691 | adding a non-empty match again, under any status and specification, changes nothing and returns S_FALSE |
| SampleCollection.NamedUnlessMissing | src/OrcCommand/GetThis_Run.cpp:650-679 | a sample is left without a name if and only if its match has no name, or one without a file name in last place |
| SampleCollection.NamesTaken | src/OrcCommand/GetThis_Run.cpp:650-679 | each name of the file takes a name of its own that was free |
| SampleCollection.OnlyNamesTaken | src/OrcCommand/GetThis_Run.cpp:650-679 | nothing else is taken but, for a missing file name, the empty name |
| SampleCollection.RunInvariant | src/OrcCommand/GetThis_Run.cpp:955-1068 | whatever each attribute of each match preserves, the run preserves |
| SampleCollection.StepAttributeLimits | src/OrcCommand/GetThis_Run.cpp:981-1062 | one attribute is accounted for once globally and once for its own specification if it is within limits and new, and in no other case; other specifications do not change |
| SampleCollection.RunWithinLimits | src/OrcCommand/GetThis_Run.cpp:981-1013 | over every run with limits enabled, every global and per-specification accumulator stays at or below its maximum, even where sums wrap |
| SampleCollection.RunBalanced | src/OrcCommand/GetThis_Run.cpp:1007-1011 | over every run, the global accumulators equal the sums over the specifications, modulo their widths |
| SampleCollection.RunConfiguration | src/OrcCommand/GetThis_Run.cpp:981-1062 | no run changes a maximum |
| SampleCollection.RunLater | src/OrcCommand/GetThis_Run.cpp:981-1013 | over every run whose sizes cannot wrap the totals concerned, the limited accumulators of a specification and the global ones do not decrease |
| SampleCollection.RefusalPersists | src/OrcCommand/GetThis_Run.cpp:981-1013 | a size refused for a specification stays refused for it, and so does every larger one, however the run goes on |
| SampleRefusal.RefusalLastsIff | src/OrcCommand/GetThis_Run.cpp:981-1013 | from accumulators at 0, over all runs of files of at most some size, a refusal lasts for that size if and only if the maxima refuse it outright, or some total or count keeps the samples of the specification from wrapping a limited total; with several specifications, where no such file can wrap the global total |
| SampleRefusal.RefusalLasts | src/OrcCommand/GetThis_Run.cpp:981-1013 | the sufficient half for any number of specifications, as long as none can wrap the global total |
| SampleRefusal.RefusalLifted | src/OrcCommand/GetThis_Run.cpp:981-1013 | the necessary half for any number of specifications: files of at most that size fill the total up to where a smaller size is refused and this one is taken |
| SampleRefusal.RefusalLiftedByOther | src/OrcCommand/GetThis_Run.cpp:981-1013 | samples of another specification that can fill the global total lift a refusal in the same way |
| SampleRefusal.SameSizeLastsIff | src/OrcCommand/GetThis_Run.cpp:981-1013 | without limits on counts, the refusal of a size lasts for that very size under the same condition; otherwise one file of a single byte lifts it |
| SampleRefusal.FilesHold | src/OrcCommand/GetThis_Run.cpp:955-1068 | files for which the limits have room are all collected and counted, one sample and its size each |
| SampleRefusal.RunKept | src/OrcCommand/GetThis_Run.cpp:981-1013 | over every run of files of at most some size, totals are at most the count times the size where counts are limited; and where no total can wrap, no limited accumulator decreases before a count is reached |
| SampleRefusal.WrappedSumIsAccepted | src/OrcCommand/GetThis_Run.cpp:440-452 | a run over one file of 100 bytes, under a limit of 100, after which 1 byte is refused and 2^64 - 100 bytes, refused before, are accepted |
| SampleCollection.RefusalIsExplained | src/OrcCommand/GetThis_Run.cpp:1015-1062 | a refusal leaves a mark on the limits whose maximum it would pass |
| SampleCollection.OneMarkAdded | src/OrcCommand/GetThis_Run.cpp:1015-1062 | a refusal adds exactly the mark its status names, to the global limits or those of the specification, and nothing else marks |
| SampleCollection.RunTruthful | src/OrcCommand/GetThis_Run.cpp:1015-1062 | over every run, a mark on a count means that the count is at its maximum, and no mark stands without a maximum |
| SampleCollection.RunCountCovered | src/OrcCommand/GetThis_Run.cpp:981-1013 | with any number of attributes, the accumulated count never exceeds the number of in-limit samples |
| SampleCollection.RunAccurate | src/OrcCommand/GetThis_Run.cpp:981-1013 | with one attribute per match, accumulated count and bytes are the number and total size of the in-limit samples |
| SampleCollection.FirstAttributeDecides | src/OrcCommand/GetThis_Run.cpp:981-1013 | a match is collected entirely under the status of its first attribute, and at most that one is counted |
| SampleCollection.NewMatchKeptWhole | src/OrcCommand/GetThis_Run.cpp:981-1013 | a new match whose first attribute is within limits is kept whole, all its sizes together, while one sample of the first size is accounted for |
| SampleCollection.MatchAddsFresh | src/OrcCommand/GetThis_Run.cpp:981-1013 | a match within limits adds exactly its attributes whose key is new, and counts as one sample of its first attribute's size if and only if its last attribute is new; one off limits adds and counts nothing |
| SampleCollection.AccurateAfterIff | src/OrcCommand/GetThis_Run.cpp:981-1013 | accounting stays accurate over any match if and only if it is off limits, or no attribute but the last is new and the last, if new, is as large as the first |
| SampleCollection.RunAccurateIff | src/OrcCommand/GetThis_Run.cpp:981-1013 | accounting is accurate throughout a run if and only if each match that is collected meets that condition in its turn |
| SampleCollection.RunCollects | src/OrcCommand/GetThis_Run.cpp:597-691 | after a run, a sample with some volume, snapshot, low reference part and instance is there if and only if it was before, or a match that some specification names has these fields and an attribute with that instance; the live volume has the null snapshot |
| SampleCollection.FreshInRunIff | src/OrcCommand/GetThis_Run.cpp:634-650 | what is new when its turn comes is told by the matches alone: no earlier match that is collected, and no earlier attribute, has its key |
| SampleCollection.SecondAttributeEscapesTheLimit | src/OrcCommand/GetThis_Run.cpp:981-1013 | a run over one named file of 1010 bytes in two streams, kept under a limit of 100, with 10 bytes counted |
| SampleCollection.RunFromMatches | src/OrcCommand/GetThis_Run.cpp:597-685 | every sample of a run has volume, snapshot, reference, instance and index of one attribute of one match, the content its specification asks for, the size of that content, and a name for the last name of the file, or none if and only if the match gives none |
| SampleCollection.InitialState | src/OrcCommand/GetThis_Config.cpp:458 | the state before any match, with accumulators at 0, satisfies what the runs preserve; with limits enabled and nothing marked, the bounds and the truth of the marks too |
| SampleCollection.RunFromStart | src/OrcCommand/GetThis_Run.cpp:955-1068 | every run from the configured limits ends with ordered samples, balanced accumulators no greater than what is kept, unchanged maxima and, with limits enabled, everything within them; if every match gives a name, all samples are named, their names differ pairwise and are all in use |
| SampleCollection.Main.GiveSampleNames | src/OrcCommand/GetThis_Run.cpp:650-679 | one free name is taken for each name of the file, and the last one is kept |
| SampleCollection.Main.AddSample | src/OrcCommand/GetThis_Run.cpp:599-686 | one attribute is collected, or found to be there already |
| SampleCollection.Main.AddSamplesForMatch | src/OrcCommand/GetThis_Run.cpp:591-692 | all attributes of the match are added under one status; only a duplicate in last place is reported |
| SampleCollection.Main.CollectAttribute | src/OrcCommand/GetThis_Run.cpp:981-1062 | limits are checked before the samples are added and accounted for or marked afterwards |
| SampleCollection.Main.FindMatchingSamples | src/OrcCommand/GetThis_Run.cpp:955-1068 | the callback: the first specification with the term is used, each attribute walks the whole match, an unknown term changes nothing |
| MultipleOutput.EachWriterClosedOnce | src/OrcCommand/UtilitiesMain.h:184-416 | from getting the writers to any number of extra closes, whatever the callbacks return, each created writer is closed exactly once, and no other |
| MultipleOutput.AllClosedOnceIff | src/OrcCommand/UtilitiesMain.h:288-309 | with callbacks that throw, every writer is still closed once if and only if the writer is shared or no callback but the last throws |
| MultipleOutput.CallbacksHaveWriters | src/OrcCommand/UtilitiesMain.h:288-309 | each output that is reached is called back for exactly once, and with its own or the shared writer in place |
| MultipleOutput.ThrowLeavesWriterOpen | src/OrcCommand/UtilitiesMain.h:288-309 | two directory outputs, the first of whose callbacks throws: the second writer is never closed |
| MultipleOutput.FailedCreationStaysOpen | src/OrcCommand/UtilitiesMain.h:216-270 | per-output writers are obtained if and only if all can be created; otherwise the outputs before the first failure keep theirs, and no number of `CloseAll` calls closes one |
| MultipleOutput.LifeEvents | src/OrcCommand/UtilitiesMain.h:184-416 | how often each event occurs in a life: every open, stream, flush, callback with the writer it finds, close and completion |
| MultipleOutput.ArchiveInPhases | src/OrcCommand/UtilitiesMain.h:131-416 | in archive mode the open comes first, then the streams, each once, then the flush, the closes, and only then completion |
| MultipleOutput.StreamNamesDistinct | src/OrcCommand/UtilitiesMain.h:243-250 | the streams of an archive have distinct names, whatever the outputs are called |
| MultipleOutput.StreamNameIs | src/OrcCommand/UtilitiesMain.h:243-250 | a stream is named after the prefix, the index in at least eight digits, and the output |
| MultipleOutput.OwnWritersShape | src/OrcCommand/UtilitiesMain.h:216-267 | each output has a writer of its own, and those with a stream were announced once under their name |
| MultipleOutput.SharedWriters | src/OrcCommand/UtilitiesMain.h:194-215 | for each of the ten kinds of table, every output gets the same new writer if it can be created, and nothing else changes |
| MultipleOutput.OwnWritersGiven | src/OrcCommand/UtilitiesMain.h:216-270 | for a directory or archive, every output gets a new writer of its own, if and only if all can be created |
| MultipleOutput.OtherKinds | src/OrcCommand/UtilitiesMain.h:192-193 | any other kind of output gets no writer |
| MultipleOutput.WalkCloses | src/OrcCommand/UtilitiesMain.h:294-307 | the walk calls back for the outputs it reaches, each with its writer, and closes exactly these, once each |
| MultipleOutput.MultipleOutput.Prepare | src/OrcCommand/UtilitiesMain.h:131-182 | only archives get an agent, and the open request is sent only if it starts |
| MultipleOutput.MultipleOutput.GetWritersFor | src/OrcCommand/UtilitiesMain.h:276-286 | the items are appended as outputs without writers before all outputs get theirs |
| MultipleOutput.MultipleOutput.GetWriters | src/OrcCommand/UtilitiesMain.h:184-274 | one shared writer, or one per output until one cannot be created, with stream and flush requests for archives |
| MultipleOutput.MultipleOutput.ForEachOutput | src/OrcCommand/UtilitiesMain.h:288-309 | each output is closed after its callback and all are closed at the end, exceptions included |
| MultipleOutput.MultipleOutput.CloseOne | src/OrcCommand/UtilitiesMain.h:362-375 | only a writer the output owns is closed and dropped |
| MultipleOutput.MultipleOutput.CloseAll | src/OrcCommand/UtilitiesMain.h:377-416 | a shared writer still there is closed through the first output, and a running agent is told to complete |
| WolfExecution.ReachAgrees | src/OrcCommand/WolfExecution_Execute.cpp:503-521 | under every interleaving of enqueue steps and notifications, both maps hold exactly what the history determines, and each PID-mapped task is keyword-mapped |
| WolfExecution.NotificationRouted | src/OrcCommand/WolfExecution_Execute.cpp:437-472 | a notification goes to the task of the latest known start of its process, else to that of its keyword, else nowhere |
| WolfExecution.TaskSeesItsNotifications | src/OrcCommand/WolfExecution_Execute.cpp:437-472 | each task is the result of exactly the notifications routed to it, in order |
| WolfExecution.TaskStatusIs | src/OrcCommand/WolfTask.cpp:26-194 | a task is done, cancelled, failed or running by the last event routed to it that says so, and its process is that of its last start |
| WolfExecution.OverrunsAreTerminated | src/OrcCommand/WolfExecution_Execute.cpp:461-470 | the terminations requested are exactly, in order, the process of each routed time limit and the process of each task over its memory limit |
| WolfExecution.SentAfterRegistered | src/OrcCommand/WolfExecution_Execute.cpp:628-645 | what is sent is the mandatory commands enqueued so far, in order, repeated keywords included, each registered before |
| WolfExecution.RepeatsIgnoredIff | src/OrcCommand/WolfExecution_Execute.cpp:631-645 | what is sent is as if later commands with known keywords were ignored if and only if no mandatory one has been enqueued |
| WolfExecution.RepeatIsSent | src/OrcCommand/WolfExecution_Execute.cpp:631-645 | an execution that registers and sends two mandatory commands with one keyword sends both |
| WolfExecution.StartFindsTask | src/OrcCommand/WolfExecution_Execute.cpp:511-521 | the start of any sent command finds its task, which then runs with that process and is mapped to it |
| WolfExecution.WolfTask.ApplyNotification | src/OrcCommand/WolfTask.cpp:18-196 | status, process and termination requests after each kind of notification |
| WolfExecution.WolfExecution.RegisterCommand | src/OrcCommand/WolfExecution_Execute.cpp:631-642 | a new keyword gets a task of its own; an old one keeps its task object |
| WolfExecution.WolfExecution.SendCommand | src/OrcCommand/WolfExecution_Execute.cpp:643-644 | only mandatory commands are sent |
| WolfExecution.WolfExecution.EnqueueCommands | src/OrcCommand/WolfExecution_Execute.cpp:622-648 | every command is registered, then sent, in order |
| WolfExecution.EnqueuedReaches | src/OrcCommand/WolfExecution_Execute.cpp:622-648 | enqueuing without notifications in between is one of the executions |
| WolfExecution.WolfExecution.OnNotification | src/OrcCommand/WolfExecution_Execute.cpp:503-557 | a start under a known keyword maps the process before the notification is delivered; an empty item is ignored |
| WolfExecution.WolfExecution.NotifyTask | src/OrcCommand/WolfExecution_Execute.cpp:437-472 | the shared task object found by process or keyword takes the notification, and its requests are sent |
| ToolEmbed.DumpReadBack | src/OrcCommand/ToolEmbed_Config.cpp:183-280 | reading back a dump succeeds if and only if the mothership and all written specifications can be kept, and gives them stably grouped as pairs, files, archives with compression cleared |
| ToolEmbed.KeepAllIff | src/OrcCommand/ToolEmbed_Config.cpp:31-181 | all are kept if and only if each one is: pairs always, files whose path resolves, non-empty archives whose paths all resolve; each keeps its place |
| ToolEmbed.ReadBackIdempotent | src/OrcCommand/ToolEmbed_Config.cpp:183-280 | once written and read, a configuration survives every further round unchanged |
| ToolEmbed.KindReadBack | src/OrcCommand/ToolEmbed_Run.cpp:54-85 | the elements of a kind are read back in order, each as what is kept of its specification |
| ToolEmbed.DumpIs | src/OrcCommand/ToolEmbed_Run.cpp:48-87 | the tree of a file, an archive, a pair and a deletion, written out |
| ToolEmbed.WriteEmbedConfig | src/OrcCommand/ToolEmbed_Run.cpp:29-90 | the begin/end calls leave one closed tree, with the mothership and one element per written specification |
| ToolEmbed.WriteArchive | src/OrcCommand/ToolEmbed_Run.cpp:70-83 | an archive becomes one nested element with its files in order, and the elements around it are untouched |
| ToolEmbed.Main.AddSpecs | src/OrcCommand/ToolEmbed_Config.cpp:210-227 | the readable items are appended in order even after an error, which is reported |
| ToolEmbed.Main.GetConfigurationFromConfig | src/OrcCommand/ToolEmbed_Config.cpp:183-276 | input, pairs, files and archives are read in this order, and the first group with an error is the last one read |
| ToolEmbed.ReadOutcome | src/OrcCommand/ToolEmbed_Config.cpp:183-276 | for any tree: success if and only if input, pairs, files and archives are all readable; otherwise what the readable items up to the first group with an error have added |
| ToolEmbed.PairReadIff | src/OrcCommand/ToolEmbed_Config.cpp:31-58 | a pair is read if and only if it has its tag, a name and a value |
| ToolEmbed.FileReadIff | src/OrcCommand/ToolEmbed_Config.cpp:60-101 | a file is read if and only if it has its tag, a name and a path that resolves |
| ToolEmbed.ArchiveReadIff | src/OrcCommand/ToolEmbed_Config.cpp:103-181 | an archive is read if and only if it has its tag, a name and files that all resolve; format, compression and items are those of the element |
| ToolEmbed.ReadAllConcat | src/OrcCommand/ToolEmbed_Config.cpp:210-227 | what is read from a list is what its parts give, one after the other |
| ImportData.Run | src/OrcCommand/ImportData_Run.cpp:455-472 | the nested loops send the rounds up to the longest input and count them in 32 bits |
| ImportData.RoundsFromSource | src/OrcCommand/ImportData_Run.cpp:462-472 | after any number of rounds, exactly that many items of each source have been sent, or all, in their order |
| ImportData.RoundIsInOrder | src/OrcCommand/ImportData_Run.cpp:464-471 | a round goes through the inputs in order and sends that item of each that has one |
| ImportData.DispatchIsPermutation | src/OrcCommand/ImportData_Run.cpp:455-472 | what is sent is a permutation of all items that keeps the order of each source, as many as the lengths add up to |
| BlockCopy.FaultFreeCopy | src/OrcCommand/DD_Run.cpp:166-260 | without read errors, the bytes counted equal the input slice from the start up to its end or the last counted block; what is written begins with them, and is nothing more if and only if the buffer is empty, nothing is left to read, the counted blocks fit the input, or the input ends with a block |
| BlockCopy.StaleTailIsWritten | src/OrcCommand/DD_Run.cpp:154-222 | three bytes copied in blocks of two end with a fourth, stale one |
| BlockCopy.CopyIsIdealIff | src/OrcCommand/DD_Run.cpp:154-190 | each block comes from its own place if and only if skipped blocks equal skipped bytes, or errors end the copy, or no read of a block that the count lets another follow fails with the place to resume still inside the input |
| BlockCopy.ResumedIff | src/OrcCommand/DD_Run.cpp:166-260 | a block follows a failed read if and only if the request and the bad bytes of the input make it so |
| BlockCopy.ResumesAtTheWrongPlace | src/OrcCommand/DD_Run.cpp:154-190 | a concrete copy whose second block comes from offset 3 instead of 4 |
| BlockCopy.Run | src/OrcCommand/DD_Run.cpp:110-260 | every output that could be opened holds, block after block, a copy of the input for the request, read errors or not; the counters agree with it: offset minus skip is the progress, at most the blocks times their size, and a count bounds the blocks |
| BlockCopy.CopyIs | src/OrcCommand/DD_Run.cpp:166-260 | with or without read errors: a block with a bad byte is all zeros, any other holds the input from its offset on in front of the previous buffer; where each block comes from, and when there is no next one |
| BlockCopy.CopyBlocks | src/OrcCommand/DD_Run.cpp:166-260 | the loop terminates having written, to every usable output alike, the blocks of the copy |
| BlockCopy.CopyNext | src/OrcCommand/DD_Run.cpp:166-260 | one turn of the loop writes the next block of the copy to every usable output, or ends it |
| BlockCopy.ReadNext | src/OrcCommand/DD_Run.cpp:170-196 | a failed read gives zeros and a new input position, or nothing if errors count |
| RegInfo.GetRegInfoType | src/OrcCommand/RegInfo_Config.cpp:36-82 | a list of at most 258 characters parses to the combination of all its tokens; a longer one to that of the tokens ended by a comma within the buffer |
| RegInfo.LongListIff | src/OrcCommand/RegInfo_Config.cpp:45-80 | a list that does not fit yields the columns of the tokens ended by a comma within 259 characters, and loses none if and only if the others ask for no column of their own |
| RegInfo.LastTokenIsLost | src/OrcCommand/RegInfo_Config.cpp:45-80 | a list of 259 characters whose last token names the key name column, which is not selected |
| RegInfo.ParseBuffer | src/OrcCommand/RegInfo_Config.cpp:49-80 | every token of the buffer is looked up and every overwritten comma is restored |
| RegInfo.ParseConcat | src/OrcCommand/RegInfo_Config.cpp:49-80 | parsing two lists joined by a comma gives the union of what each gives |
| RegInfo.CombinedIff | src/OrcCommand/RegInfo_Config.cpp:49-80 | a column is selected if and only if some token asks for it, so order and repetition do not matter |
| RegInfo.ColumnOfName | src/OrcCommand/RegInfo_Run.cpp:40-58 | each of the twelve column names asks for its own column |
| RegInfo.AllAsksFor | src/OrcCommand/RegInfo_Run.cpp:60-64 | one alias asks for every column |
| RegInfo.TimeLineAsksFor | src/OrcCommand/RegInfo_Run.cpp:60-64 | the other asks for modification date and key name |
| RegInfo.LookupIgnoresCase | src/OrcCommand/RegInfo_Config.cpp:55-75 | names ask for the same whatever the case of their letters |
| RegInfo.ContainsBadChars | src/OrcCommand/RegInfo_Run.cpp:190-207 | true if and only if some character is a forbidden one |
| RegInfo.PresenceIs | src/OrcCommand/RegInfo_Run.cpp:302-330 | the four flags, told from data, length, limit, type and forbidden characters |
| RegInfo.IntegerCell | src/OrcCommand/RegInfo_Run.cpp:374-392 | the cell of a DWORD or QWORD reads as its little-endian number, that of a big-endian DWORD as its own |
| RegInfo.StringCell | src/OrcCommand/RegInfo_Run.cpp:396-412 | the cell of a string is its text up to the null character |
| RegInfo.MultiStringCell | src/OrcCommand/RegInfo_Run.cpp:424-438 | the cell of a multi-string is its strings, joined |
| RegInfo.JoinedIs | src/OrcCommand/RegInfo_Run.cpp:433 | each string is followed by a separator |
| RegInfo.OtherCells | src/OrcCommand/RegInfo_Run.cpp:374-379 | the cell of binary data is the data, and other types leave it empty |
| RegInfo.LeadingFieldsAre | src/OrcCommand/RegInfo_Run.cpp:254-305 | the first nine cells are those of the first nine columns, in order |
| RegInfo.ReversedReadsAsNumber | src/OrcCommand/RegInfo_Run.cpp:381-391 | the reversed bytes of an integer, read from left to right, are the integer |
| RegInfo.StringsOfTerminated | src/OrcCommand/RegInfo_Run.cpp:426-436 | null-terminated strings written one after the other are told apart again, the empty ones included |
| RegInfo.JoinStrings | src/OrcCommand/RegInfo_Run.cpp:426-436 | the loop joins all strings of a multi-string, each followed by the separator |
| RegInfo.Main.WriteKeyRow | src/OrcCommand/RegInfo_Run.cpp:541-557 | every key row has 12 cells: six with the wanted fields in column order, six empty |
| RegInfo.Main.WriteValueRow | src/OrcCommand/RegInfo_Run.cpp:254-451 | with the value column, every value row has 12 cells for every type, length and mask; a flag other than PRESENT means an empty value cell; the cells hold the fields in column order, the data as its type prompts, and the dump path |
| RegInfo.Main.WriteValue | src/OrcCommand/RegInfo_Run.cpp:334-449 | value cell and dump cell for every type and presence |
| CommaList.JoinSplit | src/OrcCommand/FileInfoCommon.cpp:48-75 | joining the tokens of a list gives the list back |
| CommaList.TokensHaveNoComma | src/OrcCommand/FileInfoCommon.cpp:48-75 | no token holds a comma, so with the previous row the tokens are determined |
| CommaList.SplitConcat | src/OrcCommand/RegInfo_Config.cpp:49-80 | the tokens of two lists joined by a comma are those of the first, then those of the second |
| FilterExtensions.CountExtensions | src/OrcCommand/FileInfoCommon.cpp:25-38 | the counting pass agrees with the number of tokens |
| FilterExtensions.GetFilterExtCustomFromString | src/OrcCommand/FileInfoCommon.cpp:19-79 | the array holds exactly the upper-cased tokens, then one null; the list is cut at its commas; more tokens than fit 16 bits are refused with the list intact |
| FilterExtensions.EntriesJoinToUpper | src/OrcCommand/FileInfoCommon.cpp:40-76 | the entries joined with commas are the upper-cased list, and there is one more of them than commas |
| FilterExtensions.CutLeavesFirst | src/OrcCommand/FileInfoCommon.cpp:53 | once split, the caller's list reads as its first extension only |
| AsciiCase.ToUpperIs | src/OrcCommand/FileInfoCommon.cpp:57-58 | exactly the small letters change, each to its own capital |
| AsciiCase.UpperIsUpper | src/OrcCommand/FileInfoCommon.cpp:57-58 | an upper-case text holds no small letter and stays as it is |
| AsciiCase.SameTextIsEquivalence | src/OrcCommand/RegInfo_Config.cpp:58 | equality up to case is an equivalence |

## Left out

- Windows, COM, registry and console calls, logging, timings and progress display: foreign calls, which become parameters (which calls fail, which callbacks throw, which writers can be created) or are dropped.
- Allocation failure: taken not to happen, as are failing duplications in the extension list.
- GetSectors: boot-code, GPT, VBR and custom-sample extraction; they rest on on-disk structures outside these files. DiskChunkStream (the stream a chunk is read through later) and the names of chunk files are not modelled.
- VolumeAccess.ReadAtVolumeLevel: device names are compared ignoring ASCII case only; volumes and locations come as a given list.
- SectorReader.DiskReader.Read: a read delivers all the bytes asked for or fails, as a raw device does; short successful reads are not modelled.
- SampleNaming.SampleFileName: XOR output and truncation of names at MAX_PATH; the white-space test covers the six ASCII characters; the index is unbounded, which is the source's DWORD while fewer than 2^32 - 2 names are in use.
- SampleRefusal.RefusalLastsIff: with several specifications, and a global total that a file of the size can wrap, whether the others can fill that total together depends on all their maxima; there the two halves are stated one way each.
- SampleCollection.Main.FindMatchingSamples: a match has at least one name, as the source takes the first one of every match; the model also says what happens to one without.
- SampleCollection.StreamSize: setting up hash, copy and strings streams becomes a flag and given sizes.
- GetThis: compressing, hashing and listing the samples; command lines and the defaults of limits.
- MultipleOutput.MultipleOutput.CloseAll: the two-minute wait for the archive agent and its timeout result.
- WolfExecution.WolfExecution.OnNotification: registering, sending and receiving are atomic steps, while the source's callback shares its two maps with the enqueuing thread without a lock.
- WolfExecution.WolfTask.ApplyNotification: hang detection, times and exit codes; the statistics tables written for terminated processes and finished jobs.
- ToolEmbed: `run`, `run32` and `run64` elements, the logging and output elements, and the text encoding of XML; a tree is written and read as elements. Run_FromDump's change of directory only fixes how paths resolve.
- ToolEmbed.ReadBackIdempotent: assumes that a resolved path resolves to itself, which is a property of the file system and not of this code.
- ImportData.Run: at least one input, as the source dereferences the longest one; round numbers are unbounded; the state of the moved-from items.
- BlockCopy.Run: hash streams, failing writes, a failing seek after an error, and 64-bit wrap of offsets; short reads before the end of the input.
- RegInfo.JoinStrings: the source counts bytes, so data of odd length makes it read one string more, past the data; the model drops the odd byte instead, as what lies there is unknown.
- RegInfo.DataCell: string data without a terminating null is read as if one followed, where the source reads on past the buffer; the text of names, paths and dates is not told apart beyond its column; the search for the name of an unknown value type.
- RegInfo.GetRegInfoType: names are compared ignoring ASCII case only.
- FilterExtensions.GetFilterExtCustomFromString: upper-casing covers ASCII letters only.
- USNInfo, NTFSInfo, FatInfo and the configuration schemas: column emission and declarations without a deep property.
