# macMiniDump in Dafny

macMiniDump writes a Mach-O core file of a suspended process on macOS. This project models how it selects
memory, lays out the file and writes it, together with the reader that `Misc/core.hsl` describes, and proves
that the reader gets back what was selected. `dafny verify dfyconfig.toml` checks everything.

The modules follow the program:

| module | part of the program |
|---|---|
| `Bytes`, `CStrings`, `MachO` | integers of fixed width, little-endian structures, names of 16 characters |
| `Stream`, `DataAccess` | output stream, process memory, data providers and the pieces they are read in |
| `Layout`, `CoreBuilder` | where everything goes, and the builder object with its two phases |
| `CoreReader`, `CoreFile` | the walk over the load commands, and what is found in a finished file |
| `IntervalSet`, `WrappedRequests`, `ExactRuns`, `Coverage` | the merging set of address ranges, what every run of it keeps, when a run is exact, and what a run of the thread loop covers |
| `Search`, `MemoryRegions`, `ModuleImage`, `ImageFormat`, `Modules` | lookups of regions and modules, load command walkers and the images they read, slides |
| `Unwind`, `UnwindOffsets`, `UnwindFormat`, `StackWalk`, `Threads` | compact unwind lookup, what it ignores, and the words it reads, frame chains, the loop over the threads |
| `ImageInfos`, `ImageInfosReader`, `MainExecutable`, `ProcessMetadata` | the note payloads and their readers |
| `MiniDump`, `WriteDump`, `EndToEnd`, `DumpBytes` | notes, payloads and the whole dump; what a reader finds in its file, and the file byte by byte |
| `PortRights`, `SuspendedDump` | ownership of port rights, suspending and resuming, and the whole call |

Objects that the program updates in place are classes: the builder, the stream, the interval set, the module
and region lists, the memory reader, the port references. Ordered maps are sequences in key order, and map
iterators are indices. The target is suspended, so its memory is an immutable partial map from address to
byte. Answers of the kernel (thread list and states, protections, address bits, region map, image list) are
parameters that may fail arbitrarily. Numbers are unbounded; where the program computes in 64 or 32 bits the
model says so with `Low64`, `Add64`, `Sub64` or a remainder. Sizes are those of arm64.

## What the proofs found

* The guard around instruction pointers admits the edge address UINT64_MAX - 256, whose surroundings end at 2^64.
  The stored end is then 0. Visiting the entry still gives the right length, so the edge address alone does no
  harm (`Coverage.EdgeAddressAlone`). But what overlaps that entry is not merged with it, a request from the same
  start may replace it, and a run of requests from 0 up to it swallows it. `Coverage.EdgeAddressOverlaps` and
  `ExactRuns.SameStartDependsOnOrder` are examples; `ExactRuns.EachOnceIff`, `Coverage.RecordedExactIff` and
  `EndToEnd.RequestedOnceIff` give the exact conditions. Below the surroundings of the edge address, every run
  of the loop keeps every requested address in exactly one interval (`WrappedRequests.BelowIsExact`), and each
  call stack address below the edge is covered in every run (`Coverage.CallStackCovered`, `EndToEnd.CallStackIsInFile`).
  Above, `Coverage.AboveEdgeIff` says which addresses are lost; `ExactRuns.ShorterReplacesLonger` is an example.
* `SetSize (0)` keeps the position of the stream, so a dump into a stream that does not stand at 0 makes a file
  that no reader accepts (`WriteDump.ReadableIffAtStart`).
* `ncmds` and `sizeofcmds` are cut to 32 bits. From 4 GiB of commands on, the first payload is written over
  commands (`CoreFile.SizeFieldExactIff`, `CoreFile.PayloadOverCommands`); the results about whole files ask for
  commands below 4 GiB and a file below 2^64 (`Layout.Fits`).
* `AddThreadCommand` does not look at the finalized flag. Called after finalization it makes the header wrong;
  the dump calls it before.
* Three walkers compute the slide of a module and differ for images without or with several `__TEXT` segments
  (`ModuleImage.SlidesAgreeIff`, `ModuleImage.SlidesCanDiffer`).
* The image payload reserves room for all modules but one and skips every main executable; with more than one
  main executable a gap of zero entries remains and the reader sees entries that mean nothing, and without one
  the last entry is laid over by the address lists and paths (`ImageInfosReader.ImageInfosRoundTrip`,
  `ImageInfos.EntriesFillTheirRoom`). If those are shorter than one entry, that entry is written past the end
  of the buffer (`ImageInfos.StaysInBufferIff`, `ImageInfos.EntryPastBuffer`).
* The unwind lookup ignores a page's own entry offset and takes the entries from behind the page header. It
  equals a scan of the table where the two agree (`Unwind.LookupRefinesFlat`), and for every other offset at
  which entries can be stored some table is searched wrongly (`UnwindOffsets.RegularOffsetMatters`,
  `UnwindOffsets.CompressedOffsetMatters`, `UnwindOffsets.HeaderLeavesNoRoom`).
* `Misc/core.hsl` keeps the position of the segment addresses in 32 bits, which fails for notes in which one of
  them starts beyond 4 GiB (`ImageInfosReader.ViewRoundTrip`, `ImageInfosReader.ViewFails`, `ImageInfosReader.ViewAlwaysIff`).
* The overwrite check of debug builds misses a range that covers an older one entirely (`CoreBuilder.ClashesExactly`).
* A segment of 4 MiB or more whose size is no multiple of that is written with a left-over from where its chunks
  stopped. If that cannot be read, the whole dump is refused; an unreadable smaller segment only stays empty
  (`DataAccess.SegmentBytesSize`, `CoreFile.WrittenAmount`).
* The walk of a frame chain does not end on a chain that returns to an address it has passed
  (`StackWalk.WalkEndsIff`).

## Model

| member | source | states |
|---|---|---|
| SuspendedDump.MiniDumpWriteDumpImpl | Sources/macMiniDump/Private/MacMiniDump.cpp:605-661 | on every return all rights have been given back once and there is one resume call for each suspension; a dump reported as done has suspended the task, has asked every other listed thread to stop if it dumps itself, and has written exactly the writes of the layout for the captured threads, the collected intervals, the marked modules and the four payloads, starting where the stream stood; it is refused only where the port is no task, a call to the kernel or the stream failed, or what was collected cannot be written; it stops for an overwrite only in a debug build that did not start at position 0 or in which some size does not fit |
| EndToEnd.SelectedMemoryIsInFile | Sources/macMiniDump/Private/MacMiniDump.cpp:581-587 | for every address of an interval that got a segment, the first w bytes read through that segment are the bytes of the process, zeros or the end of the file follow, and w is the whole segment exactly when all of it can be read; the segment is the only one for the address exactly when no other such interval spans it |
| EndToEnd.ReaderSeesSelectedMemory | Sources/macMiniDump/Private/MacMiniDump.cpp:581-587 | looking an address up in the parsed file gives the byte of the process when its interval is readable and the only one that spans it |
| EndToEnd.NothingElseIsInFile | Sources/macMiniDump/Private/MacMiniDump.cpp:581-587 | an address that no such interval spans is in no segment of the file |
| EndToEnd.OverlapOnlyAtEdge | Sources/macMiniDump/Private/MacMiniDump.cpp:541-587 | an address below UINT64_MAX - 512 that lies in an interval with a segment lies in that one segment of the file only, in every dump; elsewhere the same holds for harmless requests |
| EndToEnd.RequestedOnceIff | Sources/macMiniDump/Private/MacMiniDump.cpp:541-587 | where the protection queries succeed, the segments of the file contain every requested address exactly once and no other address, exactly when the requests are harmless |
| EndToEnd.CallStackIsInFile | Sources/macMiniDumpTests/Tests.py:130-195 | in every dump each call stack address from 256 to UINT64_MAX - 257 lies with its surroundings in one collected interval, and in the segment of that interval if its own protection query succeeds; no other segment comes near unless the surroundings reach past UINT64_MAX - 513 and the requests are not harmless |
| EndToEnd.CommandSpans | Sources/macMiniDump/Private/MacMiniDump.cpp:100-122 | the i-th segment command has exactly the addresses of the i-th interval whose protection was reported |
| WriteDump.DumpParses | Misc/core.hsl:281-318 | walking the load commands of the file returns the four notes, one thread command per captured thread and one segment per protected interval, in order and with final offsets, and ends at 32 + sizeofcmds |
| WriteDump.ReadableIffAtStart | Sources/macMiniDump/Private/MacMiniDump.cpp:614-615 | emptying the stream does not reset its position, and a reader accepts the file exactly when the dump started at position 0 |
| EndToEnd.ImagesAreInFile | Misc/core.hsl:366-398 | following the file offsets of the image note inside the finished file recovers every module but the main executable exactly when there is one main executable; each image read has the load address, UUID, executing flag and path of its module, and for each segment of the module its address and name |
| EndToEnd.ThreadIdsAreInFile | Sources/macMiniDump/Private/MacMiniDump.cpp:526-527 | the text of the last note parses to the recorded ids, and the i-th id and the registers in the i-th thread command belong to the same thread |
| EndToEnd.MainExecutableIsInFile | Sources/macMiniDump/Private/MacMiniDump.cpp:306-329 | the specification in the third note has version 2, kind 0, address UINT64_MAX, no page size and no platform, the UUID of the first module of file type 2, and the distance modulo 2^64 from the address its first __TEXT prefers (0 without one) to its load address, by which its segments were moved; without such a module UUID zero and slide UINT64_MAX |
| DumpBytes.CommandBytes | Sources/macMiniDump/Private/MachOCoreDumpBuilder.cpp:22-76 | the bytes of header and commands: magic, ARM64, core file, 4 + n + m commands in 160 + 312n + 72m bytes; the four notes from byte 32 on with their names; the n thread commands from 192 on with kinds, word counts and register bytes; the m segment commands behind them with the address, size and protection of their interval |
| DumpBytes.PayloadPlaces | Sources/macMiniDump/Private/MachOCoreDumpBuilder.cpp:58-126 | the first note payload lies at the next multiple of 16 behind the commands, the first segment payload at the next multiple of 4096 behind the last note, and every other payload right behind the one before |
| DumpBytes.AddrableBitsBytes | Sources/macMiniDump/Private/MacMiniDump.cpp:338-351 | the 16 bytes of the first note: 3, the number of address bits, 0 |
| DumpBytes.ImageBytes | Sources/macMiniDump/Private/MacMiniDump.cpp:212-304 | the bytes of the second note in a process with one main executable: version 1, number of images, where the entries start, 48; in entry k UUID, load address, number of segments and flag of the k-th other module, and file offsets that lead to its path with a terminator and to the names and addresses of its segments |
| DumpBytes.MainExecutableBytes | Sources/macMiniDump/Private/MacMiniDump.cpp:306-329 | the 48 bytes of the third note: 2, 0, UINT64_MAX, the slide of the first executable, its UUID, 0, 0 |
| DumpBytes.MetadataBytes | Sources/macMiniDump/Private/MacMiniDump.cpp:124-142 | the bytes of the fourth note are the text {"threads":[{"thread_id":n},...]} with the ids of the thread commands in their order, in decimal |
| EndToEnd.AddrableBitsAreInFile | Sources/macMiniDump/Private/MacMiniDump.cpp:338-351 | the first note holds version 3 and the number of address bits |
| WriteDump.SegmentsAreUsable | Sources/macMiniDump/Private/MacMiniDump.cpp:100-110 | no segment of any run is empty (the chunk arithmetic divides by the size) and no two start at the same address |
| CoreFile.FinishedParses | Sources/macMiniDump/Private/MachOCoreDumpBuilder.cpp:45-76 | a finished file starts with a header and commands that read back as they were added |
| CoreFile.NoteInFile | Sources/macMiniDump/Private/MachOCoreDumpBuilder.cpp:78-86 | every note payload lies at the offset in its command |
| CoreFile.MemoryInFile | Sources/macMiniDump/Private/MachOCoreDumpBuilder.cpp:88-123 | an address read through its segment command gives the byte of the process as far as the payload reaches, and zero behind it |
| CoreFile.UnreadIsZero | Sources/macMiniDump/Private/MachOCoreDumpBuilder.cpp:95-122 | between what could be read of a segment and the next payload the file holds zeros |
| CoreFile.FinishedIsAligned | Sources/macMiniDump/Private/MachOCoreDumpBuilder.cpp:12-18 | in a finished file the first note payload lies at a multiple of 16 right behind the commands, the first segment payload at a multiple of 4096 right behind the last note, and all others without a gap |
| CoreFile.WrittenAmount | Sources/macMiniDump/Private/MachOCoreDumpBuilder.cpp:95-123 | how many bytes of a segment are in the file: those of the chunks of 4 MiB before the first unreadable one, and from there as many as the size exceeds a whole number of chunks |
| CoreFile.SizeFieldExactIff | Sources/macMiniDump/Private/MachOCoreDumpBuilder.cpp:137-146 | the first payload starts behind the commands exactly when all commands together are below 4 GiB |
| CoreFile.PayloadOverCommands | Sources/macMiniDump/Private/MachOCoreDumpBuilder.cpp:58-86 | from 4 GiB on the first note payload lies inside of what was written as header and commands, and in the finished file it is there in full, so it has replaced commands |
| CoreFile.ReadableIffFromStart | Sources/macMiniDump/Private/MachOCoreDumpBuilder.cpp:45-55 | a build on an emptied stream is readable exactly when it starts at position 0 |
| CoreBuilder.MachOCoreDumpBuilder.constructor | Sources/macMiniDump/Private/MachOCoreDumpBuilder.cpp:22-43 | an empty core file for arm64 |
| CoreBuilder.MachOCoreDumpBuilder.AddNoteCommand | Sources/macMiniDump/Private/MachOCoreDumpBuilder.cpp:151-179 | refused after finalization and for owners of more than 16 bytes, otherwise one note with the padded owner and the size of its data |
| CoreBuilder.MachOCoreDumpBuilder.AddThreadCommand | Sources/macMiniDump/Private/MachOCoreDumpBuilder.inl:24-39 | one more thread command at any time; after finalization the header no longer counts the commands |
| CoreBuilder.MachOCoreDumpBuilder.AddSegmentCommand | Sources/macMiniDump/Private/MachOCoreDumpBuilder.cpp:181-205 | refused after finalization, otherwise one segment whose two sizes are the size of its data |
| CoreBuilder.MachOCoreDumpBuilder.FinalizeLoadCommands | Sources/macMiniDump/Private/MachOCoreDumpBuilder.cpp:128-149 | the header counts commands and their bytes modulo 2^32; a second call changes nothing |
| CoreBuilder.MachOCoreDumpBuilder.AddDataProviderForNoteCommand | Sources/macMiniDump/Private/MachOCoreDumpBuilder.cpp:207-222 | data and size go to the first note whose owner compares equal, nothing else changes |
| CoreBuilder.MachOCoreDumpBuilder.GetOffsetForNoteCommandPayload | Sources/macMiniDump/Private/MachOCoreDumpBuilder.cpp:224-247 | end of the commands plus the sizes of the notes before the first one with that owner, in 64 bits; for the first note a multiple of 16 from 32 + sizeofcmds on and less than 16 behind it |
| CoreBuilder.MachOCoreDumpBuilder.GetOffsetForSegmentCommandPayload | Sources/macMiniDump/Private/MachOCoreDumpBuilder.cpp:249-274 | end of the notes plus the sizes of the segments before the first one at that address, in 64 bits; for the first segment a multiple of 4096 from the end of the last note on and less than 4096 behind it |
| CoreBuilder.MachOCoreDumpBuilder.WriteToOStream | Sources/macMiniDump/Private/MachOCoreDumpBuilder.cpp:286-308 | a write in full or none; a clash is reported exactly when a debug build has written a clashing range before, which cannot be as long as all ranges end at or below the position |
| CoreBuilder.ClashesExactly | Sources/macMiniDump/Private/MachOCoreDumpBuilder.cpp:290-304 | of the ranges that share a byte, the overwrite check misses exactly those that the new range covers entirely, an identical one included |
| CoreBuilder.MachOCoreDumpBuilder.WriteChunks | Sources/macMiniDump/Private/MachOCoreDumpBuilder.cpp:95-117 | writes the readable chunks up to the first unreadable one, never past the size of the data |
| CoreBuilder.MachOCoreDumpBuilder.WriteSegmentPayload | Sources/macMiniDump/Private/MachOCoreDumpBuilder.cpp:95-123 | chunks and left-over, read from where the chunks stopped |
| CoreBuilder.MachOCoreDumpBuilder.Build | Sources/macMiniDump/Private/MachOCoreDumpBuilder.cpp:45-126 | with distinct owners and addresses the stream has taken exactly the writes of the layout; the build is refused only where the stream failed or some payload cannot be had, and a fitting build from position 0 never fails its own overwrite check |
| CoreBuilder.SegmentBase64IsExact | Sources/macMiniDump/Private/MachOCoreDumpBuilder.cpp:254-259 | as long as it is below 2^64 the start of the segment area is not cut off: a multiple of 4096, not below the end of the notes and less than 4096 behind it |
| CoreBuilder.PlaceNoteStep | Sources/macMiniDump/Private/MachOCoreDumpBuilder.cpp:58-63 | looking a note up by its own owner while offsets are being set finds that note and the offset the unplaced notes give |
| CoreBuilder.FittingIsExact | Sources/macMiniDump/Private/MachOCoreDumpBuilder.cpp:224-274 | in a fitting file no offset is cut off, and head, notes and segments follow one another |
| Layout.RoundUpIsLeast | Sources/macMiniDump/Private/MachOCoreDumpBuilder.cpp:12-18 | both alignments give the least multiple that is not below the number |
| Layout.OwnerStringsDiffer | Sources/macMiniDump/Private/MachOCoreDumpBuilder.cpp:210-211 | the string comparison, which runs past an owner of 16 bytes, still tells different owners apart whatever follows them |
| Layout.OwnerStringBeforeOffset | Sources/macMiniDump/Private/MachOCoreDumpBuilder.cpp:210-211 | a note whose offset is not set compares equal to its own name, also if it fills all 16 bytes |
| Layout.NoteLookupIsPositional | Sources/macMiniDump/Private/MachOCoreDumpBuilder.cpp:233-243 | with distinct owners the lookup for note i ends at note i |
| Layout.SegmentLookupIsPositional | Sources/macMiniDump/Private/MachOCoreDumpBuilder.cpp:260-270 | with distinct addresses the lookup for segment i ends at segment i |
| Layout.NoteSumPrefix | Sources/macMiniDump/Private/MachOCoreDumpBuilder.cpp:233-243 | an offset depends only on sizes that come earlier |
| Layout.LayoutIsOrdered | Sources/macMiniDump/Private/MachOCoreDumpBuilder.cpp:45-126 | head, note payloads and segment payloads lie in disjoint extents in this order |
| Layout.CommandCodesSize | Sources/macMiniDump/Private/MachOCoreDumpBuilder.cpp:138-146 | the encoded commands are as long as the sizes that are summed up |
| Stream.ReplayReadsBack | Sources/macMiniDump/Includes/MMD/IRandomAccessBinaryOStream.hpp:17-28 | after writes that do not overlap every one of them reads back in full |
| Stream.ReplayHoles | Sources/macMiniDump/Includes/MMD/IRandomAccessBinaryOStream.hpp:24-28 | what no write covers reads as zero |
| Stream.OStream.SetSize | Sources/macMiniDump/Includes/MMD/IRandomAccessBinaryOStream.hpp:27-28 | changes the contents and leaves the position alone |
| DataAccess.ProcessMemoryReader.Get | Sources/macMiniDump/Private/ProcessMemoryReaderDataPtr.cpp:14-22 | a piece of the data or nothing; a request past the size is refused and keeps the last copy |
| DataAccess.DataProvider.PieceIsData | Sources/macMiniDump/Private/ProcessMemoryReaderDataPtr.cpp:14-22 | a piece within the size is had exactly when all of its bytes are, and then it is those bytes |
| DataAccess.SegmentBytesArePrefix | Sources/macMiniDump/Private/MachOCoreDumpBuilder.cpp:95-122 | whatever is written for a segment is a prefix of its data, and all of it exactly when all of it can be read |
| DataAccess.SegmentBytesSize | Sources/macMiniDump/Private/MachOCoreDumpBuilder.cpp:95-122 | what is written for a segment are the chunks of 4 MiB before the first unreadable one and the left-over from there; if that cannot be read nothing is |
| Bytes.FieldBytes | Misc/core.hsl:281-318 | two, four and eight byte fields are little-endian |
| DataAccess.ChunkArithmetic | Sources/macMiniDump/Private/MachOCoreDumpBuilder.cpp:96-100 | for every positive size the chunks and the left-over make up the size |
| MachO.HeaderRoundTrip | Misc/core.hsl:281-290 | an encoded header decodes to itself wherever it lies |
| MachO.NoteRoundTrip | Misc/core.hsl:302-304 | an encoded note command decodes to itself |
| MachO.SegmentRoundTrip | Misc/core.hsl:259-272 | an encoded segment command decodes to itself |
| CoreReader.AutoParseMachOFile | Misc/core.hsl:281-318 | the loop over the commands computes the parse of the file |
| CoreReader.WalkRoundTrip | Misc/core.hsl:294-317 | walking encoded commands from any position returns them and ends behind the last |
| CoreReader.AnyFileReadsBack | Misc/core.hsl:281-318 | any file of either byte order mark reads back to its header and all of its commands, UUIDs and unknown ones included; a file with another mark is refused |
| CoreReader.ParseRoundTrip | Misc/core.hsl:281-318 | a file with the right beginning parses to header, added commands and their end |
| IntervalSet.DisjointIntervalSet.InsertAndMergeIfNeeded | Sources/macMiniDump/Private/MacMiniDump.cpp:38-63 | the loop computes the specified map for every map and every request, and the plain merge on a well-formed map when the end does not wrap |
| IntervalSet.InsertedIsInsert | Sources/macMiniDump/Private/MacMiniDump.cpp:38-63 | on a well-formed map a request that does not wrap is the merge: runs to the left, one run for all that touch, runs to the right |
| IntervalSet.InsertDenotes | Sources/macMiniDump/Private/MacMiniDump.cpp:37-63 | on a well-formed map one insertion that does not wrap adds exactly the requested addresses and keeps the runs sorted, non-empty and apart |
| IntervalSet.Canonical | Sources/macMiniDump/Private/MacMiniDump.cpp:35-76 | a set of addresses has one list of maximal runs |
| IntervalSet.OrderIndependent | Sources/macMiniDump/Private/MacMiniDump.cpp:35-76 | order and multiplicity of the insertions do not matter |
| IntervalSet.RunBounded | Sources/macMiniDump/Private/MacMiniDump.cpp:38-72 | even requests that end exactly at 2^64 never make an empty interval |
| IntervalSet.ExactlyOneRun | Sources/macMiniDump/Private/MacMiniDump.cpp:38-63 | a connected range that is covered lies in exactly one run |
| WrappedRequests.RunRegular | Sources/macMiniDump/Private/MacMiniDump.cpp:38-63 | after every run whose wrapping requests start at one address S: entries are ordinary or the one from S to 2^64, those that start below S keep a distance to the next one, and one from 0 to S keeps it to all others |
| WrappedRequests.RunKeeps | Sources/macMiniDump/Private/MacMiniDump.cpp:38-63 | what a request that does not wrap asked for lies in one entry after the whole run, whatever else was requested, if it starts below S or nothing wraps |
| WrappedRequests.BelowIsExact | Sources/macMiniDump/Private/MacMiniDump.cpp:38-72 | after every run an address below S is visited exactly once if it was requested, and never otherwise |
| ExactRuns.EachOnceIff | Sources/macMiniDump/Private/MacMiniDump.cpp:38-72 | visiting the entries of a run meets every requested address exactly once and no other exactly when the requests are harmless: nothing wraps, or some address below S is not requested, the map reached past S at most with an entry from S when some wrapping request came, and no later request reaches past S |
| ExactRuns.EachOnceIffBelow | Sources/macMiniDump/Private/MacMiniDump.cpp:38-72 | if what does not wrap starts below S, the condition is one on the requests in any order: nothing wraps, or the rest ends at S or below and leaves out some address below S |
| ExactRuns.RunDenotesIff | Sources/macMiniDump/Private/MacMiniDump.cpp:38-72 | the entries of a run are the maximal runs of the requested addresses exactly when the requests are harmless and, if something wraps, S - 1 is not requested |
| ExactRuns.AfterWrap | Sources/macMiniDump/Private/MacMiniDump.cpp:43-62 | the step at which it fails: a wrapping request leaves its entry alone above S exactly when every entry that reached past S started there and none reached from 0 to S |
| ExactRuns.AfterPlain | Sources/macMiniDump/Private/MacMiniDump.cpp:43-62 | the same for a request that does not wrap: it must stay at or below S and not complete the addresses from 0 to S |
| ExactRuns.SameStartDependsOnOrder | Sources/macMiniDump/Private/MacMiniDump.cpp:49-62 | two requests from S, one of them wrapping: exact in one order and not in the other |
| ExactRuns.DenotableIff | Sources/macMiniDump/Private/MacMiniDump.cpp:43-75 | a map that meets every requested address exactly once exists whenever no request runs past 2^64, so the failures are those of the insertion |
| ExactRuns.AboveIff | Sources/macMiniDump/Private/MacMiniDump.cpp:38-72 | an address from S on is in an entry at the end exactly when no request behind the last wrapping one starts at S while some address below S is not requested, or a request behind it asks for the address, or an entry from elsewhere than S held it before |
| ExactRuns.ShorterReplacesLonger | Sources/macMiniDump/Private/MacMiniDump.cpp:49-62 | a request from S, a wrapping one and a shorter one from S: what the first one asked for behind the shorter one is lost |
| Threads.CapturedInOrder | Sources/macMiniDump/Private/MacMiniDump.cpp:487-514 | the captured threads are, in order, exactly the listed ones that are the crashed one or whose two register sets can be had; the crashed one shows the registers of the crash, any other one its own |
| Threads.CollectAddresses | Sources/macMiniDump/Private/MacMiniDump.cpp:533-555 | every call stack address in bounds asks for its surroundings, and every address marks its module |
| Threads.CollectStack | Sources/macMiniDump/Private/MacMiniDump.cpp:557-578 | the stack is asked for from the stack pointer on, unless the thread dumps itself without a crash |
| Threads.AddThreadsToCore | Sources/macMiniDump/Private/MacMiniDump.cpp:443-592 | ids, thread commands, marked modules, intervals and segments are those of the captured threads |
| Threads.AddSegments | Sources/macMiniDump/Private/MacMiniDump.cpp:100-122 | one segment per interval whose protection is reported, filled from its own memory |
| Threads.StackRangeIsExact | Sources/macMiniDump/Private/MacMiniDump.cpp:569-577 | the stack length is exact: the found region contains the stack pointer, so nothing underflows |
| Threads.RecordedBounded | Sources/macMiniDump/Private/MacMiniDump.cpp:533-587 | no run of the loop makes an empty interval |
| Coverage.RequestedMeans | Sources/macMiniDump/Private/MacMiniDump.cpp:533-578 | an address is requested exactly when it is at most 256 away from a call stack address between 256 and UINT64_MAX - 256, or lies from the stack pointer up to the end of its region in the stack of a thread that is not the dumping one or after a crash |
| Coverage.RequestsWrapIff | Sources/macMiniDump/Private/MacMiniDump.cpp:541-546 | a request wraps exactly when a call stack holds the address UINT64_MAX - 256 |
| Coverage.RecordedDenotesIff | Sources/macMiniDump/Private/MacMiniDump.cpp:468-587 | the collected intervals meet every requested address exactly once exactly when the requests are harmless; they are the maximal runs exactly when, besides, no requested address touches the surroundings of UINT64_MAX - 256 from below while that address is on a call stack |
| Coverage.RecordedExactIff | Sources/macMiniDump/Private/MacMiniDump.cpp:468-587 | with all used stack pointers below UINT64_MAX - 512 they meet every requested address exactly once exactly when that address is on no call stack, or all other requests end at or below UINT64_MAX - 512 and leave out some address below |
| Coverage.EdgeAddressAlone | Sources/macMiniDump/Private/MacMiniDump.cpp:543-546 | that address alone gives one interval, visited as exactly its surroundings |
| Coverage.EdgeAddressOverlaps | Sources/macMiniDump/Private/MacMiniDump.cpp:543-546 | a concrete pair of addresses for which two intervals share addresses |
| Coverage.CallStackCovered | Sources/macMiniDump/Private/MacMiniDump.cpp:533-549 | after every run each call stack address from 256 to UINT64_MAX - 257 lies in one interval with its 256 neighbours on both sides; no other interval comes near if they end below UINT64_MAX - 512, or if every requested address is met once |
| Coverage.StackCovered | Sources/macMiniDump/Private/MacMiniDump.cpp:557-578 | after every run each included stack that starts below UINT64_MAX - 512 lies in one interval from its stack pointer to the end of its region, and so do all stacks without the edge address; no other interval comes near under the same conditions |
| Coverage.AboveEdgeIff | Sources/macMiniDump/Private/MacMiniDump.cpp:541-578 | while the edge address is on a call stack, an address from UINT64_MAX - 512 on, of a stack or not, is in an interval after the run exactly under the condition of ExactRuns.AboveIff |
| Coverage.ExecutingModules | Sources/macMiniDump/Private/MacMiniDump.cpp:551-554 | after the loop a module is executing exactly when it was before or an address on a call stack is its code |
| ModuleImage.GetSegmentsOfModule | Sources/macMiniDump/Private/ModuleList.cpp:16-38 | the segments of all segment commands, in order |
| ModuleImage.GetUuidOfModule | Sources/macMiniDump/Private/ModuleList.cpp:40-59 | the first UUID, or zeros |
| ModuleImage.GetPreferredTextAddress | Sources/macMiniDump/Private/MacMiniDump.cpp:151-170 | the address of the first __TEXT segment, or 0 |
| ModuleImage.FindUnwindSection | Sources/macMiniDump/Private/StackFrame.cpp:33-53 | the last unwind section and the last __TEXT segment |
| ModuleImage.CreateModuleInfo | Sources/macMiniDump/Private/ModuleList.cpp:74-118 | segments moved by the slide of the first __TEXT, __PAGEZERO left alone, or nothing when the header or the commands cannot be read |
| ModuleImage.SegmentsInOrder | Sources/macMiniDump/Private/ModuleList.cpp:16-38 | the segments of a module are its segment commands in order, with their names and sizes; all but __PAGEZERO are moved by the distance from the first __TEXT to the load address, and none is without a __TEXT |
| ModuleImage.ModuleFields | Sources/macMiniDump/Private/ModuleList.cpp:74-118 | load address, path, raw bytes and UUID of a module that was just found, which is not executing |
| ModuleImage.RawImageMeans | Sources/macMiniDump/Private/ModuleList.cpp:79-86 | header and commands are had exactly when their bytes can be read, as many as the header says, and they are those bytes |
| ModuleImage.UnwindSectionMeans | Sources/macMiniDump/Private/StackFrame.cpp:33-53 | the unwind section of an image is the last __unwind_info section of the last segment that has one |
| ImageFormat.ImageRoundTrip | Sources/macMiniDump/Private/ModuleList.cpp:16-72 | the walkers read back every image: a header and any segments with their sections, UUIDs and other commands, encoded byte by byte |
| ModuleImage.TextStartsAtLoadAddress | Sources/macMiniDump/Private/ModuleList.cpp:88-105 | after sliding, the first __TEXT segment starts at the load address |
| ModuleImage.SlidesAgreeIff | Sources/macMiniDump/Private/ModuleList.cpp:88-105 | the three slides: those of the note and of the segments agree exactly when there is a __TEXT or the load address is 0; that of the unwind lookup agrees exactly when first and last __TEXT prefer the same address |
| ModuleImage.SlidesCanDiffer | Sources/macMiniDump/Private/StackFrame.cpp:37-59 | a concrete image for which the slides differ |
| Modules.ModuleList.constructor | Sources/macMiniDump/Private/ModuleList.cpp:152-206 | if some image fails the list is empty; else it has a module at each listed load address, it is sorted, and a module is in it exactly when it comes from the first listed image at its load address |
| Modules.ModuleAtMeans | Sources/macMiniDump/Private/ModuleList.cpp:152-206 | an image fails exactly when its path, header or commands cannot be read; else its module has the listed address and path, and is not executing |
| Modules.ModuleList.GetModuleInfoForAddress | Sources/macMiniDump/Private/ModuleList.cpp:246-286 | the search of the ordered map |
| Modules.FindIsPredecessor | Sources/macMiniDump/Private/ModuleList.cpp:259-285 | the search finds a module exactly when it has the greatest load address not above the address, and the address is its code |
| Modules.FindRefinesScan | Sources/macMiniDump/Private/ModuleList.cpp:246-286 | on disjoint modules it finds the one that contains the address, or the one that ends there if none starts there |
| Modules.ModuleList.MarkAsExecuting | Sources/macMiniDump/Private/ModuleList.cpp:229-239 | sets the flag of the found module only |
| Modules.MarkedAllSetsExactly | Sources/macMiniDump/Private/ModuleList.cpp:229-239 | marking a list of addresses sets exactly the flags of the modules found for one of them |
| MemoryRegions.MemoryRegionList.GetRegionInfoForAddress | Sources/macMiniDump/Private/MemoryRegionList.cpp:76-112 | the search of the ordered map |
| MemoryRegions.FindRegionRefinesScan | Sources/macMiniDump/Private/MemoryRegionList.cpp:76-112 | it finds the region that contains the address, its end included; at a seam the region that starts there |
| MemoryRegions.FoundRegionContains | Sources/macMiniDump/Private/MemoryRegionList.cpp:81-111 | a found region contains the address, its end included |
| Search.CandidateIsPredecessor | Sources/macMiniDump/Private/MemoryRegionList.cpp:85-103 | the inspected entry is the one with the greatest key not above the address, or the first |
| Unwind.BisectSafe | Sources/macMiniDump/Private/StackFrame.cpp:76-101 | for any table contents the entry before the result has been read and is not above the bound, and the entry at the result is above it |
| Unwind.BisectReadsInside | Sources/macMiniDump/Private/StackFrame.cpp:76-92 | the bisection depends on no entry outside of the bounds it is given |
| Unwind.IndexEntrySafe | Sources/macMiniDump/Private/StackFrame.cpp:94-101 | the chosen index entry is readable and its function offset is not above the one looked for, so the later subtraction does not wrap |
| Unwind.Search | Sources/macMiniDump/Private/StackFrame.cpp:76-92 | the loop computes the bisection, and stops at an unreadable entry |
| Unwind.LookupUnwindInfo | Sources/macMiniDump/Private/StackFrame.cpp:66-218 | index, page and encoding in the order of the code; anything missing is Unknown |
| Unwind.BisectSorted | Sources/macMiniDump/Private/StackFrame.cpp:122-139 | on a sorted readable table the bisection splits the keys at the bound |
| Unwind.RegularRefines | Sources/macMiniDump/Private/StackFrame.cpp:114-150 | the lookup in a regular page is a scan of its functions |
| Unwind.CompressedRefines | Sources/macMiniDump/Private/StackFrame.cpp:152-205 | the lookup in a compressed page is a scan of its functions, with common and page-local encodings |
| Unwind.LookupRefinesFlat | Sources/macMiniDump/Private/StackFrame.cpp:66-218 | on every well-formed stored table whose pages place their entries right behind the page header the two-level lookup equals a scan of the flat function table |
| UnwindOffsets.RegularOffsetMatters | Sources/macMiniDump/Private/StackFrame.cpp:114-150 | for every entry offset of a regular page but the size of its header, a stored well-formed table and an address for which lookup and scan differ |
| UnwindOffsets.CompressedOffsetMatters | Sources/macMiniDump/Private/StackFrame.cpp:152-205 | the same for every entry offset of a compressed page at which entries can lie |
| UnwindOffsets.HeaderLeavesNoRoom | Sources/macMiniDump/Private/StackFrame.cpp:152-205 | no stored well-formed page has its entries at one of the remaining offsets |
| UnwindFormat.TableIsStored | Sources/macMiniDump/Private/StackFrame.cpp:55-205 | a table whose words lie at the places of the format (header fields at 4, 8, 20 and 24, index entries of 12 bytes, pages of kind 2 and 3 with the place and number of their entries at 4 and 6, regular entries of two words, compressed ones with 24 bits of offset and 8 of index) is one the lookup is made for |
| UnwindFormat.ModeRanges | Sources/macMiniDump/Private/StackFrame.cpp:207-218 | bits 24 to 27 of an encoding hold 2 for frameless functions and 4 for a frame; anything else is Unknown |
| Unwind.ScanFindsGreatest | Sources/macMiniDump/Private/StackFrame.cpp:74-92 | the scan finds the function with the greatest start not above the offset |
| Unwind.FlatIsSorted | Sources/macMiniDump/Private/StackFrame.cpp:61-64 | the flat table of a well-formed one is in order |
| StackWalk.TestsPickRanges | Sources/macMiniDump/Private/StackWalk.cpp:33-105 | the instruction tests and the exception class test pick exactly the ranges of words with the named prefixes |
| StackWalk.WalkStack | Sources/macMiniDump/Private/StackWalk.cpp:109-207 | with a frame pointer of 0 the result is empty; else it has one entry for pc, one for lr if the top function is frameless, and one for each of the n links of the chain: the stripped pc, the stripped lr, and the stripped words 8 bytes above each saved frame pointer, 0 where these cannot be read |
| StackWalk.CallStackIsWalk | Sources/macMiniDump/Private/StackWalk.cpp:183-207 | the specified call stack is that list, entry by entry |
| StackWalk.StackReadsBack | Sources/macMiniDump/Private/StackWalk.cpp:183-207 | frames that lie in memory as the calling convention stores them are walked back to their return addresses, in order |
| StackWalk.ChainEndsIff | Sources/macMiniDump/Private/StackWalk.cpp:187-204 | the chain has n links exactly when n saved frame pointers can be followed before one is 0 or unreadable |
| StackWalk.FramelessIff | Sources/macMiniDump/Private/StackWalk.cpp:151-181 | the top function is taken for frameless exactly when an instruction or data abort happened at a pc outside of executable memory with a call word before lr, or its unwind entry says so, or it has none and a supervisor call word lies before pc |
| StackWalk.FrameLookupRefinesFlat | Sources/macMiniDump/Private/StackFrame.cpp:21-219 | the lookup for a module scans the table stored in its image at the slid address |
| StackWalk.RegistersRoundTrip | Misc/core.hsl:190-257 | fp, lr, sp, pc and the syndrome read back from encoded register sets |
| StackWalk.LookupStackFrameForPC | Sources/macMiniDump/Private/StackFrame.cpp:21-219 | module, unwind section and table entry of an address, each looked up by its own search; anything missing is Unknown |
| StackWalk.HasNoStackFrame | Sources/macMiniDump/Private/StackWalk.cpp:151-181 | the top function is frameless by its unwind entry, or else by the instructions before the pc and the kind of exception |
| StackWalk.WalkEndsIff | Sources/macMiniDump/Private/StackWalk.cpp:187-204 | the walk ends exactly when the chain of saved frame pointers never comes back to an address it has passed |
| StackWalk.GrowingChainEnds | Sources/macMiniDump/Private/StackWalk.cpp:187-204 | it ends whenever the saved frame pointers grow until one is 0 or unreadable |
| StackWalk.ThreadStateRoundTrip | Misc/core.hsl:190-257 | kinds, word counts and both register sets read back from a thread command |
| ImageInfos.CreateAllImageInfosPayload | Sources/macMiniDump/Private/MacMiniDump.cpp:172-304 | the filled buffer is header, entries, address lists and paths with the file offsets that refer to them, whose bytes ImageInfosReader.NoteShowsModules spells out; empty without modules |
| ImageInfos.FillEntries | Sources/macMiniDump/Private/MacMiniDump.cpp:260-280 | entries one behind the other, nothing else touched |
| ImageInfos.FillAddrs | Sources/macMiniDump/Private/MacMiniDump.cpp:282-290 | address lists one behind the other, nothing else touched |
| ImageInfos.FillPaths | Sources/macMiniDump/Private/MacMiniDump.cpp:292-301 | zero-terminated paths up to the end of the buffer |
| ImageInfos.EntriesFillTheirRoom | Sources/macMiniDump/Private/MacMiniDump.cpp:212-251 | the entries end inside their reserved room exactly when there is a main executable, and meet the address lists without gap exactly when there is one |
| ImageInfos.StaysInBufferIff | Sources/macMiniDump/Private/MacMiniDump.cpp:213-280 | the last entry ends inside the payload exactly when there is a main executable, or the segment addresses and paths of all modules take at least the size of one entry |
| ImageInfos.EntryPastBuffer | Sources/macMiniDump/Private/MacMiniDump.cpp:213-280 | a list of one module, with no segments and an empty path, whose entry is written past the end of the buffer |
| ImageInfos.PayloadSize | Sources/macMiniDump/Private/MacMiniDump.cpp:247-251 | the payload is as long as its areas |
| ImageInfosReader.ImageRoundTrip | Sources/macMiniDump/Private/MacMiniDump.cpp:263-280 | both file offsets of an entry lead to its own path and its own segment addresses |
| ImageInfosReader.ImageInfosRoundTrip | Sources/macMiniDump/Private/MacMiniDump.cpp:212-303 | for every non-empty module list, reading through the file offsets recovers all images in order exactly when there is one main executable |
| ImageInfosReader.ImagesShowModules | Sources/macMiniDump/Private/MacMiniDump.cpp:212-303 | with one main executable image k has load address, UUID, executing flag and path of the k-th other module, and one entry for each of its segments with its address and name |
| ImageInfosReader.NoteShowsModules | Sources/macMiniDump/Private/MacMiniDump.cpp:172-304 | the same as bytes: each field of header, entries, address lists and paths at its place |
| ImageInfosReader.ParseAllImageInfosNote | Misc/core.hsl:366-398 | the three loops compute entries, addresses and paths, with the 32-bit counters of the template |
| ImageInfosReader.ViewRoundTrip | Misc/core.hsl:384-397 | the template lists the same entries, addresses and paths if there are no addresses or the last one starts below 4 GiB |
| ImageInfosReader.ViewFails | Misc/core.hsl:384-397 | a file for which it does not, for any address that starts at 4 GiB or later and whose place modulo 2^32 lies before the note |
| ImageInfosReader.ViewAlwaysIff | Misc/core.hsl:384-397 | for a note behind the places modulo 2^32 the template is right in every file exactly under that condition |
| MainExecutable.CreateMainBinSpecPayload | Sources/macMiniDump/Private/MacMiniDump.cpp:306-329 | field by field: version 2, kind 0, address UINT64_MAX, no page size and platform; UUID of the first executable and its slide modulo 2^64, or zeros and UINT64_MAX without one |
| MainExecutable.MainBinSpecRoundTrip | Sources/macMiniDump/Private/MachOCoreInternal.hpp:49-57 | an encoded specification decodes to itself |
| ProcessMetadata.CreateProcessMetadataPayload | Sources/macMiniDump/Private/MacMiniDump.cpp:127-142 | the loop prints the JSON text of the ids |
| ProcessMetadata.MetadataText | Sources/macMiniDump/Private/MacMiniDump.cpp:127-142 | the text, spelled out |
| ProcessMetadata.DecimalDigits | Sources/macMiniDump/Private/MacMiniDump.cpp:135 | numbers are printed in decimal: digit i from the right has the weight 10^i |
| ProcessMetadata.ParsePrint | Sources/macMiniDump/Private/MacMiniDump.cpp:124-126 | every JSON value with plain names reads back from its text, whatever follows |
| ProcessMetadata.ThreadIdsRoundTrip | Sources/macMiniDump/Private/MacMiniDump.cpp:127-142 | the printed note reads back as exactly the ids, in order |
| ProcessMetadata.NoteBytesRoundTrip | Sources/macMiniDump/Private/MacMiniDump.cpp:354-359 | the same for the bytes of the note |
| MiniDump.FourNotesLookup | Sources/macMiniDump/Private/MacMiniDump.cpp:594-603 | each of the four owners leads to its own note, also the one of 16 characters |
| MiniDump.AddNotesToCore | Sources/macMiniDump/Private/MacMiniDump.cpp:594-603 | the four notes in order, without data |
| MiniDump.AttachPayloads | Sources/macMiniDump/Private/MacMiniDump.cpp:338-384 | all payloads, the one about images made for the offset its note has; it fails exactly when there are no modules or a buffer would exceed the address space |
| MiniDump.ImageInfosOffsetIsStable | Sources/macMiniDump/Private/MacMiniDump.cpp:366-368 | the file offset used before later sizes are known is the one the note ends up with |
| MiniDump.SegmentBaseIsStable | Sources/macMiniDump/Private/MachOCoreDumpBuilder.cpp:254-259 | setting the offsets of the notes does not move the segments |
| MiniDump.PlacingTwice | Sources/macMiniDump/Private/MacMiniDump.cpp:386-389 | the file offsets set before the build are those the build sets again |
| MiniDump.AddPayloadsAndWrite | Sources/macMiniDump/Private/MacMiniDump.cpp:331-392 | final header, notes, segments and stream contents after success; refused only without address bits, where a buffer does not fit, where the stream failed, or where a segment cannot be read |
| WriteDump.CollectAndWrite | Sources/macMiniDump/Private/MacMiniDump.cpp:641-661 | what was collected from the captured threads, written from where the stream stands; refused only where a query or the stream failed or what was collected cannot be written |
| PortRights.MachPortSendRightRef.Move | Sources/macMiniDump/Private/MachPortSendRightRef.cpp:12-17 | the right moves together with the task that owns it, and the source holds none |
| PortRights.MachPortSendRightRef.MoveAssign | Sources/macMiniDump/Private/MachPortSendRightRef.cpp:19-26 | the own right is given back once, to its own task, and the other one moves with its task; assignment from oneself does nothing |
| PortRights.MachPortSendRightRef.Reset | Sources/macMiniDump/Private/MachPortSendRightRef.cpp:43-50 | gives back the right held so far, if any, in the name space of the task that owns it, and takes over port and task |
| PortRights.MachPortSendRightRef.Release | Sources/macMiniDump/Private/MachPortSendRightRef.cpp:38-41 | hands the right out and holds none |
| PortRights.MachPortSendRightRef.Destroy | Sources/macMiniDump/Private/MachPortSendRightRef.cpp:28-31 | gives back the right held, if any, in the name space of the task that owns it |
| PortRights.PushBack | Sources/macMiniDump/Private/MacMiniDump.cpp:418 | moves one right into a vector, which may reallocate, without giving any back |
| PortRights.DestroyAll | Sources/macMiniDump/Private/MacMiniDump.cpp:404-408 | the rights a vector owns are given back, each once |
| PortRights.SuspendAllThreadsExceptCurrentOne | Sources/macMiniDump/Private/MacMiniDump.cpp:394-432 | every listed thread but the current one is asked to stop; exactly the rights of those that were suspended are kept; it fails exactly when the threads cannot be listed |
| PortRights.ResumeThreads | Sources/macMiniDump/Private/MacMiniDump.cpp:434-441 | one resume call for each reference, while its right is held |

## Left out

- StackWalk.WalkStack: asks for a chain of frame pointers that ends, because on any other memory the loop of the program does not end; the assertion against dereferencing address 0, which only a frame pointer of 2^64 - 8 reaches, is not modelled.
- Unwind.LookupRefinesFlat: asks for pages whose entries follow the page header, because on other pages the lookup is wrong, as the lemmas of UnwindOffsets show.
- ImageInfos.CreateAllImageInfosPayload: asks that the entries stay inside the buffer; where they do not, which ImageInfos.StaysInBufferIff tells exactly, the program writes past its end.
- MainExecutable.CreateMainBinSpecPayload: the assertion of debug builds for a list without a main executable is not modelled.
- CoreBuilder.MachOCoreDumpBuilder.WriteToOStream: data that could not be read counts as a refused write when its size is positive; the program asserts there, and a release build hands a null pointer to the stream.
- ModuleImage.CreateModuleInfo: takes images whose header and commands are well-formed; the program would read past the end of a malformed one.
- Modules.ModuleList.constructor: takes images whose header and commands are well-formed, for the same reason.
- MemoryRegions.MemoryRegionList.constructor: takes any map of disjoint regions that do not wrap; the enumeration loop depends on the kernel's answers and is not part of this model.
- MiniDump.AttachPayloads: asks that the entries of the image payload stay inside their buffer, for the same reason.
- MiniDump.AddPayloadsAndWrite: asks the same.
- SuspendedDump.MiniDumpWriteDumpImpl: asks for frame chains that end, disjoint regions, well-formed images and image entries that stay inside their buffer, as the lines above say; the check of the passed port is a parameter, and the rights of the listed threads are given back before their memory is collected instead of right after it.
- PortRights.Kernel.TaskThreads: the array that the kernel allocates for the list of threads, and its deallocation, are not modelled.
- Allocation failures are not modelled, except that buffers of 2^64 bytes or more end the dump.
- The x86-64 variants: sizes, register sets and the unwind lookup that always answers Unknown.
- Stripping pointer authentication bits is an arbitrary function of the address.
- The loader's data structures behind the image list, and the bounded reading of path strings, are replaced by a list of load addresses and optional paths.
- File descriptors, partial writes and flushing: the stream writes all or nothing.
- The zone allocator, logging and the deferred-action helper itself.
- The unused parts of the region list and the thread information class.
- Process control around LLDB and the example programs.
