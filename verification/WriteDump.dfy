/** A whole dump of a suspended process, from the empty stream to the finished file. */
module WriteDump {
  import opened Bytes
  import opened MachO
  import opened DataAccess
  import opened Stream
  import opened Layout
  import opened CoreBuilder
  import opened ModuleImage
  import opened Modules
  import opened Threads
  import opened ImageInfos
  import opened CoreReader
  import opened CoreFile
  import opened MiniDump
  import MemoryRegions
  import IntervalSet

  // ---------------------------------------------------------------- segments of the collected intervals

  lemma {:induction false} ProtectedAmong(ivs: seq<IntervalSet.Interval>, prot: uint64 -> Option<uint32>,
                                          iv: IntervalSet.Interval)
    ensures iv in Protected(ivs, prot) <==> iv in ivs && prot(iv.start).Some?
  {
    if ivs != [] {
      ProtectedAmong(ivs[..|ivs| - 1], prot, iv);
      assert ivs == ivs[..|ivs| - 1] + [ivs[|ivs| - 1]];
    }
  }

  lemma {:induction false} ProtectedKeepsOrder(ivs: seq<IntervalSet.Interval>, prot: uint64 -> Option<uint32>)
    requires IntervalSet.KeySorted(ivs)
    ensures IntervalSet.KeySorted(Protected(ivs, prot))
  {
    if ivs != [] {
      var init, last := ivs[..|ivs| - 1], ivs[|ivs| - 1];
      ProtectedKeepsOrder(init, prot);
      forall k | 0 <= k < |Protected(init, prot)|
        ensures Protected(init, prot)[k].start < last.start
      {
        ProtectedAmong(init, prot, Protected(init, prot)[k]);
      }
    }
  }

  /** Whatever was collected, no segment is empty and no two start at the same address. */
  lemma SegmentsAreUsable(added: seq<SegmentEntry>, ivs: seq<IntervalSet.Interval>, mem: Memory,
                          prot: uint64 -> Option<uint32>)
    requires IntervalSet.KeySorted(ivs) && IntervalSet.AllBounded(ivs)
    requires SegmentsFor(added, Protected(ivs, prot), mem, prot)
    ensures SegmentsNotEmpty(added) && AddressesDistinct(added)
  {
    hide IntervalSet.Bounded, IntervalSet.LengthOf;
    ProtectedKeepsOrder(ivs, prot);
    forall i | 0 <= i < |added| ensures added[i].data.Some? && added[i].data.value.size > 0 {
      var iv := Protected(ivs, prot)[i];
      assert iv in Protected(ivs, prot);
      ProtectedAmong(ivs, prot, iv);
      IntervalBack(iv);
      assert SegmentFor(added[i], iv, mem, prot);
    }
    assert forall i :: 0 <= i < |added| ==> SegmentFor(added[i], Protected(ivs, prot)[i], mem, prot);
  }

  // ---------------------------------------------------------------- modules after marking

  lemma SameModuleIsMain(a: ModuleInfo, b: ModuleInfo)
    requires ModuleOk(b) && a == b.(executing := a.executing)
    ensures ModuleOk(a) && IsMainExecutable(a) == IsMainExecutable(b)
  {
  }

  /** The flags do not matter for which modules are images, nor for the space these need. */
  lemma {:induction false} SameModulesImages(a: seq<ModuleInfo>, b: seq<ModuleInfo>)
    requires AllOk(b) && SameModules(a, b)
    ensures AllOk(a) && SameModules(Images(a), Images(b))
  {
    hide ModuleOk, IsMainExecutable;
    forall i | 0 <= i < |a| ensures ModuleOk(a[i]) {
      SameModuleIsMain(a[i], b[i]);
    }
    if a != [] {
      SameModulesImages(a[..|a| - 1], b[..|b| - 1]);
      SameModuleIsMain(a[|a| - 1], b[|b| - 1]);
    }
  }

  lemma SameModulesBlocks(a: seq<ModuleInfo>, b: seq<ModuleInfo>)
    requires SameModules(a, b)
    ensures AddrBlocks(a) == AddrBlocks(b) && PathBlocks(a) == PathBlocks(b)
  {
    hide AddrCodes;
    forall i | 0 <= i < |a| ensures AddrBlock(a[i]) == AddrBlock(b[i]) {
      assert SegmentAddrs(a[i]) == SegmentAddrs(b[i]);
    }
  }

  lemma SameModulesStay(a: seq<ModuleInfo>, b: seq<ModuleInfo>)
    requires AllOk(b) && SameModules(a, b) && StaysInBuffer(b)
    ensures AllOk(a) && StaysInBuffer(a)
  {
    hide ModuleOk, Images, AddrBlocks, PathBlocks;
    SameModulesImages(a, b);
    SameModulesBlocks(Images(a), Images(b));
  }

  // ---------------------------------------------------------------- the dump

  /** Everything that has been decided by the time the file is written. */
  datatype Dump = Dump(target: Target, captured: seq<Captured>, crashed: bool, ids: seq<uint64>, modules: seq<ModuleInfo>,
                       intervals: seq<IntervalSet.Interval>, payloads: Payloads, header: Header, notes: seq<NoteEntry>,
                       added: seq<SegmentEntry>, segments: seq<SegmentEntry>)

  ghost predicate DumpOk(d: Dump, prot: uint64 -> Option<uint32>, bits: uint32) {
    && Recorded(d.target, d.captured, d.crashed, d.ids, d.modules, d.intervals)
    && SegmentsFor(d.added, Protected(d.intervals, prot), d.target.mem, prot)
    && |d.notes| == 4 && PayloadsFor(d.payloads, bits, d.modules, d.ids, d.notes[1].cmd.offset)
    && BuiltFrom(d.header, d.notes, States(d.captured), d.segments, d.payloads, d.added)
    && AllWritable(d.segments, |d.segments|)
  }

  /** What the dump of a target writes, from stream position `pos` on. */
  function DumpWrites(pos: nat, d: Dump): seq<Write> {
    FileWrites(pos, d.header, d.notes, States(d.captured), d.segments)
  }

  /** All sizes and offsets stay within their fields. */
  predicate DumpFits(d: Dump)
    requires PayloadsOk(d.payloads)
  {
    Fits(NotesWith(d.payloads), |d.captured|, d.added)
  }

  /** The images of the target are well-formed, and the entries made for them stay inside their buffer. */
  ghost predicate LoaderOk(mem: Memory, refs: seq<ImageRef>) {
    && ImagesOk(mem, refs)
    && (Listed(mem, refs).Some? ==> AllOk(Listed(mem, refs).value) && StaysInBuffer(Listed(mem, refs).value))
  }

  function LoadedModules(mem: Memory, refs: seq<ImageRef>): seq<ModuleInfo>
    requires ImagesOk(mem, refs)
  {
    if Listed(mem, refs).Some? then Listed(mem, refs).value else []
  }

  lemma LoadedOk(mem: Memory, refs: seq<ImageRef>)
    requires LoaderOk(mem, refs)
    ensures var modules := LoadedModules(mem, refs);
            AllOk(modules) && StaysInBuffer(modules)
  {
    hide ModuleOk, Images, Listed;
  }

  lemma MarkedModulesOk(t: Target, cs: seq<Captured>, crash: bool, ids: seq<uint64>, modules: seq<ModuleInfo>,
                        intervals: seq<IntervalSet.Interval>)
    requires Recorded(t, cs, crash, ids, modules, intervals)
    requires AllOk(t.modules) && StaysInBuffer(t.modules)
    ensures AllOk(modules) && StaysInBuffer(modules)
  {
    hide Recorded, AllOk, StaysInBuffer, ModuleOk;
    RecordedIsOk(t, cs, crash, ids, modules, intervals);
    SameModulesStay(modules, t.modules);
  }

  /** The threads of the process have been recorded, and the segments of the collected intervals added. */
  ghost predicate Collected(d: Dump, target: Target, captured: seq<Captured>, prot: uint64 -> Option<uint32>) {
    && d.target == target && d.captured == captured
    && Recorded(target, captured, d.crashed, d.ids, d.modules, d.intervals)
    && SegmentsFor(d.added, Protected(d.intervals, prot), target.mem, prot)
  }

  /** What was collected can be written: the buffers fit, and of each segment what exceeds its chunks can be read. */
  predicate CanBeWritten(d: Dump) {
    BuffersFit(d.modules, d.ids) && AllWritable(d.added, |d.added|)
  }

  /**
   Collects everything and writes the file into an emptied stream. The target is suspended all the while, so
   its memory does not change.
   */
  method CollectAndWrite(out: OStream, debug: bool, views: Option<seq<ThreadView>>, crash: Option<CrashContext>,
                         mem: Memory, regions: MemoryRegions.MemoryRegionList, refs: seq<ImageRef>,
                         strip: uint64 -> uint64, prot: uint64 -> Option<uint32>, bits: Option<uint32>)
    returns (r: Outcome, ghost d: Dump)
    requires LoaderOk(mem, refs) && MemoryRegions.RegionsOk(regions.regions) && out.data == []
    requires views.Some? ==> AllWalkable(mem, CaptureAll(views.value, crash))
    modifies out
    ensures r == Done ==>
              && views.Some? && bits.Some?
              && d.target == Target(mem, regions.regions, LoadedModules(mem, refs), strip)
              && d.captured == CaptureAll(views.value, crash)
              && DumpOk(d, prot, bits.value)
              && out.data == Replay([], DumpWrites(old(out.pos), d))
    ensures r == WouldOverwrite ==> debug && PayloadsOk(d.payloads) && (old(out.pos) != 0 || !DumpFits(d))
    ensures var target := Target(mem, regions.regions, LoadedModules(mem, refs), strip);
            && (views.Some? ==> Collected(d, target, CaptureAll(views.value, crash), prot))
            && (r == Refused ==>
                  views.None? || bits.None? || out.failures > old(out.failures) || !CanBeWritten(d))
    ensures r != Refused ==> views.Some? && out.failures == old(out.failures)
  {
    hide EntriesOk, ListOk, ImagesOk, Listed, MemoryRegions.RegionsOk, Recorded, AllWalkable, CaptureAll, SegmentsFor,
         Protected, AllOk, StaysInBuffer, PayloadsFor, BuiltFrom, AllWritable, FileWrites, FourNotes, SegmentsNotEmpty,
         AddressesDistinct, Readers;
    d := *;
    var builder := new MachOCoreDumpBuilder(debug);
    var list := new ModuleList(mem, refs);
    ghost var modules := list.modules;
    ghost var target := Target(mem, regions.regions, modules, strip);
    ghost var intervals, added;
    var ok, ids;
    ok, ids, intervals, added := AddThreadsToCore(views, crash, mem, regions, list, strip, prot, builder);
    if !ok {
      return Refused, d;
    }
    ghost var captured := CaptureAll(views.value, crash);
    RecordedIsOk(target, captured, crash.Some?, ids, list.modules, intervals);
    RecordedBounded(target, captured, crash.Some?, ids, list.modules, intervals);
    SegmentsAreUsable(added, intervals, mem, prot);
    assert builder.segments == added && builder.threads == States(captured) && out.data == [];
    LoadedOk(mem, refs);
    MarkedModulesOk(target, captured, crash.Some?, ids, list.modules, intervals);
    AddNotesToCore(builder);
    ghost var p;
    r, p := AddPayloadsAndWrite(builder, list.modules, ids, out, bits);
    d := Dump(target, captured, crash.Some?, ids, list.modules, intervals, p, builder.header, builder.notes, added,
              builder.segments);
  }

  // ---------------------------------------------------------------- the finished file

  /** A dump written from the beginning of the stream. */
  ghost predicate DumpFile(file: seq<byte>, d: Dump, prot: uint64 -> Option<uint32>, bits: uint32) {
    DumpOk(d, prot, bits) && DumpFits(d) && file == Replay([], DumpWrites(0, d))
  }

  lemma SegmentsForOk(added: seq<SegmentEntry>, ivs: seq<IntervalSet.Interval>, mem: Memory,
                      prot: uint64 -> Option<uint32>, i: nat)
    requires IntervalSet.AllBounded(ivs) && SegmentsFor(added, Protected(ivs, prot), mem, prot) && i < |added|
    ensures SegmentOk(added[i]) && FromMemory(added[i], mem)
  {
    hide IntervalSet.Bounded;
    var iv := Protected(ivs, prot)[i];
    assert iv in Protected(ivs, prot);
    ProtectedAmong(ivs, prot, iv);
    IntervalBack(iv);
    assert SegmentFor(added[i], iv, mem, prot);
  }

  lemma DumpIsReady(d: Dump, prot: uint64 -> Option<uint32>, bits: uint32)
    requires DumpOk(d, prot, bits)
    ensures PayloadsOk(d.payloads) && OwnersDistinct(NotesWith(d.payloads))
    ensures PayloadsReady(NotesWith(d.payloads), d.added)
    ensures IntervalSet.KeySorted(d.intervals) && IntervalSet.AllBounded(d.intervals)
  {
    hide Recorded, SegmentsFor, Protected, SegmentOk, FromMemory, BuiltFrom, AllWritable;
    PayloadsForIsOk(d.payloads, bits, d.modules, d.ids, d.notes[1].cmd.offset);
    RecordedIsOk(d.target, d.captured, d.crashed, d.ids, d.modules, d.intervals);
    RecordedBounded(d.target, d.captured, d.crashed, d.ids, d.modules, d.intervals);
    SegmentsAreUsable(d.added, d.intervals, d.target.mem, prot);
    forall i | 0 <= i < |d.added| ensures SegmentOk(d.added[i]) {
      SegmentsForOk(d.added, d.intervals, d.target.mem, prot, i);
    }
    NotesReady(d.payloads, d.added);
  }

  /** In a fitting file the header counts exactly what follows it. */
  lemma HeaderIsExact(header: Header, threads: nat, added: nat)
    requires CommandsSize(4, threads, added) < UINT32_MOD
    requires header == Header(MH_MAGIC_64, CPU_TYPE_ARM64, 0, MH_CORE, header.ncmds, header.sizeofcmds, 0, 0)
    requires header.ncmds == (4 + threads + added) % UINT32_MOD
    requires header.sizeofcmds == CommandsSize(4, threads, added) % UINT32_MOD
    ensures HeaderFor(header, 4, threads, added)
  {
  }

  lemma DumpIsFinished(file: seq<byte>, d: Dump, prot: uint64 -> Option<uint32>, bits: uint32)
    requires DumpFile(file, d, prot, bits)
    ensures Finished(file, d.header, d.notes, States(d.captured), d.segments)
  {
    hide Recorded, SegmentsFor, Protected, PayloadsFor, AllWritable, OwnersDistinct, NotesWith, PlacedNotes, PlacedSegments,
         FileEnd, PayloadsReady, FileWrites, NoteBase, SegmentBase, SegmentBase64, Placed, Head, States;
    DumpIsReady(d, prot, bits);
    var notes0 := NotesWith(d.payloads);
    assert |notes0| == 4 by { NotesWithSize(d.payloads); }
    HeaderIsExact(d.header, |d.captured|, |d.added|);
    FittingIsExact(d.header, notes0, States(d.captured), d.added, d.notes, d.segments);
  }

  lemma NotesWithSize(p: Payloads)
    requires PayloadsOk(p)
    ensures |NotesWith(p)| == 4
  {
  }

  /**
   Walking the load commands returns the four notes, one command per recorded thread, and one per
   protected interval, and ends where the header says.
   */
  lemma DumpParses(file: seq<byte>, d: Dump, prot: uint64 -> Option<uint32>, bits: uint32)
    requires DumpFile(file, d, prot, bits)
    ensures ParseFile(file)
            == Some(Core(d.header, Commands(d.notes, States(d.captured), d.segments), HEADER_SIZE + d.header.sizeofcmds))
  {
    hide *;
    DumpIsFinished(file, d, prot, bits);
    FinishedParses(file, d.header, d.notes, States(d.captured), d.segments);
  }

  /** A dump is written from wherever the stream stands; a reader accepts it exactly if that is the start. */
  lemma ReadableIffAtStart(pos: nat, d: Dump, prot: uint64 -> Option<uint32>, bits: uint32)
    requires DumpOk(d, prot, bits) && DumpFits(d)
    ensures ParseFile(Replay([], DumpWrites(pos, d))).Some? <==> pos == 0
  {
    hide DumpOk, DumpFits, States, Placed, HeaderFor, FileWrites, ParseFile, NoteBase, SegmentBase;
    DumpIsFinished(Replay([], DumpWrites(0, d)), d, prot, bits);
    ReadableIffFromStart(pos, d.header, d.notes, States(d.captured), d.segments);
  }
}
