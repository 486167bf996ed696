/** The whole call: the stream is emptied, the target suspended, the dump written, and the target resumed. */
module SuspendedDump {
  import opened Bytes
  import opened DataAccess
  import opened Stream
  import opened CoreBuilder
  import opened Modules
  import opened StackWalk
  import opened Threads
  import opened MiniDump
  import opened PortRights
  import opened WriteDump
  import MemoryRegions

  /** The kernel's answer lists the same threads as ports and as states; the current thread is known by its port. */
  predicate SameThreads(ports: seq<Port>, views: seq<ThreadView>, self: Port) {
    |ports| == |views| && forall i :: 0 <= i < |ports| ==> (views[i].isSelf <==> ports[i] == self)
  }

  /** Every listed thread but the current one has been asked to stop, with success or not. */
  ghost predicate AllAsked(before: multiset<Right>, ports: seq<Port>, kernel: Kernel)
    reads kernel
  {
    kernel.Asked() == before + Others(RightsOf(kernel.task, ports), kernel.self)
  }

  /** The steps of a dump while the target is suspended: the listed threads are held only as long as they are visited. */
  method ListAndCollect(toDump: seq<Port>, kernel: Kernel, out: OStream, debug: bool, views: seq<ThreadView>,
                        crash: Option<CrashContext>, mem: Memory, regions: MemoryRegions.MemoryRegionList,
                        refs: seq<ImageRef>, strip: uint64 -> uint64, prot: uint64 -> Option<uint32>,
                        bits: Option<uint32>)
    returns (r: Outcome, ghost d: Dump)
    requires LoaderOk(mem, refs) && MemoryRegions.RegionsOk(regions.regions) && out.data == []
    requires AllWalkable(mem, CaptureAll(views, crash))
    modifies kernel`held, kernel`failures, out
    ensures kernel.held == old(kernel.held)
    ensures r != Refused ==> kernel.failures == old(kernel.failures) && out.failures == old(out.failures)
    ensures r == Refused ==>
              || kernel.failures > old(kernel.failures) || bits.None? || out.failures > old(out.failures)
              || (Collected(d, Target(mem, regions.regions, LoadedModules(mem, refs), strip), CaptureAll(views, crash), prot)
                  && !CanBeWritten(d))
    ensures r == Done ==>
              && bits.Some? && d.target == Target(mem, regions.regions, LoadedModules(mem, refs), strip)
              && d.captured == CaptureAll(views, crash)
              && DumpOk(d, prot, bits.value)
              && out.data == Replay([], DumpWrites(old(out.pos), d))
    ensures r == WouldOverwrite ==> debug && PayloadsOk(d.payloads) && (old(out.pos) != 0 || !DumpFits(d))
  {
    hide *;
    var listed := EnumerateThreads(toDump, kernel);
    r, d := CollectAndWrite(out, debug, if listed then Some(views) else None, crash, mem, regions, refs, strip, prot, bits);
  }

  /** Suspends, collects and writes, and resumes. */
  method DumpSuspended(task: Port, selfDump: bool, toSuspend: seq<Port>, toDump: seq<Port>, kernel: Kernel,
                       out: OStream, debug: bool, views: seq<ThreadView>, crash: Option<CrashContext>,
                       mem: Memory, regions: MemoryRegions.MemoryRegionList, refs: seq<ImageRef>,
                       strip: uint64 -> uint64, prot: uint64 -> Option<uint32>, bits: Option<uint32>)
    returns (r: Outcome, ghost d: Dump, ghost stopped: multiset<Right>)
    requires task != MACH_PORT_NULL && Right(kernel.task, task) in kernel.held
    requires LoaderOk(mem, refs) && MemoryRegions.RegionsOk(regions.regions) && out.data == []
    requires AllWalkable(mem, CaptureAll(views, crash))
    modifies kernel, out
    ensures kernel.held == old(kernel.held)
    ensures r != Refused && selfDump ==> AllAsked(old(kernel.Asked()), toSuspend, kernel)
    ensures r == Refused ==>
              || kernel.failures > old(kernel.failures) || bits.None? || out.failures > old(out.failures)
              || (!selfDump && kernel.refused == old(kernel.refused) + multiset{Right(kernel.task, task)})
              || (Collected(d, Target(mem, regions.regions, LoadedModules(mem, refs), strip), CaptureAll(views, crash), prot)
                  && !CanBeWritten(d))
    ensures kernel.suspends == old(kernel.suspends) + stopped && kernel.resumes == old(kernel.resumes) + stopped
    ensures StoppedOnly(stopped, task, selfDump, kernel)
    ensures r == Done ==>
              && bits.Some? && (!selfDump ==> stopped == multiset{Right(kernel.task, task)})
              && d.target == Target(mem, regions.regions, LoadedModules(mem, refs), strip)
              && d.captured == CaptureAll(views, crash)
              && DumpOk(d, prot, bits.value)
              && out.data == Replay([], DumpWrites(old(out.pos), d))
    ensures r == WouldOverwrite ==> debug && PayloadsOk(d.payloads) && (old(out.pos) != 0 || !DumpFits(d))
  {
    hide Owned, LoaderOk, MemoryRegions.RegionsOk, AllWalkable, CaptureAll, DumpOk, Kernel.Asked, Rights, RightsOf,
         DumpFits, DumpWrites, LoadedModules, OthersOnly, PayloadsOk, Replay, Distinct, Many, StoppedOnly, Collected,
         CanBeWritten, Others;
    r, d := Refused, *;
    ghost var before := kernel.held;
    var ok, suspendedThreads;
    ok, suspendedThreads, stopped := Begin(task, selfDump, toSuspend, kernel);
    NoOthers(kernel.self);
    if !ok {
      return;
    }
    r, d := ListAndCollect(toDump, kernel, out, debug, views, crash, mem, regions, refs, strip, prot, bits);
    End(task, selfDump, suspendedThreads, kernel, before);
  }

  /**
   On every return all rights have been given back once, and the resume calls are exactly those for what was
   suspended. Where a dump is reported as done, the stream holds the writes of the layout for the captured
   threads, the collected intervals, the marked modules and the payloads, from where the stream stood. A dump is
   refused only where `task` is no task, a call to the kernel or the stream failed, or what was collected cannot be
   written.
   */
  method MiniDumpWriteDumpImpl(task: Port, isTask: bool, selfDump: bool, toSuspend: seq<Port>, toDump: seq<Port>, kernel: Kernel,
                               out: OStream, debug: bool, views: seq<ThreadView>, crash: Option<CrashContext>,
                               mem: Memory, regions: MemoryRegions.MemoryRegionList, refs: seq<ImageRef>,
                               strip: uint64 -> uint64, prot: uint64 -> Option<uint32>, bits: Option<uint32>)
    returns (r: Outcome, ghost d: Dump, ghost stopped: multiset<Right>)
    requires task != MACH_PORT_NULL && Right(kernel.task, task) in kernel.held && SameThreads(toDump, views, kernel.self)
    requires LoaderOk(mem, refs) && MemoryRegions.RegionsOk(regions.regions)
    requires AllWalkable(mem, CaptureAll(views, crash))
    modifies kernel, out
    ensures kernel.held == old(kernel.held)
    ensures r != Refused && selfDump ==> AllAsked(old(kernel.Asked()), toSuspend, kernel)
    ensures r == Refused ==>
              || !isTask || kernel.failures > old(kernel.failures) || bits.None? || out.failures > old(out.failures)
              || (!selfDump && kernel.refused == old(kernel.refused) + multiset{Right(kernel.task, task)})
              || (Collected(d, Target(mem, regions.regions, LoadedModules(mem, refs), strip), CaptureAll(views, crash), prot)
                  && !CanBeWritten(d))
    ensures kernel.suspends == old(kernel.suspends) + stopped && kernel.resumes == old(kernel.resumes) + stopped
    ensures StoppedOnly(stopped, task, selfDump, kernel)
    ensures r == Done ==>
              && bits.Some? && (!selfDump ==> stopped == multiset{Right(kernel.task, task)})
              && d.target == Target(mem, regions.regions, LoadedModules(mem, refs), strip)
              && d.captured == CaptureAll(views, crash)
              && DumpOk(d, prot, bits.value)
              && out.data == Replay([], DumpWrites(old(out.pos), d))
    ensures r == WouldOverwrite ==> debug && PayloadsOk(d.payloads) && (old(out.pos) != 0 || !DumpFits(d))
  {
    hide LoaderOk, MemoryRegions.RegionsOk, AllWalkable, CaptureAll, DumpOk, DumpFits, DumpWrites, LoadedModules, PayloadsOk,
         Replay, SameThreads, Collected, CanBeWritten, AllAsked;
    r, d, stopped := Refused, *, multiset{};
    if !isTask {
      return;
    }
    var emptied := out.SetSize(0);
    if !emptied {
      return;
    }
    r, d, stopped := DumpSuspended(task, selfDump, toSuspend, toDump, kernel, out, debug, views, crash, mem, regions, refs,
                                   strip, prot, bits);
  }
}
