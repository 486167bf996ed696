/**
 The loop over the threads of the target: it records thread commands and ids, collects the memory around
 every instruction pointer and the used part of every stack, and adds what it collected as segments.
 */
module Threads {
  import opened Bytes
  import opened MachO
  import opened DataAccess
  import opened Layout
  import opened CoreBuilder
  import opened ModuleImage
  import opened Modules
  import opened StackWalk
  import IntervalSet
  import MemoryRegions

  /** What the kernel answers for one thread; any of the three queries may fail. */
  datatype ThreadView = ThreadView(isSelf: bool, tid: Option<uint64>, gpr: Option<gpr_bytes>, exc: Option<exc_bytes>)

  datatype CrashContext = CrashContext(crashedTid: uint64, gpr: gpr_bytes, exc: exc_bytes)

  /** A thread whose state is known. */
  datatype Captured = Captured(isSelf: bool, tid: uint64, gpr: gpr_bytes, exc: exc_bytes)

  function Tid(t: ThreadView): uint64 {
    if t.tid.Some? then t.tid.value else 0
  }

  /** The crashed thread has the state of the crash; the others have the state the kernel reports. */
  function Capture(t: ThreadView, crash: Option<CrashContext>): Option<Captured> {
    if crash.Some? && Tid(t) == crash.value.crashedTid then
      Some(Captured(t.isSelf, Tid(t), crash.value.gpr, crash.value.exc))
    else if t.gpr.Some? && t.exc.Some? then
      Some(Captured(t.isSelf, Tid(t), t.gpr.value, t.exc.value))
    else
      None
  }

  function CaptureAll(ts: seq<ThreadView>, crash: Option<CrashContext>): seq<Captured> {
    if ts == [] then []
    else
      CaptureAll(ts[..|ts| - 1], crash)
      + match Capture(ts[|ts| - 1], crash)
        case Some(c) => [c]
        case None => []
  }

  predicate IsCrashed(t: ThreadView, crash: Option<CrashContext>) {
    crash.Some? && crash.value.crashedTid == (if t.tid.Some? then t.tid.value else 0)
  }

  /** One of the two register sets cannot be had, and the thread is not the crashed one. */
  predicate Skipped(t: ThreadView, crash: Option<CrashContext>) {
    !IsCrashed(t, crash) && (t.gpr.None? || t.exc.None?)
  }

  /** The registers are those of the crash for the crashed thread, and the thread's own for any other. */
  predicate ShowsThread(c: Captured, t: ThreadView, crash: Option<CrashContext>) {
    && c.isSelf == t.isSelf && c.tid == (if t.tid.Some? then t.tid.value else 0)
    && (IsCrashed(t, crash) ==> c.gpr == crash.value.gpr && c.exc == crash.value.exc)
    && (!IsCrashed(t, crash) ==> Some(c.gpr) == t.gpr && Some(c.exc) == t.exc)
  }

  /** Entry j shows the thread at from[j]; `from` has exactly the positions of the threads not skipped, in order. */
  predicate ShowInOrder(cs: seq<Captured>, from: seq<nat>, ts: seq<ThreadView>, crash: Option<CrashContext>) {
    && |from| == |cs| && (forall i, j :: 0 <= i < j < |from| ==> from[i] < from[j])
    && (forall j :: 0 <= j < |from| ==> from[j] < |ts| && ShowsThread(cs[j], ts[from[j]], crash))
    && (forall k: nat :: k < |ts| ==> (k in from <==> !Skipped(ts[k], crash)))
  }

  /** The captured threads are, in the kernel's order, exactly the listed ones that are not skipped. */
  lemma {:induction false} CapturedInOrder(ts: seq<ThreadView>, crash: Option<CrashContext>) returns (from: seq<nat>)
    ensures ShowInOrder(CaptureAll(ts, crash), from, ts, crash)
  {
    hide ShowInOrder, Capture, Skipped;
    if ts == [] {
      from := [];
      assert ShowInOrder([], [], [], crash) by { NothingShown(crash); }
    } else {
      var n := |ts| - 1;
      from := CapturedInOrder(ts[..n], crash);
      var cs := CaptureAll(ts[..n], crash);
      assert ts == ts[..n] + [ts[n]];
      CaptureShows(ts[n], crash);
      if Skipped(ts[n], crash) {
        SkipOne(cs, from, ts[..n], ts[n], crash);
        assert CaptureAll(ts, crash) == cs;
      } else {
        ShowOne(cs, from, ts[..n], ts[n], Capture(ts[n], crash).value, crash);
        from := from + [n];
      }
    }
  }

  lemma NothingShown(crash: Option<CrashContext>)
    ensures ShowInOrder([], [], [], crash)
  {
  }

  lemma CaptureShows(t: ThreadView, crash: Option<CrashContext>)
    ensures if Skipped(t, crash) then Capture(t, crash).None?
            else Capture(t, crash).Some? && ShowsThread(Capture(t, crash).value, t, crash)
  {
  }

  lemma SkipOne(cs: seq<Captured>, from: seq<nat>, ts: seq<ThreadView>, t: ThreadView, crash: Option<CrashContext>)
    requires ShowInOrder(cs, from, ts, crash) && Skipped(t, crash)
    ensures ShowInOrder(cs, from, ts + [t], crash)
  {
    hide ShowsThread, Skipped;
    assert |ts| !in from;
  }

  lemma ShowOne(cs: seq<Captured>, from: seq<nat>, ts: seq<ThreadView>, t: ThreadView, c: Captured,
                crash: Option<CrashContext>)
    requires ShowInOrder(cs, from, ts, crash) && !Skipped(t, crash) && ShowsThread(c, t, crash)
    ensures ShowInOrder(cs + [c], from + [|ts|], ts + [t], crash)
  {
    hide ShowsThread, Skipped;
  }

  function Ids(cs: seq<Captured>): (r: seq<uint64>)
    ensures |r| == |cs|
  {
    seq(|cs|, i requires 0 <= i < |cs| => cs[i].tid)
  }

  function States(cs: seq<Captured>): (r: seq<thread_state>)
    ensures |r| == |cs|
  {
    seq(|cs|, i requires 0 <= i < |cs| => MakeState(cs[i].gpr, cs[i].exc))
  }

  // ---------------------------------------------------------------- the call stack of a captured thread

  /** The suspended process as the loop sees it; `strip` removes pointer authentication bits. */
  datatype Target = Target(mem: Memory, regions: seq<MemoryRegions.RegionInfo>, modules: seq<ModuleInfo>,
                           strip: uint64 -> uint64)

  predicate TargetOk(t: Target) {
    ListOk(t.modules) && MemoryRegions.RegionsOk(t.regions)
  }

  function Regs(c: Captured): Registers {
    RegistersOf(c.gpr, c.exc)
  }

  /** The walk of this thread ends. */
  ghost predicate Walkable(mem: Memory, c: Captured) {
    Regs(c).fp == 0 || exists n: nat :: ChainEnds(mem, Regs(c).fp, n)
  }

  ghost predicate AllWalkable(mem: Memory, cs: seq<Captured>) {
    forall i :: 0 <= i < |cs| ==> Walkable(mem, cs[i])
  }

  ghost function FrameCount(mem: Memory, c: Captured): (n: nat)
    requires Walkable(mem, c)
    ensures Regs(c).fp == 0 || ChainEnds(mem, Regs(c).fp, n)
  {
    if Regs(c).fp == 0 then 0
    else
      var n: nat :| ChainEnds(mem, Regs(c).fp, n);
      n
  }

  ghost function StackOf(t: Target, c: Captured): seq<uint64>
    requires TargetOk(t) && Walkable(t.mem, c)
  {
    CallStack(t.mem, Regs(c), TopIsFrameless(t.mem, t.regions, t.modules, Regs(c)), FrameCount(t.mem, c), t.strip)
  }

  /** Marking modules as executing does not change any call stack. */
  lemma StackIgnoresFlags(t: Target, modules: seq<ModuleInfo>, c: Captured)
    requires TargetOk(t) && Walkable(t.mem, c) && ListOk(modules) && SameModules(modules, t.modules)
    ensures StackOf(t.(modules := modules), c) == StackOf(t, c)
  {
    hide ListOk, MemoryRegions.RegionsOk, CallStack, FrameCount;
    FindIgnoresFlags(modules, t.modules, Regs(c).pc);
    assert FrameLookup(t.mem, modules, Regs(c).pc) == FrameLookup(t.mem, t.modules, Regs(c).pc);
  }

  ghost function AllStacks(t: Target, cs: seq<Captured>): seq<uint64>
    requires TargetOk(t) && AllWalkable(t.mem, cs)
  {
    if cs == [] then [] else AllStacks(t, cs[..|cs| - 1]) + StackOf(t, cs[|cs| - 1])
  }

  // ---------------------------------------------------------------- what is requested

  const SURROUNDINGS_RANGE := 256

  /** Neither below 0 nor above the last address. */
  predicate InBounds(ip: uint64) {
    ip >= SURROUNDINGS_RANGE && ip <= UINT64_MOD - 1 - SURROUNDINGS_RANGE
  }

  function IpRange(ip: uint64): IntervalSet.Range
    requires InBounds(ip)
  {
    IntervalSet.Range(ip - SURROUNDINGS_RANGE, 2 * SURROUNDINGS_RANGE + 1)
  }

  function IpRanges(ips: seq<uint64>): seq<IntervalSet.Range> {
    if ips == [] then []
    else IpRanges(ips[..|ips| - 1]) + if InBounds(ips[|ips| - 1]) then [IpRange(ips[|ips| - 1])] else []
  }

  /** The stack from the stack pointer to the end of its region, except for the thread that dumps itself. */
  function StackRanges(regions: seq<MemoryRegions.RegionInfo>, c: Captured, crash: bool): seq<IntervalSet.Range>
    requires MemoryRegions.RegionsOk(regions)
  {
    match MemoryRegions.FindRegion(regions, Regs(c).sp)
    case None => []
    case Some(r) =>
      var stackStart := Add64(r.vmaddr, r.vmsize);
      var length := Sub64(stackStart, Regs(c).sp);
      if !c.isSelf || crash then [IntervalSet.Range(Sub64(stackStart, length), length)] else []
  }

  ghost function Requests(t: Target, cs: seq<Captured>, crash: bool): seq<IntervalSet.Range>
    requires TargetOk(t) && AllWalkable(t.mem, cs)
  {
    if cs == [] then []
    else
      var last := cs[|cs| - 1];
      Requests(t, cs[..|cs| - 1], crash) + IpRanges(StackOf(t, last)) + StackRanges(t.regions, last, crash)
  }

  // ---------------------------------------------------------------- one thread

  method CaptureThread(t: ThreadView, crash: Option<CrashContext>) returns (r: Option<Captured>)
    ensures r == Capture(t, crash)
    ensures if Skipped(t, crash) then r.None? else r.Some? && ShowsThread(r.value, t, crash)
  {
    var tid := if t.tid.Some? then t.tid.value else 0;
    if crash.Some? && tid == crash.value.crashedTid {
      return Some(Captured(t.isSelf, tid, crash.value.gpr, crash.value.exc));
    }
    if t.gpr.None? {
      return None;
    }
    if t.exc.None? {
      return None;
    }
    return Some(Captured(t.isSelf, tid, t.gpr.value, t.exc.value));
  }

  lemma IpRangesSnoc(ips: seq<uint64>, ip: uint64)
    ensures InBounds(ip) ==> IpRanges(ips + [ip]) == IpRanges(ips) + [IpRange(ip)]
    ensures !InBounds(ip) ==> IpRanges(ips + [ip]) == IpRanges(ips)
  {
    assert (ips + [ip])[..|ips|] == ips;
  }

  /** Collects the surroundings of every address, and marks its module as executing. */
  method CollectAddresses(callStack: seq<uint64>, ranges: IntervalSet.DisjointIntervalSet, list: ModuleList)
    requires list.Valid() && IntervalSet.KeySorted(ranges.intervals)
    modifies ranges, list
    ensures list.Valid() && list.modules == MarkedAll(old(list.modules), callStack)
    ensures IntervalSet.KeySorted(ranges.intervals)
    ensures ranges.intervals == IntervalSet.InsertedFrom(old(ranges.intervals), IpRanges(callStack))
  {
    hide IntervalSet.KeySorted, IntervalSet.Inserted, ListOk, Marked, IpRange;
    ghost var modules, intervals := list.modules, ranges.intervals;
    for i := 0 to |callStack|
      invariant list.Valid() && list.modules == MarkedAll(modules, callStack[..i])
      invariant IntervalSet.KeySorted(ranges.intervals)
      invariant ranges.intervals == IntervalSet.InsertedFrom(intervals, IpRanges(callStack[..i]))
    {
      var ip := callStack[i];
      assert callStack[..i + 1] == callStack[..i] + [ip];
      IpRangesSnoc(callStack[..i], ip);
      MarkedAllSnoc(modules, callStack[..i], ip);
      if ip >= SURROUNDINGS_RANGE && ip <= UINT64_MOD - 1 - SURROUNDINGS_RANGE {
        var start, length := ip - SURROUNDINGS_RANGE, 2 * SURROUNDINGS_RANGE + 1;
        ranges.InsertAndMergeIfNeeded(start, length);
        assert IpRange(ip) == IntervalSet.Range(start, length) by { IpRangeIs(ip); }
        IntervalSet.InsertedFromSnoc(intervals, IpRanges(callStack[..i]), IpRange(ip));
      }
      var _ := list.MarkAsExecuting(ip);
    }
    assert callStack[..|callStack|] == callStack;
  }

  lemma IpRangeIs(ip: uint64)
    requires InBounds(ip)
    ensures IpRange(ip) == IntervalSet.Range(ip - SURROUNDINGS_RANGE, 2 * SURROUNDINGS_RANGE + 1)
  {
  }

  /** Collects the used part of the stack. */
  method CollectStack(regions: MemoryRegions.MemoryRegionList, c: Captured, crash: bool,
                      ranges: IntervalSet.DisjointIntervalSet)
    requires MemoryRegions.RegionsOk(regions.regions) && IntervalSet.KeySorted(ranges.intervals)
    modifies ranges
    ensures IntervalSet.KeySorted(ranges.intervals)
    ensures ranges.intervals == IntervalSet.InsertedFrom(old(ranges.intervals), StackRanges(regions.regions, c, crash))
  {
    hide IntervalSet.KeySorted, IntervalSet.Inserted, RegistersOf;
    var sp := Regs(c).sp;
    var regionInfo := regions.GetRegionInfoForAddress(sp);
    if regionInfo.None? {
      return;
    }
    var stackStart := Add64(regionInfo.value.vmaddr, regionInfo.value.vmsize);
    var lengthInBytes := Sub64(stackStart, sp);
    if !c.isSelf || crash {
      var stackSegmentStart := Sub64(stackStart, lengthInBytes);
      IntervalSet.InsertedFromSnoc(ranges.intervals, [], IntervalSet.Range(stackSegmentStart, lengthInBytes));
      assert [] + [IntervalSet.Range(stackSegmentStart, lengthInBytes)] == StackRanges(regions.regions, c, crash);
      ranges.InsertAndMergeIfNeeded(stackSegmentStart, lengthInBytes);
    }
  }

  method CollectThread(mem: Memory, regions: MemoryRegions.MemoryRegionList, list: ModuleList, strip: uint64 -> uint64,
                       c: Captured, crash: bool, ranges: IntervalSet.DisjointIntervalSet)
    requires list.Valid() && MemoryRegions.RegionsOk(regions.regions) && IntervalSet.KeySorted(ranges.intervals)
    requires Walkable(mem, c)
    modifies ranges, list
    ensures list.Valid() && IntervalSet.KeySorted(ranges.intervals)
    ensures var callStack := StackOf(Target(mem, regions.regions, old(list.modules), strip), c);
            && list.modules == MarkedAll(old(list.modules), callStack)
            && ranges.intervals == IntervalSet.InsertedFrom(old(ranges.intervals),
                                                            IpRanges(callStack) + StackRanges(regions.regions, c, crash))
  {
    hide IntervalSet.KeySorted, ListOk, MemoryRegions.RegionsOk, CallStack, IpRanges, StackRanges, TopIsFrameless,
         RegistersOf, IntervalSet.InsertedFrom, MarkedAll;
    assert Regs(c).fp == 0 || ChainEnds(mem, Regs(c).fp, FrameCount(mem, c));
    var callStack := WalkStack(mem, regions, list, Regs(c), strip);
    assert callStack == StackOf(Target(mem, regions.regions, list.modules, strip), c);
    IntervalSet.InsertedFromConcat(ranges.intervals, IpRanges(callStack), StackRanges(regions.regions, c, crash));
    CollectAddresses(callStack, ranges, list);
    CollectStack(regions, c, crash, ranges);
  }

  // ---------------------------------------------------------------- segments

  /** The intervals whose protection the kernel reports. */
  function Protected(ivs: seq<IntervalSet.Interval>, prot: uint64 -> Option<uint32>): seq<IntervalSet.Interval> {
    if ivs == [] then []
    else
      var last := ivs[|ivs| - 1];
      Protected(ivs[..|ivs| - 1], prot) + if prot(last.start).Some? then [last] else []
  }

  /** A segment that will be filled from the memory of one interval. */
  predicate SegmentFor(e: SegmentEntry, iv: IntervalSet.Interval, mem: Memory, prot: uint64 -> Option<uint32>) {
    && prot(iv.start).Some?
    && e.cmd == SegmentCommand(Zeros(16), iv.start, IntervalSet.LengthOf(iv), 0, IntervalSet.LengthOf(iv), prot(iv.start).value,
                               prot(iv.start).value, 0, 0)
    && e.data.Some? && e.data.value.size == IntervalSet.LengthOf(iv)
    && e.data.value.ptr.ProcessMemory?
    && e.data.value.ptr.reader.mem == mem
    && e.data.value.ptr.reader.startAddress == iv.start && e.data.value.ptr.reader.maxSize == IntervalSet.LengthOf(iv)
  }

  predicate SegmentsFor(es: seq<SegmentEntry>, ivs: seq<IntervalSet.Interval>, mem: Memory,
                        prot: uint64 -> Option<uint32>)
  {
    |es| == |ivs| && forall i :: 0 <= i < |es| ==> SegmentFor(es[i], ivs[i], mem, prot)
  }

  method AddSegmentCommandFromProcessMemory(mem: Memory, builder: MachOCoreDumpBuilder, prot: uint64 -> Option<uint32>,
                                            start: uint64, length: uint64) returns (ok: bool)
    requires builder.Valid() && start + length <= UINT64_MOD
    modifies builder`segments
    ensures builder.Valid()
    ensures ok <==> prot(start).Some? && !builder.finalized
    ensures !ok ==> builder.segments == old(builder.segments)
    ensures ok ==>
              && |builder.segments| == |old(builder.segments)| + 1
              && builder.segments == old(builder.segments) + [builder.segments[|old(builder.segments)|]]
              && SegmentFor(builder.segments[|old(builder.segments)|], IntervalSet.Interval(start, Add64(start, length)),
                            mem, prot)
              && fresh(Reader(builder.segments[|old(builder.segments)|]))
  {
    if prot(start).None? {
      return false;
    }
    var dataPtr := new ProcessMemoryReader(mem, start, length);
    LengthBack(start, length);
    ok := builder.AddSegmentCommand(start, prot(start).value, Some(DataProvider(ProcessMemory(dataPtr), length)));
  }

  lemma LengthBack(start: uint64, length: uint64)
    requires start + length <= UINT64_MOD
    ensures IntervalSet.LengthOf(IntervalSet.Interval(start, Add64(start, length))) == length
  {
  }

  lemma IntervalBack(iv: IntervalSet.Interval)
    requires IntervalSet.Bounded(iv)
    ensures iv.start + IntervalSet.LengthOf(iv) <= UINT64_MOD && IntervalSet.LengthOf(iv) > 0
    ensures IntervalSet.Interval(iv.start, Add64(iv.start, IntervalSet.LengthOf(iv))) == iv
  {
  }

  lemma ProtectedSnoc(ivs: seq<IntervalSet.Interval>, n: nat, prot: uint64 -> Option<uint32>)
    requires n < |ivs|
    ensures prot(ivs[n].start).Some? ==> Protected(ivs[..n + 1], prot) == Protected(ivs[..n], prot) + [ivs[n]]
    ensures prot(ivs[n].start).None? ==> Protected(ivs[..n + 1], prot) == Protected(ivs[..n], prot)
  {
    assert ivs[..n + 1][..n] == ivs[..n];
  }

  /** Adds one segment for every interval, except where the protection query fails. */
  method AddSegments(mem: Memory, ranges: IntervalSet.DisjointIntervalSet, prot: uint64 -> Option<uint32>,
                     builder: MachOCoreDumpBuilder) returns (ghost added: seq<SegmentEntry>)
    requires builder.Valid() && !builder.finalized && IntervalSet.AllBounded(ranges.intervals)
    modifies builder`segments
    ensures builder.Valid() && builder.segments == old(builder.segments) + added
    ensures SegmentsFor(added, Protected(ranges.intervals, prot), mem, prot)
    ensures fresh(Readers(added))
  {
    hide EntriesOk, IntervalSet.Bounded, IntervalSet.LengthOf, SegmentFor;
    added := [];
    ghost var ivs := ranges.intervals;
    for i := 0 to |ranges.intervals|
      invariant builder.Valid() && builder.segments == old(builder.segments) + added
      invariant SegmentsFor(added, Protected(ivs[..i], prot), mem, prot)
      invariant fresh(Readers(added))
    {
      var iv := ranges.intervals[i];
      IntervalBack(iv);
      ProtectedSnoc(ivs, i, prot);
      ghost var before := builder.segments;
      var ok := AddSegmentCommandFromProcessMemory(mem, builder, prot, iv.start, Sub64(iv.end, iv.start));
      if ok {
        ghost var e := builder.segments[|before|];
        ReadersSnoc(added, e);
        added := added + [e];
      }
    }
    assert ivs[..|ivs|] == ivs;
  }

  lemma ReadersSnoc(es: seq<SegmentEntry>, e: SegmentEntry)
    ensures Readers(es + [e]) == Readers(es) + Reader(e)
  {
    var all := es + [e];
    forall o | o in Readers(es) + Reader(e)
      ensures o in Readers(all)
    {
      if o in Readers(es) {
        var i :| 0 <= i < |es| && o in Reader(es[i]);
        assert o in Reader(all[i]);
      } else {
        assert o in Reader(all[|es|]);
      }
    }
  }

  // ---------------------------------------------------------------- the whole loop

  lemma {:induction false} CapturePrefix(ts: seq<ThreadView>, crash: Option<CrashContext>, i: nat)
    requires i <= |ts|
    ensures CaptureAll(ts[..i], crash) <= CaptureAll(ts, crash)
    decreases |ts| - i
  {
    if i < |ts| {
      assert ts[..i + 1][..i] == ts[..i];
      CapturePrefix(ts, crash, i + 1);
    } else {
      assert ts[..i] == ts;
    }
  }

  lemma CaptureSnoc(ts: seq<ThreadView>, crash: Option<CrashContext>, i: nat)
    requires i < |ts|
    ensures CaptureAll(ts[..i + 1], crash)
            == CaptureAll(ts[..i], crash) + if Capture(ts[i], crash).Some? then [Capture(ts[i], crash).value] else []
    ensures CaptureAll(ts[..i + 1], crash) <= CaptureAll(ts, crash)
  {
    assert ts[..i + 1][..i] == ts[..i];
    CapturePrefix(ts, crash, i + 1);
  }

  /** What one more thread adds to ids, commands, requests and call stacks. */
  lemma ThreadStep(t: Target, cs: seq<Captured>, c: Captured, crash: bool)
    requires TargetOk(t) && AllWalkable(t.mem, cs + [c])
    ensures AllWalkable(t.mem, cs) && Walkable(t.mem, c)
    ensures Ids(cs + [c]) == Ids(cs) + [c.tid]
    ensures AllStacks(t, cs + [c]) == AllStacks(t, cs) + StackOf(t, c)
    ensures Requests(t, cs + [c], crash)
            == Requests(t, cs, crash) + (IpRanges(StackOf(t, c)) + StackRanges(t.regions, c, crash))
  {
    hide ListOk, MemoryRegions.RegionsOk, Walkable, StackOf, StackRanges, IpRanges, MakeState;
    assert forall i :: 0 <= i < |cs| ==> (cs + [c])[i] == cs[i];
    assert (cs + [c])[|cs|] == c;
    assert (cs + [c])[..|cs|] == cs;
  }

  /** What the loop has recorded after some threads. */
  ghost predicate Recorded(t: Target, cs: seq<Captured>, crash: bool, ids: seq<uint64>, modules: seq<ModuleInfo>,
                           intervals: seq<IntervalSet.Interval>)
  {
    && TargetOk(t) && AllWalkable(t.mem, cs)
    && ids == Ids(cs)
    && modules == MarkedAll(t.modules, AllStacks(t, cs))
    && IntervalSet.KeySorted([])
    && intervals == IntervalSet.InsertedFrom([], Requests(t, cs, crash))
  }

  lemma RecordedStart(t: Target, crash: bool)
    requires TargetOk(t)
    ensures Recorded(t, [], crash, [], t.modules, [])
  {
    hide ListOk, MemoryRegions.RegionsOk;
  }

  lemma RecordedIsOk(t: Target, cs: seq<Captured>, crash: bool, ids: seq<uint64>, modules: seq<ModuleInfo>,
                     intervals: seq<IntervalSet.Interval>)
    requires Recorded(t, cs, crash, ids, modules, intervals)
    ensures ListOk(modules) && SameModules(modules, t.modules) && IntervalSet.KeySorted(intervals)
  {
    hide ListOk, MemoryRegions.RegionsOk, Walkable, StackOf, AllStacks, Requests;
    if |modules| > 0 {
      MarkedAllSetsExactly(t.modules, AllStacks(t, cs), 0);
    }
  }

  lemma RecordedStep(t: Target, cs: seq<Captured>, crash: bool, ids: seq<uint64>, modules: seq<ModuleInfo>,
                     intervals: seq<IntervalSet.Interval>, c: Captured)
    requires Recorded(t, cs, crash, ids, modules, intervals) && ListOk(modules) && IntervalSet.KeySorted(intervals)
    requires AllWalkable(t.mem, cs + [c])
    ensures Walkable(t.mem, c) && TargetOk(t.(modules := modules))
    ensures var callStack := StackOf(t.(modules := modules), c);
            Recorded(t, cs + [c], crash, ids + [c.tid], MarkedAll(modules, callStack),
                     IntervalSet.InsertedFrom(intervals, IpRanges(callStack) + StackRanges(t.regions, c, crash)))
  {
    RecordedIsOk(t, cs, crash, ids, modules, intervals);
    ThreadStep(t, cs, c, crash);
    hide ListOk, MemoryRegions.RegionsOk, AllWalkable, Walkable, StackOf, AllStacks, Requests, StackRanges, IpRanges,
         IntervalSet.KeySorted, IntervalSet.InsertedFrom, MarkedAll, Ids;
    StackIgnoresFlags(t, modules, c);
    MarkedAllConcat(t.modules, AllStacks(t, cs), StackOf(t, c));
    IntervalSet.InsertedFromConcat([], Requests(t, cs, crash), IpRanges(StackOf(t, c)) + StackRanges(t.regions, c, crash));
  }

  /** One round of the loop. */
  method RecordThread(ghost t: Target, ghost cs: seq<Captured>, c: Captured, crash: bool, ids: seq<uint64>,
                      regions: MemoryRegions.MemoryRegionList, list: ModuleList, mem: Memory, strip: uint64 -> uint64,
                      builder: MachOCoreDumpBuilder, ranges: IntervalSet.DisjointIntervalSet)
    returns (newIds: seq<uint64>)
    requires builder.Valid() && AllWalkable(mem, cs + [c])
    requires t == Target(mem, regions.regions, t.modules, strip)
    requires Recorded(t, cs, crash, ids, list.modules, ranges.intervals)
    modifies builder`threads, list, ranges
    ensures builder.Valid() && builder.threads == old(builder.threads) + [MakeState(c.gpr, c.exc)]
    ensures Recorded(t, cs + [c], crash, newIds, list.modules, ranges.intervals)
  {
    RecordedIsOk(t, cs, crash, ids, list.modules, ranges.intervals);
    RecordedStep(t, cs, crash, ids, list.modules, ranges.intervals, c);
    hide EntriesOk, ListOk, MemoryRegions.RegionsOk, IntervalSet.KeySorted, Recorded, AllWalkable, Walkable, StackOf,
         MarkedAll, IpRanges, StackRanges, MakeState, IntervalSet.InsertedFrom;
    builder.AddThreadCommand(MakeState(c.gpr, c.exc));
    newIds := ids + [c.tid];
    CollectThread(mem, regions, list, strip, c, crash, ranges);
  }

  method RecordThreads(threads: seq<ThreadView>, crash: Option<CrashContext>, mem: Memory,
                       regions: MemoryRegions.MemoryRegionList, list: ModuleList, strip: uint64 -> uint64,
                       builder: MachOCoreDumpBuilder, ranges: IntervalSet.DisjointIntervalSet)
    returns (ids: seq<uint64>)
    requires builder.Valid() && list.Valid() && MemoryRegions.RegionsOk(regions.regions) && ranges.intervals == []
    requires AllWalkable(mem, CaptureAll(threads, crash))
    modifies builder`threads, list, ranges
    ensures builder.Valid() && builder.threads == old(builder.threads) + States(CaptureAll(threads, crash))
    ensures Recorded(Target(mem, regions.regions, old(list.modules), strip), CaptureAll(threads, crash), crash.Some?, ids,
                     list.modules, ranges.intervals)
  {
    hide EntriesOk, ListOk, MemoryRegions.RegionsOk, Recorded, AllWalkable, CaptureAll, Capture, States, MakeState;
    ids := [];
    ghost var t, cs := Target(mem, regions.regions, list.modules, strip), CaptureAll(threads[..0], crash);
    NothingCaptured(crash);
    RecordedStart(t, crash.Some?);
    for i := 0 to |threads|
      invariant builder.Valid() && cs == CaptureAll(threads[..i], crash)
      invariant Recorded(t, cs, crash.Some?, ids, list.modules, ranges.intervals)
      invariant builder.threads == old(builder.threads) + States(cs)
    {
      CaptureSnoc(threads, crash, i);
      var captured := CaptureThread(threads[i], crash);
      if captured.Some? {
        var c := captured.value;
        PrefixWalkable(mem, cs + [c], CaptureAll(threads, crash));
        StatesSnoc(cs, c);
        ids := RecordThread(t, cs, c, crash.Some?, ids, regions, list, mem, strip, builder, ranges);
        cs := cs + [c];
      }
    }
    assert threads[..|threads|] == threads;
  }

  /**
   `views` are the threads the kernel lists, if it does. The i-th id and the i-th thread command come
   from the same thread; modules, intervals and segments are those of all recorded threads.
   */
  method AddThreadsToCore(views: Option<seq<ThreadView>>, crash: Option<CrashContext>, mem: Memory,
                          regions: MemoryRegions.MemoryRegionList, list: ModuleList, strip: uint64 -> uint64,
                          prot: uint64 -> Option<uint32>, builder: MachOCoreDumpBuilder)
    returns (ok: bool, ids: seq<uint64>, ghost intervals: seq<IntervalSet.Interval>, ghost added: seq<SegmentEntry>)
    requires builder.Valid() && !builder.finalized && list.Valid() && MemoryRegions.RegionsOk(regions.regions)
    requires views.Some? ==> AllWalkable(mem, CaptureAll(views.value, crash))
    modifies builder`threads, builder`segments, list
    ensures builder.Valid() && list.Valid()
    ensures ok <==> views.Some?
    ensures !ok ==>
              ids == [] && list.modules == old(list.modules)
              && builder.threads == old(builder.threads) && builder.segments == old(builder.segments)
    ensures ok ==>
              var cs := CaptureAll(views.value, crash);
              && Recorded(Target(mem, regions.regions, old(list.modules), strip), cs, crash.Some?, ids, list.modules,
                          intervals)
              && builder.threads == old(builder.threads) + States(cs)
              && builder.segments == old(builder.segments) + added
              && SegmentsFor(added, Protected(intervals, prot), mem, prot) && fresh(Readers(added))
  {
    ids, intervals, added := [], [], [];
    if views.None? {
      return false, ids, intervals, added;
    }
    hide EntriesOk, ListOk, MemoryRegions.RegionsOk, Recorded, AllWalkable, CaptureAll, States, SegmentsFor, Protected,
         Readers;
    var ranges := new IntervalSet.DisjointIntervalSet();
    ghost var t := Target(mem, regions.regions, list.modules, strip);
    ids := RecordThreads(views.value, crash, mem, regions, list, strip, builder, ranges);
    intervals := ranges.intervals;
    RecordedIsOk(t, CaptureAll(views.value, crash), crash.Some?, ids, list.modules, intervals);
    RecordedBounded(t, CaptureAll(views.value, crash), crash.Some?, ids, list.modules, intervals);
    added := AddSegments(mem, ranges, prot, builder);
    return true, ids, intervals, added;
  }

  lemma StatesSnoc(cs: seq<Captured>, c: Captured)
    ensures States(cs + [c]) == States(cs) + [MakeState(c.gpr, c.exc)]
  {
    hide MakeState;
  }

  lemma NothingCaptured(crash: Option<CrashContext>)
    ensures CaptureAll([], crash) == [] && States([]) == []
  {
  }

  lemma PrefixWalkable(mem: Memory, a: seq<Captured>, b: seq<Captured>)
    requires AllWalkable(mem, b) && a <= b
    ensures AllWalkable(mem, a)
  {
    hide Walkable;
    assert forall i :: 0 <= i < |a| ==> a[i] == b[i];
  }

  // ---------------------------------------------------------------- requests never make an empty interval

  predicate Reaching(rs: seq<IntervalSet.Range>) {
    forall i :: 0 <= i < |rs| ==> rs[i].start + rs[i].length <= UINT64_MOD
  }

  lemma {:induction false} IpRangesReach(ips: seq<uint64>)
    ensures Reaching(IpRanges(ips))
  {
    if ips != [] {
      IpRangesReach(ips[..|ips| - 1]);
    }
  }

  /** The region lookup makes the subtraction exact: the stack ends where its region does. */
  lemma StackRangeIsExact(regions: seq<MemoryRegions.RegionInfo>, c: Captured, crash: bool)
    requires MemoryRegions.RegionsOk(regions) && StackRanges(regions, c, crash) != []
    ensures MemoryRegions.FindRegion(regions, Regs(c).sp).Some?
    ensures var r := MemoryRegions.FindRegion(regions, Regs(c).sp).value;
            && r.vmaddr <= Regs(c).sp <= r.vmaddr + r.vmsize < UINT64_MOD
            && StackRanges(regions, c, crash) == [IntervalSet.Range(Regs(c).sp, r.vmaddr + r.vmsize - Regs(c).sp)]
  {
    hide RegistersOf;
    MemoryRegions.FoundRegionContains(regions, Regs(c).sp);
  }

  lemma {:induction false} RequestsReach(t: Target, cs: seq<Captured>, crash: bool)
    requires TargetOk(t) && AllWalkable(t.mem, cs)
    ensures Reaching(Requests(t, cs, crash))
  {
    hide ListOk, MemoryRegions.RegionsOk, Walkable, StackOf, StackRanges, RegistersOf;
    if cs != [] {
      var last := cs[|cs| - 1];
      RequestsReach(t, cs[..|cs| - 1], crash);
      IpRangesReach(StackOf(t, last));
      if StackRanges(t.regions, last, crash) != [] {
        StackRangeIsExact(t.regions, last, crash);
      }
    }
  }

  lemma RecordedBounded(t: Target, cs: seq<Captured>, crash: bool, ids: seq<uint64>, modules: seq<ModuleInfo>,
                        intervals: seq<IntervalSet.Interval>)
    requires Recorded(t, cs, crash, ids, modules, intervals)
    ensures IntervalSet.AllBounded(intervals)
  {
    hide ListOk, MemoryRegions.RegionsOk, AllWalkable, Requests, IntervalSet.InsertedFrom;
    RequestsReach(t, cs, crash);
    IntervalSet.RunBounded([], Requests(t, cs, crash));
  }
}
