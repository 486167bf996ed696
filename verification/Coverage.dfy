/** What the collected intervals cover, for any run of the thread loop. */
module Coverage {
  import opened Bytes
  import opened Modules
  import opened Threads
  import opened StackWalk
  import ExactRuns
  import IntervalSet
  import MemoryRegions
  import ModuleImage
  import WrappedRequests

  /** The one address whose surroundings pass the bounds check but end at 2^64. */
  const EDGE_ADDRESS: uint64 := 0xFFFF_FFFF_FFFF_FEFF

  /** Where those surroundings start. */
  const EDGE_START: uint64 := 0xFFFF_FFFF_FFFF_FDFF

  lemma SomeWrapsConcat(a: seq<IntervalSet.Range>, b: seq<IntervalSet.Range>)
    ensures WrappedRequests.SomeWraps(a + b) <==> WrappedRequests.SomeWraps(a) || WrappedRequests.SomeWraps(b)
  {
    if WrappedRequests.SomeWraps(a) {
      var i :| 0 <= i < |a| && IntervalSet.Wraps(a[i]);
      assert IntervalSet.Wraps((a + b)[i]);
    }
    if WrappedRequests.SomeWraps(b) {
      var i :| 0 <= i < |b| && IntervalSet.Wraps(b[i]);
      assert IntervalSet.Wraps((a + b)[|a| + i]);
    }
  }

  lemma {:induction false} IpRangesWrapIff(ips: seq<uint64>)
    ensures WrappedRequests.SomeWraps(IpRanges(ips)) <==> EDGE_ADDRESS in ips
  {
    if ips != [] {
      var n := |ips| - 1;
      IpRangesWrapIff(ips[..n]);
      var more := if InBounds(ips[n]) then [IpRange(ips[n])] else [];
      SomeWrapsConcat(IpRanges(ips[..n]), more);
      assert more != [] ==> (WrappedRequests.SomeWraps(more) <==> IntervalSet.Wraps(more[0]));
      assert ips == ips[..n] + [ips[n]];
    }
  }

  /** A request wraps exactly when some call stack holds the edge address; stack ranges never do. */
  lemma {:induction false} RequestsWrapIff(t: Target, cs: seq<Captured>, crash: bool)
    requires TargetOk(t) && AllWalkable(t.mem, cs)
    ensures WrappedRequests.SomeWraps(Requests(t, cs, crash)) <==> EDGE_ADDRESS in AllStacks(t, cs)
  {
    hide TargetOk, Walkable, StackOf, StackRanges, RegistersOf, IpRanges, WrappedRequests.SomeWraps;
    if cs == [] {
      NothingWraps();
    } else {
      var init, last := cs[..|cs| - 1], cs[|cs| - 1];
      RequestsWrapIff(t, init, crash);
      IpRangesWrapIff(StackOf(t, last));
      StackNeverWraps(t, last, crash);
      SomeWrapsConcat(Requests(t, init, crash), IpRanges(StackOf(t, last)));
      SomeWrapsConcat(Requests(t, init, crash) + IpRanges(StackOf(t, last)), StackRangesOf(t, last, crash));
    }
  }

  function StackRangesOf(t: Target, c: Captured, crash: bool): seq<IntervalSet.Range>
    requires TargetOk(t)
  {
    StackRanges(t.regions, c, crash)
  }

  lemma NothingWraps()
    ensures !WrappedRequests.SomeWraps([])
  {
  }

  lemma StackNeverWraps(t: Target, c: Captured, crash: bool)
    requires TargetOk(t)
    ensures StackRangesOf(t, c, crash) == StackRanges(t.regions, c, crash)
    ensures !WrappedRequests.SomeWraps(StackRangesOf(t, c, crash))
  {
    hide RegistersOf, MemoryRegions.FindRegion;
    if StackRanges(t.regions, c, crash) != [] {
      StackRangeIsExact(t.regions, c, crash);
    }
  }

  lemma WrapsAtConcat(a: seq<IntervalSet.Range>, b: seq<IntervalSet.Range>, S: uint64)
    requires WrappedRequests.WrapsOnlyAt(a, S) && WrappedRequests.WrapsOnlyAt(b, S)
    ensures WrappedRequests.WrapsOnlyAt(a + b, S)
  {
    hide WrappedRequests.RequestOk;
  }

  lemma {:induction false} IpRangesWrapAt(ips: seq<uint64>)
    ensures WrappedRequests.WrapsOnlyAt(IpRanges(ips), EDGE_START)
  {
    if ips != [] {
      IpRangesWrapAt(ips[..|ips| - 1]);
    }
  }

  lemma StackWrapsAt(t: Target, c: Captured, crash: bool)
    requires TargetOk(t)
    ensures WrappedRequests.WrapsOnlyAt(StackRangesOf(t, c, crash), EDGE_START)
    ensures StackRangesOf(t, c, crash) == StackRanges(t.regions, c, crash)
  {
    hide RegistersOf, MemoryRegions.FindRegion;
    if StackRanges(t.regions, c, crash) != [] {
      StackRangeIsExact(t.regions, c, crash);
    }
  }

  /** No request of the loop runs past 2^64, and those that end there are those of the edge address. */
  lemma {:induction false} RequestsWrapAt(t: Target, cs: seq<Captured>, crash: bool)
    requires TargetOk(t) && AllWalkable(t.mem, cs)
    ensures WrappedRequests.WrapsOnlyAt(Requests(t, cs, crash), EDGE_START)
  {
    hide TargetOk, Walkable, StackOf, StackRanges, RegistersOf, IpRanges, WrappedRequests.RequestOk;
    if cs != [] {
      var init, last := cs[..|cs| - 1], cs[|cs| - 1];
      RequestsWrapAt(t, init, crash);
      IpRangesWrapAt(StackOf(t, last));
      StackWrapsAt(t, last, crash);
      WrapsAtConcat(Requests(t, init, crash), IpRanges(StackOf(t, last)), EDGE_START);
      WrapsAtConcat(Requests(t, init, crash) + IpRanges(StackOf(t, last)), StackRangesOf(t, last, crash), EDGE_START);
    }
  }

  /**
   What the collected intervals represent, for every run. Visited with their lengths they meet each requested
   address once exactly when the requests are harmless, for which no edge address on a call stack is enough;
   they are the maximal runs exactly when, besides, no requested address touches the surroundings of an edge
   address from below.
   */
  lemma RecordedDenotesIff(t: Target, cs: seq<Captured>, crash: bool, ids: seq<uint64>,
                           modules: seq<ModuleImage.ModuleInfo>, intervals: seq<IntervalSet.Interval>)
    requires Recorded(t, cs, crash, ids, modules, intervals)
    ensures IntervalSet.EachOnce(intervals, Requests(t, cs, crash))
            <==> ExactRuns.Harmless(Requests(t, cs, crash), EDGE_START)
    ensures EDGE_ADDRESS !in AllStacks(t, cs) ==> ExactRuns.Harmless(Requests(t, cs, crash), EDGE_START)
    ensures IntervalSet.Denotes(intervals, Requests(t, cs, crash))
            <==> ExactRuns.Harmless(Requests(t, cs, crash), EDGE_START)
                 && (EDGE_ADDRESS in AllStacks(t, cs) ==> !IntervalSet.Requested(Requests(t, cs, crash), EDGE_START - 1))
  {
    hide TargetOk, AllWalkable, AllStacks, Requests, IntervalSet.InsertedFrom, MarkedAll, IntervalSet.EachOnce,
         IntervalSet.Denotes, IntervalSet.Requested, ExactRuns.BelowFull, ExactRuns.SomeClean,
         WrappedRequests.WrapsOnlyAt;
    RequestsWrapIff(t, cs, crash);
    RequestsWrapAt(t, cs, crash);
    ExactRuns.EachOnceIff(Requests(t, cs, crash), EDGE_START);
    ExactRuns.RunDenotesIff(Requests(t, cs, crash), EDGE_START);
  }

  /**
   When no stack pointer that is used lies above the start of the edge surroundings, the condition does not
   depend on the order of the threads: no edge address; or no other request reaches past that start and some
   address below it is not requested at all. So an edge address alone does no harm.
   */
  lemma RecordedExactIff(t: Target, cs: seq<Captured>, crash: bool, ids: seq<uint64>,
                         modules: seq<ModuleImage.ModuleInfo>, intervals: seq<IntervalSet.Interval>)
    requires Recorded(t, cs, crash, ids, modules, intervals)
    requires forall i :: 0 <= i < |cs| && StackRanges(t.regions, cs[i], crash) != [] ==> Regs(cs[i]).sp < EDGE_START
    ensures IntervalSet.EachOnce(intervals, Requests(t, cs, crash))
            <==> EDGE_ADDRESS !in AllStacks(t, cs)
                 || (ExactRuns.PlainStaysBelow(Requests(t, cs, crash), EDGE_START)
                     && !ExactRuns.BelowFull(Requests(t, cs, crash), EDGE_START))
  {
    hide TargetOk, AllWalkable, AllStacks, Requests, IntervalSet.InsertedFrom, MarkedAll, IntervalSet.EachOnce,
         ExactRuns.BelowFull, ExactRuns.PlainStaysBelow, ExactRuns.PlainStartsBelow, WrappedRequests.WrapsOnlyAt,
         StackRanges;
    RequestsWrapIff(t, cs, crash);
    RequestsWrapAt(t, cs, crash);
    RequestsStartBelow(t, cs, crash);
    ExactRuns.EachOnceIffBelow(Requests(t, cs, crash), EDGE_START);
  }

  lemma StartsBelowConcat(a: seq<IntervalSet.Range>, b: seq<IntervalSet.Range>, S: uint64)
    requires ExactRuns.PlainStartsBelow(a, S) && ExactRuns.PlainStartsBelow(b, S)
    ensures ExactRuns.PlainStartsBelow(a + b, S)
  {
  }

  lemma {:induction false} IpRangesStartBelow(ips: seq<uint64>)
    ensures ExactRuns.PlainStartsBelow(IpRanges(ips), EDGE_START)
  {
    if ips != [] {
      IpRangesStartBelow(ips[..|ips| - 1]);
    }
  }

  lemma StackStartsBelow(t: Target, c: Captured, crash: bool)
    requires TargetOk(t) && (StackRanges(t.regions, c, crash) != [] ==> Regs(c).sp < EDGE_START)
    ensures ExactRuns.PlainStartsBelow(StackRangesOf(t, c, crash), EDGE_START)
    ensures StackRangesOf(t, c, crash) == StackRanges(t.regions, c, crash)
  {
    hide RegistersOf, MemoryRegions.FindRegion;
    if StackRanges(t.regions, c, crash) != [] {
      StackRangeIsExact(t.regions, c, crash);
    }
  }

  lemma {:induction false} RequestsStartBelow(t: Target, cs: seq<Captured>, crash: bool)
    requires TargetOk(t) && AllWalkable(t.mem, cs)
    requires forall i :: 0 <= i < |cs| && StackRanges(t.regions, cs[i], crash) != [] ==> Regs(cs[i]).sp < EDGE_START
    ensures ExactRuns.PlainStartsBelow(Requests(t, cs, crash), EDGE_START)
  {
    hide TargetOk, Walkable, StackOf, StackRanges, RegistersOf, IpRanges;
    if cs == [] {
    } else {
      var init, last := cs[..|cs| - 1], cs[|cs| - 1];
      assert forall i :: 0 <= i < |init| ==> init[i] == cs[i];
      RequestsStartBelow(t, init, crash);
      IpRangesStartBelow(StackOf(t, last));
      StackStartsBelow(t, last, crash);
      StartsBelowConcat(Requests(t, init, crash), IpRanges(StackOf(t, last)), EDGE_START);
      StartsBelowConcat(Requests(t, init, crash) + IpRanges(StackOf(t, last)), StackRangesOf(t, last, crash), EDGE_START);
    }
  }

  /** Two requests near the end of memory, one of them for the edge address, leave intervals that share addresses. */
  lemma EdgeAddressOverlaps()
    ensures var ranges := IpRanges([EDGE_ADDRESS - 87, EDGE_ADDRESS]);
            IntervalSet.KeySorted([])
            && IntervalSet.InsertedFrom([], ranges)
               == [IntervalSet.Interval(EDGE_ADDRESS - 343, EDGE_ADDRESS + 170),
                   IntervalSet.Interval(EDGE_ADDRESS - 256, 0)]
            && !IntervalSet.Single(IntervalSet.InsertedFrom([], ranges), EDGE_START)
  {
    hide IntervalSet.InsertedFrom, IpRanges, IntervalSet.Single;
    var a, b := IntervalSet.Range(EDGE_ADDRESS - 343, 513), IntervalSet.Range(EDGE_START, 513);
    EdgeRanges();
    TwoInserted(a, b);
    SpannedTwice(IntervalSet.Interval(a.start, a.start + a.length), IntervalSet.Interval(b.start, 0), EDGE_START);
  }

  lemma EdgeRanges()
    ensures IpRanges([EDGE_ADDRESS - 87, EDGE_ADDRESS])
            == [IntervalSet.Range(EDGE_ADDRESS - 343, 513), IntervalSet.Range(EDGE_START, 513)]
  {
    IpRangesSnoc([EDGE_ADDRESS - 87], EDGE_ADDRESS);
    IpRangesSnoc([], EDGE_ADDRESS - 87);
    assert [] + [EDGE_ADDRESS - 87] == [EDGE_ADDRESS - 87];
    assert [EDGE_ADDRESS - 87] + [EDGE_ADDRESS] == [EDGE_ADDRESS - 87, EDGE_ADDRESS];
  }

  lemma TwoInserted(a: IntervalSet.Range, b: IntervalSet.Range)
    requires a.length > 0 && a.start + a.length < UINT64_MOD
    requires b.length > 0 && b.start + b.length == UINT64_MOD && 0 < a.start < b.start
    ensures IntervalSet.KeySorted([])
    ensures IntervalSet.InsertedFrom([], [a, b])
            == [IntervalSet.Interval(a.start, a.start + a.length), IntervalSet.Interval(b.start, 0)]
  {
    hide IntervalSet.Inserted, IntervalSet.KeySorted;
    assert [] + [a] == [a] && [a] + [b] == [a, b];
    FirstInserted(a);
    IntervalSet.InsertedFromSnoc([], [], a);
    IntervalSet.InsertedFromSnoc([], [a], b);
    WrappedInserted(IntervalSet.Interval(a.start, a.start + a.length), b);
  }

  lemma SpannedTwice(p: IntervalSet.Interval, q: IntervalSet.Interval, a: nat)
    requires p != q && IntervalSet.InSpan(p, a) && IntervalSet.InSpan(q, a)
    ensures !IntervalSet.Single([p, q], a)
  {
    assert p in [p, q] && q in [p, q];
  }

  /** The edge address alone gives one entry, which is visited as exactly the requested addresses. */
  lemma EdgeAddressAlone()
    ensures IntervalSet.KeySorted([])
    ensures var m := IntervalSet.InsertedFrom([], IpRanges([EDGE_ADDRESS]));
            && m == [IntervalSet.Interval(EDGE_START, 0)] && IntervalSet.LengthOf(m[0]) == 513
            && IntervalSet.Denotes(m, IpRanges([EDGE_ADDRESS]))
  {
    hide IntervalSet.Denotes, IntervalSet.InsertedFrom, IpRanges;
    var r := IntervalSet.Range(EDGE_START, 513);
    EdgeRange();
    OneWrapped(r);
    OneWrapDenotes(r);
  }

  lemma EdgeRange()
    ensures IpRanges([EDGE_ADDRESS]) == [IntervalSet.Range(EDGE_START, 513)]
  {
    IpRangesSnoc([], EDGE_ADDRESS);
    assert [] + [EDGE_ADDRESS] == [EDGE_ADDRESS];
    assert [] + [IpRange(EDGE_ADDRESS)] == [IpRange(EDGE_ADDRESS)];
  }

  lemma OneWrapped(r: IntervalSet.Range)
    requires r.length > 0 && r.start + r.length == UINT64_MOD
    ensures IntervalSet.KeySorted([]) && IntervalSet.InsertedFrom([], [r]) == [IntervalSet.Interval(r.start, 0)]
  {
    hide IntervalSet.Inserted;
    IntervalSet.InsertedFromSnoc([], [], r);
    FirstWrapped(r);
    assert [] + [r] == [r];
  }

  lemma FirstWrapped(r: IntervalSet.Range)
    requires r.length > 0 && r.start + r.length == UINT64_MOD
    ensures IntervalSet.KeySorted([]) && IntervalSet.Inserted([], r.start, r.length) == [IntervalSet.Interval(r.start, 0)]
  {
    assert [] + [IntervalSet.Interval(r.start, 0)] + [] == [IntervalSet.Interval(r.start, 0)];
  }

  lemma OneWrapDenotes(r: IntervalSet.Range)
    requires r.length > 0 && r.start + r.length == UINT64_MOD
    ensures IntervalSet.Denotes([IntervalSet.Interval(r.start, 0)], [r])
  {
    var m := [IntervalSet.Interval(r.start, 0)];
    forall a: nat ensures IntervalSet.Spanned(m, a) <==> IntervalSet.Requested([r], a) {
      assert m[0] in m && (IntervalSet.InSpan(m[0], a) <==> IntervalSet.InRange(a, r));
      assert [r][0] == r;
    }
  }

  lemma FirstInserted(r: IntervalSet.Range)
    requires r.length > 0 && r.start + r.length < UINT64_MOD
    ensures IntervalSet.KeySorted([]) && IntervalSet.KeySorted([IntervalSet.Interval(r.start, r.start + r.length)])
    ensures IntervalSet.Inserted([], r.start, r.length) == [IntervalSet.Interval(r.start, r.start + r.length)]
  {
    var run := IntervalSet.Interval(r.start, r.start + r.length);
    assert [] + [run] + [] == [run];
  }

  /** A range that ends at 2^64 is not merged with the interval before it, even where they overlap. */
  lemma WrappedInserted(first: IntervalSet.Interval, r: IntervalSet.Range)
    requires r.length > 0 && r.start + r.length == UINT64_MOD && 0 < first.start < r.start
    ensures IntervalSet.KeySorted([first])
    ensures IntervalSet.Inserted([first], r.start, r.length) == [first, IntervalSet.Interval(r.start, 0)]
  {
    assert IntervalSet.UpperBound([first], r.start) == 1;
    assert IntervalSet.Sweep([first], 0, r.start, 0) == IntervalSet.Assign([first], r.start, 0);
  }

  // ---------------------------------------------------------------- coverage

  lemma {:induction false} IpRequested(ips: seq<uint64>, ip: uint64)
    requires ip in ips && InBounds(ip)
    ensures IpRange(ip) in IpRanges(ips)
  {
    var n := |ips| - 1;
    if ip != ips[n] {
      assert ip in ips[..n];
      IpRequested(ips[..n], ip);
    }
  }

  /** Everything a thread asks for is among the requests. */
  lemma {:induction false} ThreadRequested(t: Target, cs: seq<Captured>, crash: bool, i: nat, r: IntervalSet.Range)
    requires TargetOk(t) && AllWalkable(t.mem, cs) && i < |cs|
    requires r in IpRanges(StackOf(t, cs[i])) || r in StackRanges(t.regions, cs[i], crash)
    ensures r in Requests(t, cs, crash)
  {
    hide TargetOk, Walkable, StackOf, StackRanges, IpRanges;
    if i < |cs| - 1 {
      ThreadRequested(t, cs[..|cs| - 1], crash, i, r);
    }
  }

  /** The address is at most 256 away from one of the others that is itself that far from both ends of memory. */
  predicate IsNear(ips: seq<uint64>, a: nat) {
    exists ip :: ip in ips && 256 <= ip <= 0xFFFF_FFFF_FFFF_FEFF && ip - 256 <= a <= ip + 256
  }

  /** The address lies between the stack pointer and the end of its region; the thread that dumps itself has no such stack. */
  predicate InUsedStack(t: Target, c: Captured, crash: bool, a: nat)
    requires TargetOk(t)
  {
    var sp := Regs(c).sp;
    var region := MemoryRegions.FindRegion(t.regions, sp);
    region.Some? && (c.isSelf ==> crash) && sp <= a < region.value.vmaddr + region.value.vmsize
  }

  lemma RequestedConcat(a: seq<IntervalSet.Range>, b: seq<IntervalSet.Range>, x: nat)
    ensures IntervalSet.Requested(a + b, x) <==> IntervalSet.Requested(a, x) || IntervalSet.Requested(b, x)
  {
    var rs := a + b;
    if IntervalSet.Requested(a, x) {
      var i :| 0 <= i < |a| && IntervalSet.InRange(x, a[i]);
      assert rs[i] == a[i];
    }
    if IntervalSet.Requested(b, x) {
      var i :| 0 <= i < |b| && IntervalSet.InRange(x, b[i]);
      assert rs[|a| + i] == b[i];
    }
  }

  lemma RequestedOne(r: IntervalSet.Range, x: nat)
    ensures IntervalSet.Requested([r], x) <==> r.start <= x < r.start + r.length
    ensures !IntervalSet.Requested([], x)
  {
    assert [r][0] == r;
  }

  lemma {:induction false} NearRequested(ips: seq<uint64>, a: nat)
    ensures IntervalSet.Requested(IpRanges(ips), a)
            <==> IsNear(ips, a)
  {
    hide IntervalSet.Requested, IsNear;
    if ips == [] {
      RequestedOne(IntervalSet.Range(0, 0), a);
      NoneNear(a);
    } else {
      var n := |ips| - 1;
      NearRequested(ips[..n], a);
      var more := if InBounds(ips[n]) then [IpRange(ips[n])] else [];
      RequestedConcat(IpRanges(ips[..n]), more, a);
      RequestedOne(if InBounds(ips[n]) then IpRange(ips[n]) else IntervalSet.Range(0, 0), a);
      NearSnoc(ips[..n], ips[n], a);
      assert ips == ips[..n] + [ips[n]];
    }
  }

  lemma NoneNear(a: nat)
    ensures !IsNear([], a)
  {
  }

  lemma NearSnoc(ips: seq<uint64>, ip: uint64, a: nat)
    ensures IsNear(ips + [ip], a)
            <==> IsNear(ips, a) || (256 <= ip <= 0xFFFF_FFFF_FFFF_FEFF && ip - 256 <= a <= ip + 256)
  {
    assert ip in ips + [ip];
    if IsNear(ips, a) {
      var x :| x in ips && 256 <= x <= 0xFFFF_FFFF_FFFF_FEFF && x - 256 <= a <= x + 256;
      assert x in ips + [ip];
    }
  }

  lemma StackRequested(t: Target, c: Captured, crash: bool, a: nat)
    requires TargetOk(t)
    ensures StackRangesOf(t, c, crash) == StackRanges(t.regions, c, crash)
    ensures IntervalSet.Requested(StackRangesOf(t, c, crash), a) <==> InUsedStack(t, c, crash, a)
  {
    hide RegistersOf, MemoryRegions.FindRegion, IntervalSet.Requested;
    if StackRanges(t.regions, c, crash) != [] {
      StackRangeIsExact(t.regions, c, crash);
      RequestedOne(StackRanges(t.regions, c, crash)[0], a);
    } else {
      RequestedOne(IntervalSet.Range(0, 0), a);
    }
  }

  /** What is requested: the surroundings of the addresses on the call stacks, and the used stacks. */
  lemma {:induction false} RequestedMeans(t: Target, cs: seq<Captured>, crash: bool, a: nat)
    requires TargetOk(t) && AllWalkable(t.mem, cs)
    ensures IntervalSet.Requested(Requests(t, cs, crash), a)
            <==> exists i :: 0 <= i < |cs| && (IsNear(StackOf(t, cs[i]), a) || InUsedStack(t, cs[i], crash, a))
  {
    hide TargetOk, Walkable, StackOf, StackRanges, StackRangesOf, RegistersOf, IpRanges, IntervalSet.Requested, InUsedStack,
         IsNear;
    if cs == [] {
      RequestedOne(IntervalSet.Range(0, 0), a);
    } else {
      var init, last := cs[..|cs| - 1], cs[|cs| - 1];
      RequestedMeans(t, init, crash, a);
      NearRequested(StackOf(t, last), a);
      StackRequested(t, last, crash, a);
      RequestedConcat(Requests(t, init, crash), IpRanges(StackOf(t, last)), a);
      RequestedConcat(Requests(t, init, crash) + IpRanges(StackOf(t, last)), StackRangesOf(t, last, crash), a);
      if i :| 0 <= i < |cs| && (IsNear(StackOf(t, cs[i]), a) || InUsedStack(t, cs[i], crash, a)) {
        assert i < |init| ==> init[i] == cs[i];
      }
      if i :| 0 <= i < |init| && (IsNear(StackOf(t, init[i]), a) || InUsedStack(t, init[i], crash, a)) {
        assert init[i] == cs[i];
      }
    }
  }

  /** The entry reaches from lo to hi, and no other one spans an address in between. */
  predicate OnlyOne(m: seq<IntervalSet.Interval>, p: IntervalSet.Interval, lo: nat, hi: nat) {
    && IntervalSet.Spans(p, lo, hi)
    && forall q, a :: q in m && q != p && lo <= a <= hi ==> !IntervalSet.InSpan(q, a)
  }

  lemma IsOnlyOne(m: seq<IntervalSet.Interval>, p: IntervalSet.Interval, lo: nat, hi: nat)
    requires p in m && IntervalSet.Spans(p, lo, hi)
    requires forall a: nat :: lo <= a <= hi ==> IntervalSet.Single(m, a)
    ensures OnlyOne(m, p, lo, hi)
  {
    forall q, a | q in m && q != p && lo <= a <= hi ensures !IntervalSet.InSpan(q, a) {
      assert IntervalSet.InSpan(p, a) && IntervalSet.Single(m, a);
    }
  }

  /** Below the edge surroundings every address is spanned at most once; elsewhere where the requests are harmless. */
  lemma SingleUpTo(t: Target, cs: seq<Captured>, crash: bool, ids: seq<uint64>,
                   modules: seq<ModuleImage.ModuleInfo>, intervals: seq<IntervalSet.Interval>, a: nat)
    requires Recorded(t, cs, crash, ids, modules, intervals)
    requires a < EDGE_START || IntervalSet.EachOnce(intervals, Requests(t, cs, crash))
    ensures IntervalSet.Single(intervals, a)
  {
    hide TargetOk, AllWalkable, AllStacks, Requests, IntervalSet.InsertedFrom, MarkedAll, IntervalSet.Single,
         IntervalSet.Spanned, IntervalSet.Requested, WrappedRequests.WrapsOnlyAt;
    RequestsWrapAt(t, cs, crash);
    if a < EDGE_START {
      WrappedRequests.BelowIsExact(Requests(t, cs, crash), EDGE_START, a);
    }
  }

  /**
   A range that was requested and does not wrap lies in one interval, if it starts below the edge surroundings
   or there are none. The interval is the only one for it if the range ends below them, or if the requests are harmless.
   */
  lemma RangeInOne(t: Target, cs: seq<Captured>, crash: bool, ids: seq<uint64>, modules: seq<ModuleImage.ModuleInfo>,
                   intervals: seq<IntervalSet.Interval>, r: IntervalSet.Range)
    returns (p: IntervalSet.Interval)
    requires Recorded(t, cs, crash, ids, modules, intervals)
    requires r in Requests(t, cs, crash) && !IntervalSet.Wraps(r) && r.length > 0
    requires r.start < EDGE_START || EDGE_ADDRESS !in AllStacks(t, cs)
    ensures p in intervals && IntervalSet.Spans(p, r.start, r.start + r.length - 1)
    ensures r.start + r.length <= EDGE_START || IntervalSet.EachOnce(intervals, Requests(t, cs, crash)) ==>
              OnlyOne(intervals, p, r.start, r.start + r.length - 1)
  {
    hide TargetOk, AllWalkable, AllStacks, Requests, IntervalSet.InsertedFrom, MarkedAll, IntervalSet.Single,
         IntervalSet.EachOnce, WrappedRequests.WrapsOnlyAt, WrappedRequests.SomeWraps, OnlyOne, IntervalSet.Wraps;
    var rs, lo, hi := Requests(t, cs, crash), r.start, r.start + r.length - 1;
    RequestsWrapAt(t, cs, crash);
    RequestsWrapIff(t, cs, crash);
    var k :| 0 <= k < |rs| && rs[k] == r;
    WrappedRequests.RunKeeps(rs, EDGE_START, k, lo, hi);
    p :| p in intervals && IntervalSet.Spans(p, lo, hi);
    if hi < EDGE_START || IntervalSet.EachOnce(intervals, rs) {
      forall a: nat | lo <= a <= hi ensures IntervalSet.Single(intervals, a) {
        SingleUpTo(t, cs, crash, ids, modules, intervals, a);
      }
      IsOnlyOne(intervals, p, lo, hi);
    }
  }

  /**
   For every run: each address on a call stack that is at least 256 and below the edge lies in one interval
   together with its 256 neighbours on both sides. No other interval comes near, if the neighbours lie below
   the edge surroundings, or if the requests are harmless.
   */
  lemma CallStackCovered(t: Target, cs: seq<Captured>, crash: bool, ids: seq<uint64>,
                         modules: seq<ModuleImage.ModuleInfo>, intervals: seq<IntervalSet.Interval>,
                         i: nat, ip: uint64)
    returns (p: IntervalSet.Interval)
    requires Recorded(t, cs, crash, ids, modules, intervals)
    requires i < |cs| && ip in StackOf(t, cs[i]) && 256 <= ip < 0xFFFF_FFFF_FFFF_FEFF
    ensures p in intervals && IntervalSet.Spans(p, ip - 256, ip + 256)
    ensures ip + 256 < EDGE_START || IntervalSet.EachOnce(intervals, Requests(t, cs, crash)) ==>
              OnlyOne(intervals, p, ip - 256, ip + 256)
  {
    hide TargetOk, Walkable, StackOf, StackRanges, IpRanges, Requests, AllStacks, IntervalSet.EachOnce, OnlyOne, Recorded;
    assert TargetOk(t) && AllWalkable(t.mem, cs) by { RecordedTarget(t, cs, crash, ids, modules, intervals); }
    IpRequested(StackOf(t, cs[i]), ip);
    ThreadRequested(t, cs, crash, i, IpRange(ip));
    p := RangeInOne(t, cs, crash, ids, modules, intervals, IpRange(ip));
  }

  lemma RecordedTarget(t: Target, cs: seq<Captured>, crash: bool, ids: seq<uint64>,
                       modules: seq<ModuleImage.ModuleInfo>, intervals: seq<IntervalSet.Interval>)
    requires Recorded(t, cs, crash, ids, modules, intervals)
    ensures TargetOk(t) && AllWalkable(t.mem, cs)
  {
  }

  /**
   For every run: the used part of a stack, from the stack pointer to the end of its region, lies in one
   interval, if the stack pointer lies below the edge surroundings or no call stack holds the edge address.
   */
  lemma StackCovered(t: Target, cs: seq<Captured>, crash: bool, ids: seq<uint64>,
                     modules: seq<ModuleImage.ModuleInfo>, intervals: seq<IntervalSet.Interval>, i: nat)
    requires Recorded(t, cs, crash, ids, modules, intervals)
    requires i < |cs| && (!cs[i].isSelf || crash) && MemoryRegions.FindRegion(t.regions, Regs(cs[i]).sp).Some?
    ensures var sp, region := Regs(cs[i]).sp, MemoryRegions.FindRegion(t.regions, Regs(cs[i]).sp).value;
            var end := region.vmaddr + region.vmsize;
            && sp <= end
            && (sp < end && (sp < EDGE_START || EDGE_ADDRESS !in AllStacks(t, cs)) ==>
                  exists p :: p in intervals && IntervalSet.Spans(p, sp, end - 1)
                              && (end <= EDGE_START || IntervalSet.EachOnce(intervals, Requests(t, cs, crash)) ==>
                                    OnlyOne(intervals, p, sp, end - 1)))
  {
    RecordedTarget(t, cs, crash, ids, modules, intervals);
    assert StackRanges(t.regions, cs[i], crash) != [];
    hide Walkable, StackOf, StackRanges, IpRanges, Requests, AllStacks, IntervalSet.EachOnce, OnlyOne, Recorded,
         ListOk, MemoryRegions.RegionsOk, MemoryRegions.FindRegion, RegistersOf;
    StackRangeIsExact(t.regions, cs[i], crash);
    var r := StackRanges(t.regions, cs[i], crash)[0];
    ThreadRequested(t, cs, crash, i, r);
    if r.length > 0 && (r.start < EDGE_START || EDGE_ADDRESS !in AllStacks(t, cs)) {
      var p := RangeInOne(t, cs, crash, ids, modules, intervals, r);
    }
  }

  /**
   What becomes of an address in the surroundings of the edge address while that is on a call stack. Let the
   j-th request be the last one for the edge address. The address is in an interval exactly when no later
   stack starts where the surroundings do and some address below them is not requested, or a later request
   asks for the address, or an interval that starts elsewhere held it before the j-th request.
   */
  lemma AboveEdgeIff(t: Target, cs: seq<Captured>, crash: bool, ids: seq<uint64>, modules: seq<ModuleImage.ModuleInfo>,
                     intervals: seq<IntervalSet.Interval>, a: nat) returns (j: nat)
    requires Recorded(t, cs, crash, ids, modules, intervals)
    requires EDGE_ADDRESS in AllStacks(t, cs) && EDGE_START <= a < UINT64_MOD
    ensures IntervalSet.KeySorted([]) && j < |Requests(t, cs, crash)|
    ensures var rs := Requests(t, cs, crash);
            && IntervalSet.Wraps(rs[j]) && (forall k :: j < k < |rs| ==> !IntervalSet.Wraps(rs[k]))
            && (IntervalSet.Spanned(intervals, a)
                <==> (ExactRuns.NoneFromEdge(rs, EDGE_START, j) && !ExactRuns.BelowFull(rs, EDGE_START))
                     || IntervalSet.Requested(rs[j + 1..], a)
                     || ExactRuns.HeldElsewhere(IntervalSet.InsertedFrom([], rs[..j]), EDGE_START, a))
  {
    hide TargetOk, AllWalkable, AllStacks, Requests, IntervalSet.InsertedFrom, MarkedAll, IntervalSet.Wraps,
         IntervalSet.Spanned, IntervalSet.Requested, ExactRuns.NoneFromEdge, ExactRuns.BelowFull,
         ExactRuns.HeldElsewhere, WrappedRequests.WrapsOnlyAt;
    RequestsWrapAt(t, cs, crash);
    RequestsWrapIff(t, cs, crash);
    j := ExactRuns.LastWrap(Requests(t, cs, crash));
    ExactRuns.AboveIff(Requests(t, cs, crash), EDGE_START, j, a);
  }

  // ---------------------------------------------------------------- executing flags

  lemma {:induction false} AmongAllStacks(t: Target, cs: seq<Captured>, ip: uint64)
    requires TargetOk(t) && AllWalkable(t.mem, cs)
    ensures ip in AllStacks(t, cs) <==> exists i :: 0 <= i < |cs| && ip in StackOf(t, cs[i])
  {
    hide TargetOk, Walkable, StackOf;
    if cs != [] {
      var n := |cs| - 1;
      AmongAllStacks(t, cs[..n], ip);
      if ip in StackOf(t, cs[n]) {
        assert exists i :: 0 <= i < |cs| && ip in StackOf(t, cs[i]);
      }
      if ip in AllStacks(t, cs[..n]) {
        var i :| 0 <= i < n && ip in StackOf(t, cs[..n][i]);
        assert cs[..n][i] == cs[i];
      }
    }
  }

  /** After the loop a module is executing exactly when it was before, or an address on a call stack is its code. */
  lemma ExecutingModules(t: Target, cs: seq<Captured>, crash: bool, ids: seq<uint64>,
                         modules: seq<ModuleImage.ModuleInfo>, intervals: seq<IntervalSet.Interval>, k: nat)
    requires Recorded(t, cs, crash, ids, modules, intervals) && k < |t.modules|
    ensures SameModules(modules, t.modules)
    ensures modules[k].executing
            <==> t.modules[k].executing
                 || exists i, ip :: 0 <= i < |cs| && ip in StackOf(t, cs[i]) && Find(t.modules, ip) == Some(k)
  {
    hide ListOk, MemoryRegions.RegionsOk, Walkable, StackOf, Requests, Find, AllStacks;
    var ips := AllStacks(t, cs);
    MarkedAllSetsExactly(t.modules, ips, k);
    if i, ip :| 0 <= i < |cs| && ip in StackOf(t, cs[i]) && Find(t.modules, ip) == Some(k) {
      AmongAllStacks(t, cs, ip);
      var j :| 0 <= j < |ips| && ips[j] == ip;
    }
    if j :| 0 <= j < |ips| && Find(t.modules, ips[j]) == Some(k) {
      AmongAllStacks(t, cs, ips[j]);
      var i :| 0 <= i < |cs| && ips[j] in StackOf(t, cs[i]);
    }
  }
}
