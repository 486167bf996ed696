/** What a reader finds in the file of a dump: the memory that was selected, and the contents of the notes. */
module EndToEnd {
  import opened Bytes
  import opened CStrings
  import opened MachO
  import opened DataAccess
  import opened Layout
  import opened CoreBuilder
  import opened ModuleImage
  import opened Modules
  import opened StackWalk
  import opened Threads
  import opened ImageInfos
  import opened ImageInfosReader
  import opened MainExecutable
  import opened ProcessMetadata
  import opened CoreReader
  import opened CoreFile
  import opened MiniDump
  import opened WriteDump
  import Coverage
  import ExactRuns
  import IntervalSet

  // ---------------------------------------------------------------- segments and intervals

  /** Among some intervals, interval i is the only one that spans the address. */
  predicate OnlySpan(ivs: seq<IntervalSet.Interval>, i: nat, a: nat) {
    i < |ivs| && IntervalSet.InSpan(ivs[i], a) && forall k :: 0 <= k < |ivs| && k != i ==> !IntervalSet.InSpan(ivs[k], a)
  }

  lemma CountsAgree(d: Dump, prot: uint64 -> Option<uint32>, bits: uint32)
    requires DumpOk(d, prot, bits)
    ensures |d.notes| == 4 && |d.segments| == |d.added| == |Protected(d.intervals, prot)|
  {
    hide Recorded, PayloadsFor, NotesWith, PlacedNotes, SegmentBase64, NoteBase, SegmentFor, AllWritable;
  }

  /** Each segment of the file belongs to one protected interval, with the address and size of the interval. */
  lemma FileSegment(d: Dump, prot: uint64 -> Option<uint32>, bits: uint32, i: nat)
    requires DumpOk(d, prot, bits) && i < |d.segments|
    ensures |d.segments| == |d.added| == |Protected(d.intervals, prot)|
    ensures var e, iv := d.segments[i], Protected(d.intervals, prot)[i];
            && FromMemory(e, d.target.mem) && SegmentBytes(e.data.value).Some?
            && e.cmd.vmaddr == iv.start && e.cmd.vmsize == IntervalSet.LengthOf(iv)
  {
    hide Recorded, PayloadsFor, NotesWith, PlacedNotes, SegmentBase64, NoteBase, SegmentBytes;
    DumpIsReady(d, prot, bits);
    SegmentsForOk(d.added, d.intervals, d.target.mem, prot, i);
    assert SegmentFor(d.added[i], Protected(d.intervals, prot)[i], d.target.mem, prot);
    assert Writable(d.segments[i]);
    assert d.segments[i] == WithFileOffset(d.added[i], d.segments[i].cmd.fileoff);
  }

  lemma CommandsAt(notes: seq<NoteEntry>, threads: seq<thread_state>, segments: seq<SegmentEntry>, l: nat)
    requires l < |notes| + |threads| + |segments|
    ensures var cs := Commands(notes, threads, segments);
            && |cs| == |notes| + |threads| + |segments|
            && cs[l] == if l < |notes| then Note(notes[l].cmd)
                        else if l < |notes| + |threads| then Thread(threads[l - |notes|])
                        else Segment(segments[l - |notes| - |threads|].cmd)
  {
  }

  /** A command of the file contains an address exactly when it belongs to an interval that spans it. */
  lemma CommandSpans(d: Dump, prot: uint64 -> Option<uint32>, bits: uint32, l: nat, a: nat)
    requires DumpOk(d, prot, bits) && l < 4 + |d.captured| + |d.segments|
    ensures |d.segments| == |Protected(d.intervals, prot)|
    ensures var cs := Commands(d.notes, States(d.captured), d.segments);
            && |cs| == 4 + |d.captured| + |d.segments|
            && (SegmentAt(cs[l], a) <==>
                  l >= 4 + |d.captured| && IntervalSet.InSpan(Protected(d.intervals, prot)[l - 4 - |d.captured|], a))
  {
    hide DumpOk, Commands, Protected, States, IntervalSet.LengthOf, FromMemory, SegmentBytes;
    CountsAgree(d, prot, bits);
    CommandsAt(d.notes, States(d.captured), d.segments, l);
    if l >= 4 + |d.captured| {
      FileSegment(d, prot, bits, l - 4 - |d.captured|);
    }
  }

  /** An address lies in exactly one segment command of the file exactly when one protected interval spans it. */
  lemma OneSegmentIff(d: Dump, prot: uint64 -> Option<uint32>, bits: uint32, i: nat, a: nat)
    requires DumpOk(d, prot, bits) && i < |Protected(d.intervals, prot)|
    ensures OnlySegmentAt(Commands(d.notes, States(d.captured), d.segments), 4 + |d.captured| + i, a)
            <==> OnlySpan(Protected(d.intervals, prot), i, a)
  {
    hide DumpOk, Commands, Protected, States, SegmentAt, IntervalSet.InSpan;
    var cs, ivs, first := Commands(d.notes, States(d.captured), d.segments), Protected(d.intervals, prot), 4 + |d.captured|;
    CountsAgree(d, prot, bits);
    CommandSpans(d, prot, bits, first + i, a);
    if OnlySpan(ivs, i, a) {
      forall l | 0 <= l < |cs| && l != first + i ensures !SegmentAt(cs[l], a) {
        CommandSpans(d, prot, bits, l, a);
      }
    }
    if OnlySegmentAt(cs, first + i, a) {
      forall k | 0 <= k < |ivs| && k != i ensures !IntervalSet.InSpan(ivs[k], a) {
        CommandSpans(d, prot, bits, first + k, a);
        assert !SegmentAt(cs[first + k], a);
      }
    }
  }

  // ---------------------------------------------------------------- the selected memory

  /**
   The main result. For every dump written from the start of the stream, and every address a of an interval
   that got a segment: the first `w` bytes read through that segment are the very bytes the process had, and
   behind them there are zeros or the end of the file; `w` is all of it exactly when all of the interval can
   be read. The segment is the only one for a exactly when no other interval spans a.
   */
  lemma SelectedMemoryIsInFile(file: seq<byte>, d: Dump, prot: uint64 -> Option<uint32>, bits: uint32, i: nat, a: nat)
    requires DumpFile(file, d, prot, bits)
    requires i < |Protected(d.intervals, prot)| && IntervalSet.InSpan(Protected(d.intervals, prot)[i], a)
    ensures ParseFile(file).Some? && 4 + |d.captured| + i < |ParseFile(file).value.commands|
    ensures SegmentAt(ParseFile(file).value.commands[4 + |d.captured| + i], a)
    ensures |d.segments| == |Protected(d.intervals, prot)|
    ensures var iv, w := Protected(d.intervals, prot)[i], Written(d.segments[i]);
            var r := ReadThrough(file, ParseFile(file).value.commands[4 + |d.captured| + i].segment, a);
            && (a - iv.start < w ==> r.Some? && r == Loaded(d.target.mem, a))
            && (a - iv.start >= w ==> r == Some(0) || r == None)
            && (w == IntervalSet.LengthOf(iv) <==> Readable(d.target.mem, iv.start, IntervalSet.LengthOf(iv)))
    ensures OnlySegmentAt(ParseFile(file).value.commands, 4 + |d.captured| + i, a)
            <==> OnlySpan(Protected(d.intervals, prot), i, a)
  {
    hide DumpOk, DumpFits, Commands, Protected, States, OnlySegmentAt, FromMemory, SegmentBytes, IntervalSet.LengthOf, OnlySpan,
         Written, Readable, ParseFile, DumpWrites, Finished;
    DumpParses(file, d, prot, bits);
    DumpIsFinished(file, d, prot, bits);
    OneSegmentIff(d, prot, bits, i, a);
    CountsAgree(d, prot, bits);
    FileSegment(d, prot, bits, i);
    CommandsAt(d.notes, States(d.captured), d.segments, 4 + |d.captured| + i);
    MemoryInFile(file, d.header, d.notes, States(d.captured), d.segments, d.target.mem, i, a);
  }

  /** A reader that looks the segment up by the address finds that one. */
  lemma ReaderSeesSelectedMemory(file: seq<byte>, d: Dump, prot: uint64 -> Option<uint32>, bits: uint32, i: nat, a: nat)
    requires DumpFile(file, d, prot, bits) && OnlySpan(Protected(d.intervals, prot), i, a)
    requires var iv := Protected(d.intervals, prot)[i]; Readable(d.target.mem, iv.start, IntervalSet.LengthOf(iv))
    ensures ParseFile(file).Some?
    ensures ReadMemory(file, ParseFile(file).value.commands, a) == Some(d.target.mem[a])
  {
    hide DumpOk, DumpFits, Commands, Protected, States, OnlySegmentAt, Readable, ParseFile, DumpWrites, LookupSegment;
    SelectedMemoryIsInFile(file, d, prot, bits, i, a);
    LookupOnly(ParseFile(file).value.commands, 4 + |d.captured| + i, a);
    SpanReadable(d.target.mem, Protected(d.intervals, prot)[i], a);
    WrittenSpan(d, prot, bits, i);
  }

  lemma SpanReadable(mem: Memory, iv: IntervalSet.Interval, a: nat)
    requires Readable(mem, iv.start, IntervalSet.LengthOf(iv)) && IntervalSet.InSpan(iv, a)
    ensures a in mem && Loaded(mem, a) == Some(mem[a])
  {
  }

  lemma WrittenSpan(d: Dump, prot: uint64 -> Option<uint32>, bits: uint32, i: nat)
    requires DumpOk(d, prot, bits) && i < |d.segments|
    ensures |d.segments| == |Protected(d.intervals, prot)|
    ensures Written(d.segments[i]) <= IntervalSet.LengthOf(Protected(d.intervals, prot)[i])
  {
    hide DumpOk, Protected, IntervalSet.LengthOf, Written, Readable, FromMemory, SegmentBytes;
    FileSegment(d, prot, bits, i);
    PayloadIsMemory(d.segments[i], d.target.mem, 0);
  }

  /** An address that no protected interval spans is in no segment: nothing else gets into the file. */
  lemma NothingElseIsInFile(file: seq<byte>, d: Dump, prot: uint64 -> Option<uint32>, bits: uint32, a: nat)
    requires DumpFile(file, d, prot, bits)
    requires forall i :: 0 <= i < |Protected(d.intervals, prot)| ==> !IntervalSet.InSpan(Protected(d.intervals, prot)[i], a)
    ensures ParseFile(file).Some? && ReadMemory(file, ParseFile(file).value.commands, a) == None
  {
    hide DumpOk, DumpFits, Commands, Protected, States, SegmentAt, ParseFile, DumpWrites, IntervalSet.InSpan;
    DumpParses(file, d, prot, bits);
    CountsAgree(d, prot, bits);
    var cs := Commands(d.notes, States(d.captured), d.segments);
    CommandSpans(d, prot, bits, 0, a);
    forall l | 0 <= l < |cs| ensures !SegmentAt(cs[l], a) {
      CommandSpans(d, prot, bits, l, a);
    }
    LookupNothing(cs, a);
  }

  /** What at most one interval spans, at most one protected interval spans. */
  lemma ProtectedOnly(ivs: seq<IntervalSet.Interval>, prot: uint64 -> Option<uint32>, i: nat, a: nat)
    requires IntervalSet.KeySorted(ivs) && IntervalSet.Single(ivs, a) && i < |Protected(ivs, prot)|
    ensures OnlySpan(Protected(ivs, prot), i, a) <==> IntervalSet.InSpan(Protected(ivs, prot)[i], a)
  {
    hide Protected, IntervalSet.InSpan;
    var ps := Protected(ivs, prot);
    ProtectedKeepsOrder(ivs, prot);
    forall k | 0 <= k < |ps| ensures ps[k] in ivs {
      assert ps[k] in ps;
      ProtectedAmong(ivs, prot, ps[k]);
    }
    if IntervalSet.InSpan(ps[i], a) {
      forall k | 0 <= k < |ps| && k != i ensures !IntervalSet.InSpan(ps[k], a) {
        assert ps[k].start != ps[i].start;
      }
    }
  }

  /**
   An address of a protected interval has just one segment, if it lies below the surroundings of the edge
   address, or if the requests of the run are harmless.
   */
  lemma OverlapOnlyAtEdge(d: Dump, prot: uint64 -> Option<uint32>, bits: uint32, i: nat, a: nat)
    requires DumpOk(d, prot, bits)
    requires TargetOk(d.target) && AllWalkable(d.target.mem, d.captured)
    requires a < Coverage.EDGE_START
             || ExactRuns.Harmless(Requests(d.target, d.captured, d.crashed), Coverage.EDGE_START)
    requires i < |Protected(d.intervals, prot)|
    ensures OnlySegmentAt(Commands(d.notes, States(d.captured), d.segments), 4 + |d.captured| + i, a)
            <==> IntervalSet.InSpan(Protected(d.intervals, prot)[i], a)
  {
    hide Recorded, SegmentsFor, PayloadsFor, BuiltFrom, AllWritable, Protected, TargetOk, AllWalkable, OnlySpan,
         IntervalSet.EachOnce, ExactRuns.Harmless, Requests, IntervalSet.InSpan, IntervalSet.Single, Commands, States,
         OnlySegmentAt;
    Coverage.RecordedDenotesIff(d.target, d.captured, d.crashed, d.ids, d.modules, d.intervals);
    Coverage.SingleUpTo(d.target, d.captured, d.crashed, d.ids, d.modules, d.intervals, a);
    DumpIsReady(d, prot, bits);
    ProtectedOnly(d.intervals, prot, i, a);
    OneSegmentIff(d, prot, bits, i, a);
  }

  // ---------------------------------------------------------------- call stacks

  predicate SegmentReaches(c: Command, lo: nat, hi: nat) {
    c.Segment? && c.segment.vmaddr <= lo && hi < c.segment.vmaddr + c.segment.vmsize
  }

  /** The command of the only segment with an address from lo to hi. */
  predicate OnlySegmentAround(cs: seq<Command>, j: nat, lo: nat, hi: nat) {
    j < |cs| && forall l, a :: 0 <= l < |cs| && l != j && lo <= a <= hi ==> !SegmentAt(cs[l], a)
  }

  /**
   In every dump, each address on a call stack from 256 up to the edge lies, with its surroundings, in one
   collected interval. If the query for the protection of that interval succeeds, it lies in the segment of
   that interval, and in no other one unless the surroundings reach into those of the edge address while the
   requests are not harmless.
   */
  lemma CallStackIsInFile(file: seq<byte>, d: Dump, prot: uint64 -> Option<uint32>, bits: uint32, c: nat, ip: uint64)
    returns (iv: IntervalSet.Interval, i: nat)
    requires DumpFile(file, d, prot, bits)
    requires TargetOk(d.target) && AllWalkable(d.target.mem, d.captured)
    requires c < |d.captured| && ip in StackOf(d.target, d.captured[c]) && 256 <= ip < 0xFFFF_FFFF_FFFF_FEFF
    ensures ParseFile(file).Some? && iv in d.intervals
    ensures IntervalSet.Spans(iv, ip - 256, ip + 256)
    ensures prot(iv.start).Some? ==>
              var cs, j := ParseFile(file).value.commands, 4 + |d.captured| + i;
              && i < |Protected(d.intervals, prot)| && Protected(d.intervals, prot)[i] == iv && j < |cs|
              && SegmentReaches(cs[j], ip - 256, ip + 256)
              && (ip + 256 < Coverage.EDGE_START
                  || ExactRuns.Harmless(Requests(d.target, d.captured, d.crashed), Coverage.EDGE_START) ==>
                    OnlySegmentAround(cs, j, ip - 256, ip + 256))
  {
    hide DumpFits, Recorded, SegmentsFor, PayloadsFor, BuiltFrom, AllWritable, TargetOk, AllWalkable, StackOf, Requests,
         Commands, States, ParseFile, DumpWrites, Protected, Coverage.OnlyOne, ExactRuns.Harmless, SegmentReaches,
         OnlySegmentAround;
    iv := Coverage.CallStackCovered(d.target, d.captured, d.crashed, d.ids, d.modules, d.intervals, c, ip);
    DumpParses(file, d, prot, bits);
    i := 0;
    if prot(iv.start).Some? {
      ProtectedAmong(d.intervals, prot, iv);
      i :| 0 <= i < |Protected(d.intervals, prot)| && Protected(d.intervals, prot)[i] == iv;
      SegmentForRange(d, prot, bits, i, ip - 256, ip + 256);
    }
  }

  lemma SegmentForRange(d: Dump, prot: uint64 -> Option<uint32>, bits: uint32, i: nat, lo: nat, hi: nat)
    requires DumpOk(d, prot, bits) && TargetOk(d.target) && AllWalkable(d.target.mem, d.captured)
    requires i < |Protected(d.intervals, prot)| && IntervalSet.Spans(Protected(d.intervals, prot)[i], lo, hi) && lo <= hi
    ensures var cs, j := Commands(d.notes, States(d.captured), d.segments), 4 + |d.captured| + i;
            && j < |cs| && SegmentReaches(cs[j], lo, hi)
            && (hi < Coverage.EDGE_START
                || ExactRuns.Harmless(Requests(d.target, d.captured, d.crashed), Coverage.EDGE_START) ==>
                  OnlySegmentAround(cs, j, lo, hi))
  {
    hide DumpOk, TargetOk, AllWalkable, Commands, States, Protected, OnlySpan, ExactRuns.Harmless, Requests, FromMemory,
         SegmentBytes;
    var cs, j := Commands(d.notes, States(d.captured), d.segments), 4 + |d.captured| + i;
    CountsAgree(d, prot, bits);
    FileSegment(d, prot, bits, i);
    CommandsAt(d.notes, States(d.captured), d.segments, j);
    if hi < Coverage.EDGE_START
       || ExactRuns.Harmless(Requests(d.target, d.captured, d.crashed), Coverage.EDGE_START)
    {
      forall a | lo <= a <= hi ensures OnlySegmentAt(cs, j, a) {
        OverlapOnlyAtEdge(d, prot, bits, i, a);
      }
      forall l, a | 0 <= l < |cs| && l != j && lo <= a <= hi ensures !SegmentAt(cs[l], a) {
        assert OnlySegmentAt(cs, j, a);
      }
    }
  }

  // ---------------------------------------------------------------- the file as a whole

  predicate InSomeSegment(cs: seq<Command>, a: nat) {
    exists l :: 0 <= l < |cs| && SegmentAt(cs[l], a)
  }

  predicate InOneSegmentAtMost(cs: seq<Command>, a: nat) {
    forall l, l' :: 0 <= l < l' < |cs| && SegmentAt(cs[l], a) ==> !SegmentAt(cs[l'], a)
  }

  /** Of the segments of the file, those with an address belong to the intervals that span it. */
  lemma SegmentsAreIntervals(d: Dump, prot: uint64 -> Option<uint32>, bits: uint32, a: nat)
    requires DumpOk(d, prot, bits) && Protected(d.intervals, prot) == d.intervals
    ensures var cs := Commands(d.notes, States(d.captured), d.segments);
            && (InSomeSegment(cs, a) <==> IntervalSet.Spanned(d.intervals, a))
            && (InOneSegmentAtMost(cs, a) <==> IntervalSet.Single(d.intervals, a))
  {
    hide DumpOk, Commands, Protected, States, SegmentAt, IntervalSet.InSpan, InSomeSegment, InOneSegmentAtMost,
         IntervalSet.Spanned, IntervalSet.Single, IntervalSet.KeySorted;
    var cs, ivs, first := Commands(d.notes, States(d.captured), d.segments), d.intervals, 4 + |d.captured|;
    DumpIsReady(d, prot, bits);
    CountsAgree(d, prot, bits);
    assert |cs| == first + |ivs| by { CommandsCount(d, prot, bits); }
    forall l | 0 <= l < |cs|
      ensures SegmentAt(cs[l], a) <==> l >= first && IntervalSet.InSpan(ivs[l - first], a)
    {
      CommandSpans(d, prot, bits, l, a);
    }
    SomeMatches(cs, first, ivs, a);
    OneMatches(cs, first, ivs, a);
  }

  /** From `first` on the commands are segments with the addresses of the intervals, and before it none is. */
  ghost predicate Matching(cs: seq<Command>, first: nat, ivs: seq<IntervalSet.Interval>, a: nat) {
    && |cs| == first + |ivs|
    && forall l {:trigger cs[l]} :: 0 <= l < |cs| ==>
         (SegmentAt(cs[l], a) <==> l >= first && IntervalSet.InSpan(ivs[l - first], a))
  }

  lemma SomeMatches(cs: seq<Command>, first: nat, ivs: seq<IntervalSet.Interval>, a: nat)
    requires Matching(cs, first, ivs, a)
    ensures InSomeSegment(cs, a) <==> IntervalSet.Spanned(ivs, a)
  {
    hide SegmentAt, IntervalSet.InSpan;
    if p :| p in ivs && IntervalSet.InSpan(p, a) {
      var k :| 0 <= k < |ivs| && ivs[k] == p;
      assert SegmentAt(cs[first + k], a);
    }
  }

  lemma OneMatches(cs: seq<Command>, first: nat, ivs: seq<IntervalSet.Interval>, a: nat)
    requires Matching(cs, first, ivs, a) && IntervalSet.KeySorted(ivs)
    ensures InOneSegmentAtMost(cs, a) <==> IntervalSet.Single(ivs, a)
  {
    hide SegmentAt, IntervalSet.InSpan;
    if InOneSegmentAtMost(cs, a) {
      forall p, q | p in ivs && q in ivs && IntervalSet.InSpan(p, a) && IntervalSet.InSpan(q, a) ensures p == q {
        var k :| 0 <= k < |ivs| && ivs[k] == p;
        var m :| 0 <= m < |ivs| && ivs[m] == q;
        assert SegmentAt(cs[first + k], a) && SegmentAt(cs[first + m], a);
      }
    }
    if IntervalSet.Single(ivs, a) {
      forall l, l' | 0 <= l < l' < |cs| && SegmentAt(cs[l], a) ensures !SegmentAt(cs[l'], a) {
        assert ivs[l - first].start < ivs[l' - first].start;
      }
    }
  }

  lemma CommandsCount(d: Dump, prot: uint64 -> Option<uint32>, bits: uint32)
    requires DumpOk(d, prot, bits)
    ensures |Commands(d.notes, States(d.captured), d.segments)| == 4 + |d.captured| + |Protected(d.intervals, prot)|
  {
    hide DumpOk;
    CountsAgree(d, prot, bits);
  }

  /**
   Where all protection queries succeed, the segments of the file contain each requested address exactly once,
   and nothing else, exactly when the requests are harmless.
   */
  lemma RequestedOnceIff(file: seq<byte>, d: Dump, prot: uint64 -> Option<uint32>, bits: uint32)
    requires DumpFile(file, d, prot, bits) && forall k :: 0 <= k < |d.intervals| ==> prot(d.intervals[k].start).Some?
    requires TargetOk(d.target) && AllWalkable(d.target.mem, d.captured)
    ensures ParseFile(file).Some?
    ensures var cs, rs := ParseFile(file).value.commands, Requests(d.target, d.captured, d.crashed);
            (forall a: nat :: (InSomeSegment(cs, a) <==> IntervalSet.Requested(rs, a)) && InOneSegmentAtMost(cs, a))
            <==> ExactRuns.Harmless(rs, Coverage.EDGE_START)
  {
    hide DumpFits, Recorded, SegmentsFor, PayloadsFor, BuiltFrom, AllWritable, TargetOk, AllWalkable, Requests, Commands,
         States, ParseFile, DumpWrites, Protected, ExactRuns.Harmless, InSomeSegment, InOneSegmentAtMost,
         IntervalSet.Spanned, IntervalSet.Single, IntervalSet.Requested, IntervalSet.Denotes;
    DumpParses(file, d, prot, bits);
    AllProtected(d.intervals, prot);
    Coverage.RecordedDenotesIff(d.target, d.captured, d.crashed, d.ids, d.modules, d.intervals);
    var cs := Commands(d.notes, States(d.captured), d.segments);
    forall a: nat
      ensures InSomeSegment(cs, a) <==> IntervalSet.Spanned(d.intervals, a)
      ensures InOneSegmentAtMost(cs, a) <==> IntervalSet.Single(d.intervals, a)
    {
      SegmentsAreIntervals(d, prot, bits, a);
    }
  }

  lemma {:induction false} AllProtected(ivs: seq<IntervalSet.Interval>, prot: uint64 -> Option<uint32>)
    requires forall k :: 0 <= k < |ivs| ==> prot(ivs[k].start).Some?
    ensures Protected(ivs, prot) == ivs
  {
    if ivs != [] {
      AllProtected(ivs[..|ivs| - 1], prot);
    }
  }

  // ---------------------------------------------------------------- the note payloads

  /** The final notes: name, size and bytes of the payloads. */
  lemma FileNote(d: Dump, prot: uint64 -> Option<uint32>, bits: uint32)
    requires DumpOk(d, prot, bits)
    ensures NotePayload(d.notes[0]) == d.payloads.addrableBits
    ensures NotePayload(d.notes[1]) == d.payloads.imageInfos
    ensures NotePayload(d.notes[2]) == d.payloads.mainBinSpec
    ensures NotePayload(d.notes[3]) == d.payloads.metadata
    ensures forall k :: 0 <= k < 4 ==> CString(d.notes[k].cmd.owner) == Owner(k)
  {
    hide Recorded, PayloadsFor, SegmentsFor, AllWritable, PlacedSegments, NoteBase, Owner, PadName, IsName, CString;
    PayloadsForIsOk(d.payloads, bits, d.modules, d.ids, d.notes[1].cmd.offset);
    forall k | 0 <= k < 4 ensures CString(d.notes[k].cmd.owner) == Owner(k) {
      PadNameRoundTrip(Owner(k));
    }
  }

  /** In a fitting file every payload ends below 2^64. */
  lemma NoteEnds(d: Dump, prot: uint64 -> Option<uint32>, bits: uint32, k: nat)
    requires DumpOk(d, prot, bits) && DumpFits(d) && k < 4
    ensures d.notes[k].cmd.offset + |NotePayload(d.notes[k])| < UINT64_MOD
  {
    hide Recorded, PayloadsFor, SegmentsFor, AllWritable, OwnersDistinct, NotesWith, PlacedNotes, PlacedSegments, FileEnd,
         NotePayload, PayloadsReady, NoteBase, SegmentBase, SegmentBase64, Head, States, HeaderFor;
    DumpIsReady(d, prot, bits);
    var notes0 := NotesWith(d.payloads);
    assert |notes0| == 4 by { NotesWithSize(d.payloads); }
    HeaderIsExact(d.header, |d.captured|, |d.added|);
    HeaderSays(d.header, |d.captured|, |d.added|);
    FittingIsExact(d.header, notes0, States(d.captured), d.added, d.notes, d.segments);
    FittingBounds(notes0, |d.captured|, d.added);
    PlacedNotesSum(NoteBase(d.header.sizeofcmds), notes0, 4);
    NoteSumMonotone(d.notes, k, 4);
  }

  lemma HeaderSays(header: Header, threads: nat, added: nat)
    requires HeaderFor(header, 4, threads, added)
    ensures header.sizeofcmds == CommandsSize(4, threads, added)
  {
  }

  lemma NoteHeld(file: seq<byte>, d: Dump, prot: uint64 -> Option<uint32>, bits: uint32, k: nat)
    requires DumpFile(file, d, prot, bits) && k < 4 && NotePayload(d.notes[k]) != []
    ensures HoldsAt(file, d.notes[k].cmd.offset, NotePayload(d.notes[k]))
  {
    hide DumpOk, DumpFits, DumpWrites, NotePayload, Finished, States, HoldsAt;
    DumpIsFinished(file, d, prot, bits);
    CountsAgree(d, prot, bits);
    NoteInFile(file, d.header, d.notes, States(d.captured), d.segments, k);
  }

  /**
   Following the file offsets from the note about images recovers every module but the main executable,
   exactly when there is just one main executable. Each image that is read then has the load address, UUID, flag,
   path and segments of its module.
   */
  lemma ImagesAreInFile(file: seq<byte>, d: Dump, prot: uint64 -> Option<uint32>, bits: uint32)
    requires DumpFile(file, d, prot, bits) && |d.modules| <= UINT32_MOD
    ensures AllOk(d.modules)
    ensures ReadAllImageInfos(file, d.notes[1].cmd.offset) == Some(ImagesOf(Images(d.modules)))
            <==> MainCount(d.modules) == 1
    ensures forall x: nat :: OnlyMain(d.modules, x) ==>
              var images := ReadAllImageInfos(file, d.notes[1].cmd.offset);
              images.Some? && AllShown(images.value, d.modules, x)
  {
    hide DumpOk, DumpFits, DumpWrites, NotePayload, HoldsAt, ReadAllImageInfos, Images, MainCount, Payload, ModuleOk,
         OnlyMain, AllShown;
    FileNote(d, prot, bits);
    PayloadFacts(d, prot, bits);
    PayloadNotEmpty(d.notes[1].cmd.offset, |d.modules| - 1, Images(d.modules));
    NoteHeld(file, d, prot, bits, 1);
    NoteEnds(d, prot, bits, 1);
    ImageInfosRoundTrip(file, d.notes[1].cmd.offset, d.modules);
    forall x: nat | OnlyMain(d.modules, x)
      ensures var images := ReadAllImageInfos(file, d.notes[1].cmd.offset);
              images.Some? && AllShown(images.value, d.modules, x)
    {
      ImagesShowModules(file, d.notes[1].cmd.offset, d.modules, x);
    }
  }

  lemma PayloadFacts(d: Dump, prot: uint64 -> Option<uint32>, bits: uint32)
    requires DumpOk(d, prot, bits)
    ensures |d.notes| == 4
    ensures AllOk(d.modules) && d.modules != []
    ensures d.payloads.imageInfos == Payload(d.notes[1].cmd.offset, |d.modules| - 1, Images(d.modules))
    ensures d.payloads.metadata == AsciiBytes(Print(Metadata(d.ids)))
    ensures d.payloads.addrableBits == EncodeAddrableBits(bits)
  {
    hide Recorded, SegmentsFor, AllWritable, BuiltFrom, Images, MainCount, Payload, ModuleOk, Print, Metadata, AsciiBytes,
         IsSpec, EncodeAddrableBits;
  }

  lemma PayloadNotEmpty(base: nat, room: nat, images: seq<ModuleInfo>)
    requires AllOk(images) && |images| <= room + 1
    ensures Payload(base, room, images) != []
  {
    hide ModuleOk, Payload;
    PayloadSize(base, room, images);
  }

  /** The text of the last note leads back to the ids, and the i-th id belongs to the i-th thread command. */
  lemma ThreadIdsAreInFile(file: seq<byte>, d: Dump, prot: uint64 -> Option<uint32>, bits: uint32, i: nat)
    requires DumpFile(file, d, prot, bits)
    ensures var at, n := d.notes[3].cmd.offset, |d.payloads.metadata|;
            && HoldsAt(file, at, d.payloads.metadata)
            && var v := Parse(AsciiText(Slice(file, at, n)));
            && v.Some? && ThreadIds(v.value) == Some(d.ids)
    ensures |d.ids| == |d.captured|
    ensures i < |d.captured| ==>
              && d.ids[i] == d.captured[i].tid
              && ParseFile(file).Some? && |ParseFile(file).value.commands| > 4 + i
              && ParseFile(file).value.commands[4 + i].Thread?
              && ReadThreadState(ParseFile(file).value.commands[4 + i].state)
                 == Some((d.captured[i].gpr, d.captured[i].exc))
  {
    hide DumpOk, DumpFits, DumpWrites, NotePayload, Metadata, Print, Parse, ThreadIds, Payload, AllOk, Images, MainCount,
         MakeState, ReadThreadState, Commands, ParseFile, AsciiBytes, AsciiText, States;
    FileNote(d, prot, bits);
    PayloadFacts(d, prot, bits);
    MetadataNotEmpty(d.ids);
    NoteHeld(file, d, prot, bits, 3);
    NoteBytesRoundTrip(d.ids);
    IdsRecorded(d, prot, bits);
    if i < |d.captured| {
      ThreadCommandInFile(file, d, prot, bits, i);
    }
  }

  lemma ThreadCommandInFile(file: seq<byte>, d: Dump, prot: uint64 -> Option<uint32>, bits: uint32, i: nat)
    requires DumpFile(file, d, prot, bits) && i < |d.captured|
    ensures ParseFile(file).Some? && |ParseFile(file).value.commands| > 4 + i
    ensures ParseFile(file).value.commands[4 + i] == Thread(MakeState(d.captured[i].gpr, d.captured[i].exc))
    ensures ReadThreadState(ParseFile(file).value.commands[4 + i].state) == Some((d.captured[i].gpr, d.captured[i].exc))
  {
    hide DumpOk, DumpFits, DumpWrites, MakeState, Commands, ParseFile, ReadThreadState;
    ThreadStateRoundTrip(d.captured[i].gpr, d.captured[i].exc);
    CountsAgree(d, prot, bits);
    DumpParses(file, d, prot, bits);
    CommandsAt(d.notes, States(d.captured), d.segments, 4 + i);
  }

  /** The first note tells the width of an address. */
  lemma AddrableBitsAreInFile(file: seq<byte>, d: Dump, prot: uint64 -> Option<uint32>, bits: uint32)
    requires DumpFile(file, d, prot, bits)
    ensures var at := d.notes[0].cmd.offset;
            InFile(file, at, ADDRABLE_BITS_SIZE) && Field32(file, at) == 3 && Field32(file, at + 4) == bits
  {
    hide DumpOk, DumpFits, DumpWrites, NotePayload, Payload, AllOk, Images, MainCount, Print, Metadata, AsciiBytes, Field32,
         EncodeAddrableBits;
    FileNote(d, prot, bits);
    PayloadFacts(d, prot, bits);
    NoteHeld(file, d, prot, bits, 0);
    AddrableBitsRoundTrip(file, d.notes[0].cmd.offset, bits);
  }

  lemma AddrableBitsRoundTrip(file: seq<byte>, at: nat, bits: uint32)
    requires HoldsAt(file, at, EncodeAddrableBits(bits))
    ensures InFile(file, at, ADDRABLE_BITS_SIZE) && Field32(file, at) == 3 && Field32(file, at + 4) == bits
  {
    hide Field32;
    Read32(file, at, ADDRABLE_BITS_SIZE, EncodeAddrableBits(bits), 0, 3);
    Read32(file, at, ADDRABLE_BITS_SIZE, EncodeAddrableBits(bits), 4, bits);
  }

  lemma IdsRecorded(d: Dump, prot: uint64 -> Option<uint32>, bits: uint32)
    requires DumpOk(d, prot, bits)
    ensures d.ids == Ids(d.captured)
  {
    hide PayloadsFor, BuiltFrom, SegmentsFor, TargetOk, AllWalkable;
  }

  lemma MetadataNotEmpty(ids: seq<uint64>)
    ensures AsciiBytes(Print(Metadata(ids))) != []
  {
    PrintMetadata(ids);
  }

  /**
   The note about the main executable holds its UUID and slide, and the default without one; if it has a __TEXT
   segment, the slide is the one its segments were moved by.
   */
  lemma MainExecutableIsInFile(file: seq<byte>, d: Dump, prot: uint64 -> Option<uint32>, bits: uint32)
    requires DumpFile(file, d, prot, bits)
    ensures AllOk(d.modules) && InFile(file, d.notes[2].cmd.offset, MAIN_BIN_SPEC_SIZE)
    ensures IsSpec(DecodeMainBinSpec(file, d.notes[2].cmd.offset), d.modules)
    ensures forall k :: 0 <= k < |d.modules| && FirstMain(d.modules, k) ==>
              var cs := ImageCommands(d.modules[k].headerAndLoadCommands);
              FirstText(cs).Some? ==>
                DecodeMainBinSpec(file, d.notes[2].cmd.offset).slide
                == SegmentSlide(SegmentsOf(cs), d.modules[k].loadAddress)
    ensures TellsMain(DecodeMainBinSpec(file, d.notes[2].cmd.offset), d.modules)
  {
    hide DumpOk, DumpFits, DumpWrites, NotePayload, MainCount, FirstMain, EncodeMainBinSpec, DecodeMainBinSpec, HoldsAt,
         TellsMain, IsMainExecutable, ImageCommands, IsSpec;
    var spec := SpecInFile(file, d, prot, bits);
    MainBinSpecRoundTrip(spec, file, d.notes[2].cmd.offset);
    SpecSlides(d.modules, spec);
    SpecTells(d.modules, spec);
  }

  /** The specification whose bytes the third note holds. */
  lemma SpecInFile(file: seq<byte>, d: Dump, prot: uint64 -> Option<uint32>, bits: uint32) returns (spec: MainBinSpec)
    requires DumpFile(file, d, prot, bits)
    ensures AllOk(d.modules) && IsSpec(spec, d.modules)
    ensures |d.notes| == 4 && InFile(file, d.notes[2].cmd.offset, 48)
    ensures HoldsAt(file, d.notes[2].cmd.offset, EncodeMainBinSpec(spec))
  {
    FileNote(d, prot, bits);
    hide Recorded, SegmentsFor, AllWritable, BuiltFrom, DumpFits, DumpWrites, NotePayload, Payload, Images, IsSpec, AllOk,
         EncodeMainBinSpec, Print, Metadata, AsciiBytes;
    NoteHeld(file, d, prot, bits, 2);
    spec :| IsSpec(spec, d.modules) && d.payloads.mainBinSpec == EncodeMainBinSpec(spec);
  }

  lemma SpecSlides(modules: seq<ModuleInfo>, spec: MainBinSpec)
    requires AllOk(modules) && IsSpec(spec, modules)
    ensures forall k :: 0 <= k < |modules| && FirstMain(modules, k) ==>
              var cs := ImageCommands(modules[k].headerAndLoadCommands);
              FirstText(cs).Some? ==> spec.slide == SegmentSlide(SegmentsOf(cs), modules[k].loadAddress)
  {
    hide FirstMain, MainCount, ImageCommands;
    forall k | 0 <= k < |modules| && FirstMain(modules, k)
      ensures var cs := ImageCommands(modules[k].headerAndLoadCommands);
              FirstText(cs).Some? ==> SpecOf(modules[k]).slide == SegmentSlide(SegmentsOf(cs), modules[k].loadAddress)
    {
      SlidesAgreeIff(ImageCommands(modules[k].headerAndLoadCommands), modules[k].loadAddress);
    }
  }
}
