/** What a reader finds in a finished core file: every command, every note payload and the selected memory. */
module CoreFile {
  import opened Bytes
  import opened MachO
  import opened DataAccess
  import opened Stream
  import opened Layout
  import opened CoreReader

  /** A finished file: header and entries agree with each other, and the writes of the layout made it. */
  ghost predicate Finished(file: seq<byte>, header: Header, notes: seq<NoteEntry>, threads: seq<thread_state>,
                           segments: seq<SegmentEntry>)
  {
    var base := NoteBase(header.sizeofcmds);
    && HeaderFor(header, |notes|, |threads|, |segments|)
    && Placed(base, SegmentBase(NoteOffset(base, notes, |notes|)), notes, segments)
    && file == Replay([], FileWrites(0, header, notes, threads, segments))
  }

  /** The writes one by one: the head, then the notes, then the segments. */
  lemma FileWriteAt(pos: nat, header: Header, notes: seq<NoteEntry>, threads: seq<thread_state>,
                    segments: seq<SegmentEntry>, j: nat)
    requires j < 1 + |notes| + |segments|
    ensures var ws := FileWrites(pos, header, notes, threads, segments);
            && |ws| == 1 + |notes| + |segments|
            && ws[j] == if j == 0 then Write(pos, Head(header, notes, threads, segments))
                        else if j <= |notes| then NoteWrite(notes[j - 1])
                        else SegmentWrite(segments[j - 1 - |notes|])
  {
    hide Head, NoteWrite, SegmentWrite;
  }

  lemma FinishedIsOrdered(file: seq<byte>, header: Header, notes: seq<NoteEntry>, threads: seq<thread_state>,
                          segments: seq<SegmentEntry>)
    requires Finished(file, header, notes, threads, segments)
    ensures Ordered(FileWrites(0, header, notes, threads, segments))
  {
    hide NoteBase, SegmentBase, Placed, Ordered, FileWrites;
    var base := NoteBase(header.sizeofcmds);
    LayoutIsOrdered(header, notes, threads, segments, base, SegmentBase(NoteOffset(base, notes, |notes|)));
  }

  /** Reading the header and walking its commands returns exactly what was added, in order. */
  lemma FinishedParses(file: seq<byte>, header: Header, notes: seq<NoteEntry>, threads: seq<thread_state>,
                       segments: seq<SegmentEntry>)
    requires Finished(file, header, notes, threads, segments)
    ensures ParseFile(file) == Some(Core(header, Commands(notes, threads, segments), HEADER_SIZE + header.sizeofcmds))
  {
    hide NoteBase, SegmentBase, Placed, Ordered, FileWrites, HeaderFor, NoteOffset, EncodeHeader, CommandCodes, ParseFile, Commands;
    FinishedIsOrdered(file, header, notes, threads, segments);
    var ws := FileWrites(0, header, notes, threads, segments);
    FileWriteAt(0, header, notes, threads, segments, 0);
    ReplayReadsBack([], ws, 0);
    ParseRoundTrip(file, header, notes, threads, segments);
  }

  /** Header and commands, one behind the other, at the start of the file. */
  lemma HeadInFile(file: seq<byte>, header: Header, notes: seq<NoteEntry>, threads: seq<thread_state>,
                   segments: seq<SegmentEntry>)
    requires Finished(file, header, notes, threads, segments)
    ensures HoldsAt(file, 0, EncodeHeader(header))
    ensures HoldsAt(file, 32, Flatten(NoteCodes(notes)))
    ensures HoldsAt(file, 32 + 40 * |notes|, Flatten(ThreadCodes(threads)))
    ensures HoldsAt(file, 32 + 40 * |notes| + 312 * |threads|, Flatten(SegmentCodes(segments)))
  {
    hide NoteBase, SegmentBase, Placed, Ordered, FileWrites, EncodeHeader, HoldsAt, NoteCodes, ThreadCodes, SegmentCodes,
         Flatten, HeaderFor, CommandCodes, NoteOffset;
    FinishedIsOrdered(file, header, notes, threads, segments);
    var ws := FileWrites(0, header, notes, threads, segments);
    FileWriteAt(0, header, notes, threads, segments, 0);
    ReplayReadsBack([], ws, 0);
    HeadHeld(file, header, notes, threads, segments);
    HoldsSplit(file, 0, EncodeHeader(header), Flatten(CommandCodes(notes, threads, segments)));
    CommandsHeld(file, notes, threads, segments);
  }

  lemma CommandsHeld(file: seq<byte>, notes: seq<NoteEntry>, threads: seq<thread_state>, segments: seq<SegmentEntry>)
    requires HoldsAt(file, 32, Flatten(CommandCodes(notes, threads, segments)))
    ensures HoldsAt(file, 32, Flatten(NoteCodes(notes)))
    ensures HoldsAt(file, 32 + 40 * |notes|, Flatten(ThreadCodes(threads)))
    ensures HoldsAt(file, 32 + 40 * |notes| + 312 * |threads|, Flatten(SegmentCodes(segments)))
  {
    hide HoldsAt, NoteCodes, ThreadCodes, SegmentCodes, Flatten;
    var n, t, s := NoteCodes(notes), ThreadCodes(threads), SegmentCodes(segments);
    CommandCodesSize(notes, threads, segments);
    FlattenConcat(n + t, s);
    FlattenConcat(n, t);
    HoldsSplit(file, 32, Flatten(n) + Flatten(t), Flatten(s));
    HoldsSplit(file, 32, Flatten(n), Flatten(t));
  }

  lemma HeadHeld(file: seq<byte>, header: Header, notes: seq<NoteEntry>, threads: seq<thread_state>,
                 segments: seq<SegmentEntry>)
    requires var head := Head(header, notes, threads, segments); InFile(file, 0, |head|) && Slice(file, 0, |head|) == head
    ensures HoldsAt(file, 0, EncodeHeader(header) + Flatten(CommandCodes(notes, threads, segments)))
  {
    hide EncodeHeader, CommandCodes;
  }

  /** Command i of its kind lies behind i commands of the same size. */
  lemma CommandHeld(file: seq<byte>, pos: nat, codes: seq<seq<byte>>, width: nat, i: nat)
    requires HoldsAt(file, pos, Flatten(codes)) && i < |codes|
    requires forall k :: 0 <= k < |codes| ==> |codes[k]| == width
    ensures HoldsAt(file, pos + width * i, codes[i])
  {
    hide HoldsAt;
    EqualWidths(codes[..i], width);
    HoldsPart(file, pos, codes, i);
  }

  lemma NoteCommandHeld(file: seq<byte>, pos: nat, notes: seq<NoteEntry>, i: nat)
    requires HoldsAt(file, pos, Flatten(NoteCodes(notes))) && i < |notes|
    ensures HoldsAt(file, pos + 40 * i, EncodeNote(notes[i].cmd))
  {
    hide HoldsAt, EncodeNote;
    CommandHeld(file, pos, NoteCodes(notes), 40, i);
  }

  lemma ThreadCommandHeld(file: seq<byte>, pos: nat, threads: seq<thread_state>, i: nat)
    requires HoldsAt(file, pos, Flatten(ThreadCodes(threads))) && i < |threads|
    ensures HoldsAt(file, pos + 312 * i, EncodeThread(threads[i]))
  {
    hide HoldsAt, EncodeThread;
    CommandHeld(file, pos, ThreadCodes(threads), 312, i);
  }

  lemma SegmentCommandHeld(file: seq<byte>, pos: nat, segments: seq<SegmentEntry>, i: nat)
    requires HoldsAt(file, pos, Flatten(SegmentCodes(segments))) && i < |segments|
    ensures HoldsAt(file, pos + 72 * i, EncodeSegment(segments[i].cmd))
  {
    hide HoldsAt, EncodeSegment;
    CommandHeld(file, pos, SegmentCodes(segments), 72, i);
  }

  /** Every note payload lies where its command says. */
  lemma NoteInFile(file: seq<byte>, header: Header, notes: seq<NoteEntry>, threads: seq<thread_state>,
                   segments: seq<SegmentEntry>, i: nat)
    requires Finished(file, header, notes, threads, segments)
    requires i < |notes| && NotePayload(notes[i]) != []
    ensures HoldsAt(file, notes[i].cmd.offset, NotePayload(notes[i]))
  {
    hide NoteBase, SegmentBase, Placed, Ordered, FileWrites, HeaderFor, NoteOffset, NotePayload;
    FinishedIsOrdered(file, header, notes, threads, segments);
    var ws := FileWrites(0, header, notes, threads, segments);
    FileWriteAt(0, header, notes, threads, segments, i + 1);
    ReplayReadsBack([], ws, i + 1);
  }

  lemma SegmentInFile(file: seq<byte>, header: Header, notes: seq<NoteEntry>, threads: seq<thread_state>,
                      segments: seq<SegmentEntry>, i: nat)
    requires Finished(file, header, notes, threads, segments)
    requires i < |segments| && SegmentPayload(segments[i]) != []
    ensures HoldsAt(file, segments[i].cmd.fileoff, SegmentPayload(segments[i]))
  {
    hide NoteBase, SegmentBase, Placed, Ordered, FileWrites, HeaderFor, NoteOffset, SegmentPayload;
    FinishedIsOrdered(file, header, notes, threads, segments);
    var ws := FileWrites(0, header, notes, threads, segments);
    FileWriteAt(0, header, notes, threads, segments, i + 1 + |notes|);
    ReplayReadsBack([], ws, i + 1 + |notes|);
  }

  /** Between the end of what a segment's payload holds and the next payload nothing is written. */
  lemma NoWriteBehind(header: Header, notes: seq<NoteEntry>, threads: seq<thread_state>, segments: seq<SegmentEntry>,
                      i: nat, k: nat, j: nat)
    requires HeaderFor(header, |notes|, |threads|, |segments|)
    requires var base := NoteBase(header.sizeofcmds);
             Placed(base, SegmentBase(NoteOffset(base, notes, |notes|)), notes, segments)
    requires i < |segments| && |SegmentPayload(segments[i])| <= k < segments[i].cmd.filesize
    requires j < 1 + |notes| + |segments| == |FileWrites(0, header, notes, threads, segments)|
    ensures !InWrite(FileWrites(0, header, notes, threads, segments)[j], segments[i].cmd.fileoff + k)
  {
    hide NoteBase, SegmentBase, FileWrites, Head, NoteWrite, SegmentWrite, Placed, SegmentPayload;
    var base := NoteBase(header.sizeofcmds);
    var segmentBase := SegmentBase(NoteOffset(base, notes, |notes|));
    RoundUpIsLeastHere(header.sizeofcmds, NoteOffset(base, notes, |notes|));
    FileWriteAt(0, header, notes, threads, segments, j);
    PlacedAt(base, segmentBase, notes, segments, i);
    if j == 0 {
      HeadSize(header, notes, threads, segments);
    } else if j <= |notes| {
      NotInNote(base, segmentBase, notes, segments, j - 1, segments[i].cmd.fileoff + k);
    } else {
      NotInSegment(base, segmentBase, notes, segments, i, j - 1 - |notes|, k);
    }
  }

  lemma PlacedAt(base: nat, segmentBase: nat, notes: seq<NoteEntry>, segments: seq<SegmentEntry>, i: nat)
    requires Placed(base, segmentBase, notes, segments) && i < |segments|
    ensures segmentBase <= segments[i].cmd.fileoff && base <= NoteOffset(base, notes, |notes|)
  {
  }

  lemma NotInNote(base: nat, segmentBase: nat, notes: seq<NoteEntry>, segments: seq<SegmentEntry>, l: nat, x: nat)
    requires Placed(base, segmentBase, notes, segments) && l < |notes| && x >= NoteOffset(base, notes, |notes|)
    ensures !InWrite(NoteWrite(notes[l]), x)
  {
    hide NotePayload, SegmentPayload;
    NoteSumMonotone(notes, l, |notes|);
  }

  lemma NotInSegment(base: nat, segmentBase: nat, notes: seq<NoteEntry>, segments: seq<SegmentEntry>,
                     i: nat, l: nat, k: nat)
    requires Placed(base, segmentBase, notes, segments) && i < |segments| && l < |segments|
    requires |SegmentPayload(segments[i])| <= k < segments[i].cmd.filesize
    ensures !InWrite(SegmentWrite(segments[l]), segments[i].cmd.fileoff + k)
  {
    hide NotePayload, SegmentPayload;
    if l < i {
      SegmentSumMonotone(segments, l, i);
    } else {
      SegmentSumMonotone(segments, i, l);
    }
  }

  lemma RoundUpIsLeastHere(sizeofcmds: nat, notesEnd: nat)
    ensures HEADER_SIZE + sizeofcmds <= NoteBase(sizeofcmds) && notesEnd <= SegmentBase(notesEnd)
  {
    RoundUpIsLeast(HEADER_SIZE + sizeofcmds);
    RoundUpIsLeast(notesEnd);
  }

  lemma HeadSize(header: Header, notes: seq<NoteEntry>, threads: seq<thread_state>, segments: seq<SegmentEntry>)
    requires HeaderFor(header, |notes|, |threads|, |segments|)
    ensures |Head(header, notes, threads, segments)| == HEADER_SIZE + header.sizeofcmds
  {
    CommandCodesSize(notes, threads, segments);
  }

  /** What could not be read of a segment reads as zeros, as far as the file reaches. */
  lemma UnreadIsZero(file: seq<byte>, header: Header, notes: seq<NoteEntry>, threads: seq<thread_state>,
                     segments: seq<SegmentEntry>, i: nat, k: nat)
    requires Finished(file, header, notes, threads, segments)
    requires i < |segments| && |SegmentPayload(segments[i])| <= k < segments[i].cmd.filesize
    requires segments[i].cmd.fileoff + k < |file|
    ensures file[segments[i].cmd.fileoff + k] == 0
  {
    hide NoteBase, SegmentBase, Placed, FileWrites, SegmentPayload;
    var ws := FileWrites(0, header, notes, threads, segments);
    FileWriteAt(0, header, notes, threads, segments, 0);
    forall j | 0 <= j < |ws| ensures !InWrite(ws[j], segments[i].cmd.fileoff + k) {
      NoWriteBehind(header, notes, threads, segments, i, k, j);
    }
    ReplayHoles(ws, segments[i].cmd.fileoff + k);
  }

  // ---------------------------------------------------------------- the selected memory

  /** The segment is filled from process memory at its own address. */
  predicate FromMemory(e: SegmentEntry, mem: Memory) {
    && e.data.Some? && e.data.value.Valid() && e.data.value.size == e.cmd.filesize == e.cmd.vmsize
    && e.data.value.size > 0
    && e.data.value.ptr.ProcessMemory?
    && e.data.value.ptr.reader.mem == mem && e.data.value.ptr.reader.startAddress == e.cmd.vmaddr
  }

  /** How many bytes of a segment the file holds. */
  function Written(e: SegmentEntry): nat {
    |SegmentPayload(e)|
  }

  lemma AvailableIsReadable(e: SegmentEntry, mem: Memory, offset: nat, n: nat)
    requires FromMemory(e, mem) && offset + n <= e.cmd.vmsize
    ensures e.data.value.Available(offset, n) <==> Readable(mem, e.cmd.vmaddr + offset, n)
  {
    var p, base := e.data.value, e.cmd.vmaddr + offset;
    if p.Available(offset, n) {
      forall a | base <= a < base + n ensures a in mem {
        assert p.At(a - e.cmd.vmaddr).Some?;
      }
    }
    if Readable(mem, base, n) {
      forall k | offset <= k < offset + n ensures p.At(k).Some? {
        assert e.cmd.vmaddr + k in mem;
      }
    }
  }

  /** The payload of a segment is a prefix of its memory, and all of it exactly when all of it can be read. */
  lemma PayloadIsMemory(e: SegmentEntry, mem: Memory, k: nat)
    requires FromMemory(e, mem) && SegmentBytes(e.data.value).Some?
    ensures Written(e) <= e.cmd.vmsize
    ensures Written(e) == e.cmd.vmsize <==> Readable(mem, e.cmd.vmaddr, e.cmd.vmsize)
    ensures k < Written(e) ==> Loaded(mem, e.cmd.vmaddr + k) == Some(SegmentPayload(e)[k])
  {
    SegmentBytesArePrefix(e.data.value);
    AvailableIsReadable(e, mem, 0, e.cmd.vmsize);
    hide SegmentBytes, DataProvider.Available, Readable;
    assert k < Written(e) ==> e.data.value.At(0 + k) == Some(SegmentPayload(e)[k]);
  }

  /**
   How many: memory is read in chunks of 4 MiB, or in one piece if there is less. If k chunks can be read and the next
   one cannot (or there is none), there are these and as many bytes as the size exceeds a whole number of chunks.
   */
  lemma WrittenAmount(e: SegmentEntry, mem: Memory, k: nat)
    requires FromMemory(e, mem) && SegmentBytes(e.data.value).Some?
    requires var c := if e.cmd.vmsize < 4194304 then e.cmd.vmsize else 4194304;
             && k <= e.cmd.vmsize / c && (forall i :: 0 <= i < k ==> Readable(mem, e.cmd.vmaddr + i * c, c))
             && (k < e.cmd.vmsize / c ==> !Readable(mem, e.cmd.vmaddr + k * c, c))
    ensures var c := if e.cmd.vmsize < 4194304 then e.cmd.vmsize else 4194304;
            Written(e) == k * c + e.cmd.vmsize % c
  {
    hide SegmentBytes, Readable, DataProvider.Available;
    var c, n := if e.cmd.vmsize < 4194304 then e.cmd.vmsize else 4194304, e.cmd.vmsize;
    forall i: nat | i < n / c ensures e.data.value.Available(i * c, c) <==> Readable(mem, e.cmd.vmaddr + i * c, c) {
      ChunkInside(n, c, i);
      AvailableIsReadable(e, mem, i * c, c);
    }
    SegmentBytesSize(e.data.value, k);
  }

  lemma ChunkInside(n: nat, c: nat, i: nat)
    requires c > 0 && i < n / c
    ensures i * c + c <= n
  {
    assert n / c * c <= n;
    assert (i + 1) * c <= n / c * c;
  }

  /** The file byte for an address of a segment. */
  function FilePosition(s: SegmentCommand, a: nat): nat
    requires s.vmaddr <= a
  {
    s.fileoff + (a - s.vmaddr)
  }

  predicate ContainsAddress(s: SegmentCommand, a: nat) {
    s.vmaddr <= a < s.vmaddr + s.vmsize
  }

  lemma HeldByte(file: seq<byte>, pos: nat, bytes: seq<byte>, k: nat)
    requires HoldsAt(file, pos, bytes) && k < |bytes|
    ensures pos + k < |file| && file[pos + k] == bytes[k]
  {
    assert Slice(file, pos, |bytes|)[k] == file[pos + k];
  }

  lemma ByteInFile(file: seq<byte>, header: Header, notes: seq<NoteEntry>, threads: seq<thread_state>,
                   segments: seq<SegmentEntry>, mem: Memory, i: nat, k: nat)
    requires Finished(file, header, notes, threads, segments)
    requires i < |segments| && FromMemory(segments[i], mem) && SegmentBytes(segments[i].data.value).Some?
    requires k < Written(segments[i])
    ensures segments[i].cmd.fileoff + k < |file|
    ensures Loaded(mem, segments[i].cmd.vmaddr + k) == Some(file[segments[i].cmd.fileoff + k])
  {
    hide Finished, SegmentBytes, SegmentPayload, HoldsAt, FromMemory, Readable, Loaded, Written;
    PayloadIsMemory(segments[i], mem, k);
    WrittenIs(segments[i]);
    SegmentInFile(file, header, notes, threads, segments, i);
    HeldByte(file, segments[i].cmd.fileoff, SegmentPayload(segments[i]), k);
  }

  /** Reading an address through its segment command gives the byte the process had there. */
  lemma MemoryInFile(file: seq<byte>, header: Header, notes: seq<NoteEntry>, threads: seq<thread_state>,
                     segments: seq<SegmentEntry>, mem: Memory, i: nat, a: nat)
    requires Finished(file, header, notes, threads, segments)
    requires i < |segments| && FromMemory(segments[i], mem) && SegmentBytes(segments[i].data.value).Some?
    requires ContainsAddress(segments[i].cmd, a)
    ensures var at, k := FilePosition(segments[i].cmd, a), a - segments[i].cmd.vmaddr;
            && (k < Written(segments[i]) ==> at < |file| && Loaded(mem, a) == Some(file[at]))
            && (k >= Written(segments[i]) && at < |file| ==> file[at] == 0)
    ensures Written(segments[i]) == segments[i].cmd.vmsize
            <==> Readable(mem, segments[i].cmd.vmaddr, segments[i].cmd.vmsize)
  {
    hide Finished, SegmentBytes, SegmentPayload, Written, Readable, FromMemory, Loaded;
    var k := a - segments[i].cmd.vmaddr;
    PayloadIsMemory(segments[i], mem, k);
    SizesAgree(segments[i], mem);
    if k < Written(segments[i]) {
      ByteInFile(file, header, notes, threads, segments, mem, i, k);
    } else if FilePosition(segments[i].cmd, a) < |file| {
      WrittenIs(segments[i]);
      UnreadIsZero(file, header, notes, threads, segments, i, k);
    }
  }

  lemma SizesAgree(e: SegmentEntry, mem: Memory)
    requires FromMemory(e, mem)
    ensures e.cmd.filesize == e.cmd.vmsize
  {
  }

  lemma WrittenIs(e: SegmentEntry)
    ensures Written(e) == |SegmentPayload(e)|
  {
  }

  // ---------------------------------------------------------------- reading memory through the commands

  predicate SegmentAt(c: Command, a: nat) {
    c.Segment? && ContainsAddress(c.segment, a)
  }

  /** The last segment command that contains the address. */
  function LookupSegment(cs: seq<Command>, a: nat): (r: Option<SegmentCommand>)
    ensures r.Some? ==> ContainsAddress(r.value, a)
  {
    if cs == [] then None
    else
      var last := cs[|cs| - 1];
      if SegmentAt(last, a) then Some(last.segment) else LookupSegment(cs[..|cs| - 1], a)
  }

  /** The byte at the file position of an address. */
  function ReadThrough(file: seq<byte>, s: SegmentCommand, a: nat): Option<byte>
    requires ContainsAddress(s, a)
  {
    if FilePosition(s, a) < |file| then Some(file[FilePosition(s, a)]) else None
  }

  /** The byte a reader of the file finds for an address of the process. */
  function ReadMemory(file: seq<byte>, cs: seq<Command>, a: nat): Option<byte> {
    match LookupSegment(cs, a)
    case None => None
    case Some(s) => ReadThrough(file, s, a)
  }

  /** Exactly one command is a segment that contains the address. */
  predicate OnlySegmentAt(cs: seq<Command>, j: nat, a: nat) {
    j < |cs| && SegmentAt(cs[j], a) && forall l :: 0 <= l < |cs| && l != j ==> !SegmentAt(cs[l], a)
  }

  lemma {:induction false} LookupOnly(cs: seq<Command>, j: nat, a: nat)
    requires OnlySegmentAt(cs, j, a)
    ensures LookupSegment(cs, a) == Some(cs[j].segment)
  {
    if j < |cs| - 1 {
      assert !SegmentAt(cs[|cs| - 1], a);
      LookupOnly(cs[..|cs| - 1], j, a);
    }
  }

  lemma {:induction false} LookupNothing(cs: seq<Command>, a: nat)
    requires forall l :: 0 <= l < |cs| ==> !SegmentAt(cs[l], a)
    ensures LookupSegment(cs, a) == None
  {
    if cs != [] {
      LookupNothing(cs[..|cs| - 1], a);
    }
  }

  // ---------------------------------------------------------------- when a file can be read at all

  /** The payloads start behind the commands exactly when the commands stay below 4 GiB. */
  lemma SizeFieldExactIff(header: Header, notes: nat, threads: nat, segments: nat)
    requires header.sizeofcmds == CommandsSize(notes, threads, segments) % UINT32_MOD
    ensures HEADER_SIZE + CommandsSize(notes, threads, segments) <= NoteBase(header.sizeofcmds)
            <==> CommandsSize(notes, threads, segments) < UINT32_MOD
  {
    hide CommandsSize;
    var size := CommandsSize(notes, threads, segments);
    CutSize(size);
    RoundUpIsLeast(HEADER_SIZE + header.sizeofcmds);
  }

  lemma CutSize(size: nat)
    ensures size < UINT32_MOD ==> size % UINT32_MOD == size
    ensures size >= UINT32_MOD ==> size % UINT32_MOD + UINT32_MOD <= size
  {
  }

  /**
   From 4 GiB on the first note payload replaces commands: in the finished file it starts inside of what was
   written as header and commands, and is there in full.
   */
  lemma PayloadOverCommands(file: seq<byte>, header: Header, notes: seq<NoteEntry>, threads: seq<thread_state>,
                            segments: seq<SegmentEntry>)
    requires header.sizeofcmds == CommandsSize(|notes|, |threads|, |segments|) % UINT32_MOD
    requires CommandsSize(|notes|, |threads|, |segments|) >= UINT32_MOD
    requires var base := NoteBase(header.sizeofcmds);
             Placed(base, SegmentBase(NoteOffset(base, notes, |notes|)), notes, segments)
    requires file == Replay([], FileWrites(0, header, notes, threads, segments))
    requires notes != [] && NotePayload(notes[0]) != []
    ensures HEADER_SIZE <= notes[0].cmd.offset < |Head(header, notes, threads, segments)|
    ensures HoldsAt(file, notes[0].cmd.offset, NotePayload(notes[0]))
  {
    hide NoteBase, SegmentBase, Placed, Head, CommandsSize, FileWrites;
    var base := NoteBase(header.sizeofcmds);
    CommandCodesSize(notes, threads, segments);
    HeadLength(header, notes, threads, segments);
    SizeFieldExactIff(header, |notes|, |threads|, |segments|);
    RoundUpIsLeastHere(header.sizeofcmds, NoteOffset(base, notes, |notes|));
    FirstNoteAt(base, SegmentBase(NoteOffset(base, notes, |notes|)), notes, segments);
    PayloadWritesRead(header, notes, threads, segments, base, SegmentBase(NoteOffset(base, notes, |notes|)));
  }

  lemma HeadLength(header: Header, notes: seq<NoteEntry>, threads: seq<thread_state>, segments: seq<SegmentEntry>)
    ensures |Head(header, notes, threads, segments)| == HEADER_SIZE + CommandsSize(|notes|, |threads|, |segments|)
  {
    hide EncodeHeader, CommandCodes;
    CommandCodesSize(notes, threads, segments);
  }

  lemma FirstNoteAt(base: nat, segmentBase: nat, notes: seq<NoteEntry>, segments: seq<SegmentEntry>)
    requires Placed(base, segmentBase, notes, segments) && notes != []
    ensures notes[0].cmd.offset == base
  {
  }

  /**
   Where everything lies in a finished file: the first note payload at a multiple of 16 right behind the
   commands, each further one right behind the one before; the first segment payload at a multiple of 4096
   right behind the last note, and each further one right behind the one before.
   */
  lemma FinishedIsAligned(file: seq<byte>, header: Header, notes: seq<NoteEntry>, threads: seq<thread_state>,
                          segments: seq<SegmentEntry>)
    requires Finished(file, header, notes, threads, segments) && notes != []
    ensures notes[0].cmd.offset % 16 == 0
            && 32 + header.sizeofcmds <= notes[0].cmd.offset < 32 + header.sizeofcmds + 16
    ensures forall i :: 0 <= i < |notes| - 1 ==> notes[i + 1].cmd.offset == notes[i].cmd.offset + notes[i].cmd.size
    ensures segments != [] ==>
              var last := notes[|notes| - 1].cmd;
              var end := last.offset + last.size;
              segments[0].cmd.fileoff % 4096 == 0 && end <= segments[0].cmd.fileoff < end + 4096
    ensures forall i :: 0 <= i < |segments| - 1 ==>
              segments[i + 1].cmd.fileoff == segments[i].cmd.fileoff + segments[i].cmd.filesize
  {
    hide FileWrites, HeaderFor, NoteOffset, Placed, RoundUp;
    var base := NoteBase(header.sizeofcmds);
    var end := NoteOffset(base, notes, |notes|);
    RoundUpIsLeast(32 + header.sizeofcmds);
    RoundUpIsLeast(end);
    NotesPlaced(base, SegmentBase(end), notes, segments);
    SegmentsPlaced(base, SegmentBase(end), notes, segments);
  }

  lemma NotesPlaced(base: nat, segmentBase: nat, notes: seq<NoteEntry>, segments: seq<SegmentEntry>)
    requires Placed(base, segmentBase, notes, segments) && notes != []
    ensures notes[0].cmd.offset == base
    ensures forall i :: 0 <= i < |notes| - 1 ==> notes[i + 1].cmd.offset == notes[i].cmd.offset + notes[i].cmd.size
    ensures NoteOffset(base, notes, |notes|) == notes[|notes| - 1].cmd.offset + notes[|notes| - 1].cmd.size
  {
    hide NotePayload, SegmentPayload;
    assert NoteSum(notes, 0) == 0;
    assert NoteSum(notes, |notes|) == NoteSum(notes, |notes| - 1) + notes[|notes| - 1].cmd.size;
    forall i | 0 <= i < |notes| - 1 ensures notes[i + 1].cmd.offset == notes[i].cmd.offset + notes[i].cmd.size {
      assert NoteSum(notes, i + 1) == NoteSum(notes, i) + notes[i].cmd.size;
    }
  }

  lemma SegmentsPlaced(base: nat, segmentBase: nat, notes: seq<NoteEntry>, segments: seq<SegmentEntry>)
    requires Placed(base, segmentBase, notes, segments)
    ensures segments != [] ==> segments[0].cmd.fileoff == segmentBase
    ensures forall i :: 0 <= i < |segments| - 1 ==>
              segments[i + 1].cmd.fileoff == segments[i].cmd.fileoff + segments[i].cmd.filesize
  {
    hide NotePayload, SegmentPayload;
    assert SegmentSum(segments, 0) == 0;
    forall i | 0 <= i < |segments| - 1
      ensures segments[i + 1].cmd.fileoff == segments[i].cmd.fileoff + segments[i].cmd.filesize
    {
      assert SegmentSum(segments, i + 1) == SegmentSum(segments, i) + segments[i].cmd.filesize;
    }
  }

  /** Whatever the head covers, the payloads that are written after it do not cover one another. */
  lemma PayloadWritesRead(header: Header, notes: seq<NoteEntry>, threads: seq<thread_state>, segments: seq<SegmentEntry>,
                          base: nat, segmentBase: nat)
    requires Placed(base, segmentBase, notes, segments) && NoteOffset(base, notes, |notes|) <= segmentBase
    requires notes != [] && NotePayload(notes[0]) != []
    ensures HoldsAt(Replay([], FileWrites(0, header, notes, threads, segments)), notes[0].cmd.offset, NotePayload(notes[0]))
  {
    hide Placed, Head, NotePayload, Ordered, Within;
    var head, payloads := Write(0, Head(header, notes, threads, segments)), NoteWrites(notes) + SegmentWrites(segments);
    NoteWritesOrdered(base, segmentBase, notes, segments);
    SegmentWritesOrdered(base, segmentBase, notes, segments);
    WithinWider(NoteWrites(notes), base, NoteOffset(base, notes, |notes|), segmentBase);
    BasesOrdered(base, segmentBase, notes, segments);
    OrderedConcat(NoteWrites(notes), SegmentWrites(segments), base, segmentBase,
                  SegmentOffset(segmentBase, segments, |segments|));
    assert FileWrites(0, header, notes, threads, segments) == [head] + payloads;
    ReplayConcat([], [head], payloads);
    ReplayReadsBack(Replay([], [head]), payloads, 0);
  }

  lemma WithinWider(ws: seq<Write>, lo: nat, hi: nat, more: nat)
    requires Within(ws, lo, hi) && hi <= more
    ensures Within(ws, lo, more)
  {
  }

  lemma BasesOrdered(base: nat, segmentBase: nat, notes: seq<NoteEntry>, segments: seq<SegmentEntry>)
    requires NoteOffset(base, notes, |notes|) <= segmentBase
    ensures base <= segmentBase <= SegmentOffset(segmentBase, segments, |segments|)
  {
  }

  lemma LowByte(file: seq<byte>)
    requires InFile(file, 0, 4)
    ensures Field32(file, 0) % 256 == file[0]
  {
    var s := Slice(file, 0, 4);
    assert Decode(s) == s[0] + 256 * Decode(s[1..]);
  }

  lemma MagicNeedsFirstByte(file: seq<byte>)
    requires ParseFile(file).Some?
    ensures |file| > 0 && file[0] != 0
  {
    hide Walk, Decode;
    LowByte(file);
    assert Field32(file, 0) == MH_MAGIC_64 || Field32(file, 0) == MH_CIGAM_64;
  }

  /**
   A build on an emptied stream starts at whatever position the stream has kept. The reader accepts the
   file exactly when that position is 0: otherwise its first byte is a hole.
   */
  lemma ReadableIffFromStart(pos: nat, header: Header, notes: seq<NoteEntry>, threads: seq<thread_state>,
                             segments: seq<SegmentEntry>)
    requires HeaderFor(header, |notes|, |threads|, |segments|)
    requires var base := NoteBase(header.sizeofcmds);
             Placed(base, SegmentBase(NoteOffset(base, notes, |notes|)), notes, segments)
    ensures ParseFile(Replay([], FileWrites(pos, header, notes, threads, segments))).Some? <==> pos == 0
  {
    hide NoteBase, SegmentBase, FileWrites, ParseFile, Placed;
    FileWriteAt(pos, header, notes, threads, segments, 0);
    var ws := FileWrites(pos, header, notes, threads, segments);
    var file := Replay([], ws);
    if pos == 0 {
      FinishedParses(file, header, notes, threads, segments);
    } else if ParseFile(file).Some? {
      MagicNeedsFirstByte(file);
      forall j | 0 <= j < |ws| ensures !InWrite(ws[j], 0) {
        NothingAtStart(pos, header, notes, threads, segments, j);
      }
      ReplayHoles(ws, 0);
    }
  }

  lemma NothingAtStart(pos: nat, header: Header, notes: seq<NoteEntry>, threads: seq<thread_state>,
                       segments: seq<SegmentEntry>, j: nat)
    requires pos > 0 && j < 1 + |notes| + |segments| == |FileWrites(pos, header, notes, threads, segments)|
    requires var base := NoteBase(header.sizeofcmds);
             Placed(base, SegmentBase(NoteOffset(base, notes, |notes|)), notes, segments)
    ensures !InWrite(FileWrites(pos, header, notes, threads, segments)[j], 0)
  {
    hide NoteBase, SegmentBase, FileWrites, NotePayload, SegmentPayload, Head;
    var base := NoteBase(header.sizeofcmds);
    RoundUpIsLeastHere(header.sizeofcmds, NoteOffset(base, notes, |notes|));
    FileWriteAt(pos, header, notes, threads, segments, j);
  }
}
