/** The finished file of a dump byte by byte: where each field lies and which number it holds. */
module DumpBytes {
  import opened Bytes
  import opened CStrings
  import opened MachO
  import opened DataAccess
  import opened Layout
  import opened CoreBuilder
  import opened ModuleImage
  import opened Modules
  import opened StackWalk
  import opened Threads
  import opened ImageInfos
  import opened ImageInfosReader
  import opened MainExecutable
  import opened ProcessMetadata
  import opened CoreReader
  import opened CoreFile
  import opened MiniDump
  import opened WriteDump
  import opened EndToEnd
  import IntervalSet

  // ---------------------------------------------------------------- header and commands

  /** 64-bit Mach-O, ARM64, a core file, so many commands in so many bytes. */
  predicate HeaderShows(file: seq<byte>, commands: nat, size: nat) {
    && InFile(file, 0, 32) && Field32(file, 0) == 0xFEED_FACF && Field32(file, 4) == 0x100_000C
    && Field32(file, 8) == 0 && Field32(file, 12) == 4 && Field32(file, 16) == commands && Field32(file, 20) == size
    && Field32(file, 24) == 0 && Field32(file, 28) == 0
  }

  /** A note command: its owner is filled up with zeros to 16 bytes. */
  predicate NoteShows(file: seq<byte>, at: nat, owner: seq<byte>, offset: nat, size: nat) {
    && InFile(file, at, 40) && Field32(file, at) == 0x31 && Field32(file, at + 4) == 40
    && |owner| <= 16 && Slice(file, at + 8, 16) == owner + seq(16 - |owner|, _ => 0)
    && Field64(file, at + 24) == offset && Field64(file, at + 32) == size
  }

  /** A thread command: both register sets, each behind its kind and its number of words. */
  predicate ThreadShows(file: seq<byte>, at: nat, gpr: seq<byte>, exc: seq<byte>) {
    && InFile(file, at, 312) && Field32(file, at) == 4 && Field32(file, at + 4) == 312
    && Field32(file, at + 8) == 6 && Field32(file, at + 12) == 68 && Slice(file, at + 16, 272) == gpr
    && Field32(file, at + 288) == 7 && Field32(file, at + 292) == 4 && Slice(file, at + 296, 16) == exc
  }

  /** A segment command without a name: the same size and protection twice, no sections and no flags. */
  predicate SegmentShows(file: seq<byte>, at: nat, vmaddr: nat, size: nat, fileoff: nat, prot: nat) {
    && InFile(file, at, 72) && Field32(file, at) == 0x19 && Field32(file, at + 4) == 72
    && Slice(file, at + 8, 16) == seq(16, _ => 0)
    && Field64(file, at + 24) == vmaddr && Field64(file, at + 32) == size
    && Field64(file, at + 40) == fileoff && Field64(file, at + 48) == size
    && Field32(file, at + 56) == prot && Field32(file, at + 60) == prot
    && Field32(file, at + 64) == 0 && Field32(file, at + 68) == 0
  }

  lemma HeaderHeld(file: seq<byte>, h: Header)
    requires HoldsAt(file, 0, EncodeHeader(h))
    requires h == Header(0xFEED_FACF, 0x100_000C, 0, 4, h.ncmds, h.sizeofcmds, 0, 0)
    ensures HeaderShows(file, h.ncmds, h.sizeofcmds)
  {
    hide Field32, EncodeHeader;
    HeaderRoundTrip(h, file, 0);
  }

  lemma NoteHeldHere(file: seq<byte>, at: nat, n: NoteCommand, owner: seq<byte>)
    requires HoldsAt(file, at, EncodeNote(n)) && IsName(owner) && n.owner == PadName(owner)
    ensures NoteShows(file, at, owner, n.offset, n.size)
  {
    hide Field32, Field64, EncodeNote;
    NoteRoundTrip(n, file, at);
  }

  lemma ThreadHeld(file: seq<byte>, at: nat, gpr: gpr_bytes, exc: exc_bytes)
    requires HoldsAt(file, at, EncodeThread(MakeState(gpr, exc)))
    ensures ThreadShows(file, at, gpr, exc)
  {
    hide Field32, LE32, MakeState;
    var s := MakeState(gpr, exc);
    var code := EncodeThread(s);
    StateParts(gpr, exc);
    assert Slice(code, 8, 304) == s;
    forall off: nat, w: nat | off + w <= 304 ensures Slice(code, 8 + off, w) == Slice(s, off, w) {
      SliceOfSlice(code, 8, 304, off, w);
    }
    Read32(file, at, 312, code, 0, 4);
    Read32(file, at, 312, code, 4, 312);
    Read32(file, at, 312, code, 8, 6);
    Read32(file, at, 312, code, 12, 68);
    Read32(file, at, 312, code, 288, 7);
    Read32(file, at, 312, code, 292, 4);
    SliceOfSlice(file, at, 312, 16, 272);
    SliceOfSlice(file, at, 312, 296, 16);
  }

  lemma SegmentHeld(file: seq<byte>, at: nat, c: SegmentCommand)
    requires HoldsAt(file, at, EncodeSegment(c)) && c.segname == Zeros(16) && c.filesize == c.vmsize
    requires c.maxprot == c.initprot && c.nsects == c.flags == 0
    ensures SegmentShows(file, at, c.vmaddr, c.vmsize, c.fileoff, c.maxprot)
  {
    hide Field32, Field64, EncodeSegment;
    SegmentRoundTrip(c, file, at);
  }

  /** The owner of note k. */
  function OwnerText(k: nat): string
    requires k < 4
  {
    ["addrable bits", "all image infos", "main bin spec", "process metadata"][k]
  }

  lemma OwnerIsText(k: nat)
    requires k < 4
    ensures Owner(k) == AsciiBytes(OwnerText(k))
  {
  }

  /**
   Header and commands of a dump with n threads and m segments: the four notes from byte 32 on, the threads from
   192 on, and the segments from 192 + 312n on, each with the address, size and protection of its interval.
   */
  lemma CommandBytes(file: seq<byte>, d: Dump, prot: uint64 -> Option<uint32>, bits: uint32)
    requires DumpFile(file, d, prot, bits)
    ensures |d.notes| == 4 && |d.segments| == |Protected(d.intervals, prot)|
    ensures var n, m := |d.captured|, |d.segments|; HeaderShows(file, 4 + n + m, 160 + 312 * n + 72 * m)
    ensures forall k :: 0 <= k < 4 ==>
              NoteShows(file, 32 + 40 * k, AsciiBytes(OwnerText(k)), d.notes[k].cmd.offset, d.notes[k].cmd.size)
    ensures forall i :: 0 <= i < |d.captured| ==>
              ThreadShows(file, 192 + 312 * i, d.captured[i].gpr, d.captured[i].exc)
    ensures forall i :: 0 <= i < |d.segments| ==>
              var iv := Protected(d.intervals, prot)[i];
              && prot(iv.start).Some?
              && SegmentShows(file, 192 + 312 * |d.captured| + 72 * i, iv.start, IntervalSet.LengthOf(iv),
                              d.segments[i].cmd.fileoff, prot(iv.start).value)
  {
    hide DumpOk, DumpFits, DumpWrites, Finished, HeaderShows, NoteShows, ThreadShows, SegmentShows, HoldsAt, Protected, States,
         NoteCodes, ThreadCodes, SegmentCodes, EncodeHeader, OwnerText, IntervalSet.LengthOf, AsciiBytes, Flatten;
    DumpIsFinished(file, d, prot, bits);
    CountsAgree(d, prot, bits);
    HeadInFile(file, d.header, d.notes, States(d.captured), d.segments);
    HeaderIs(file, d, prot, bits);
    HeaderHeld(file, d.header);
    forall k | 0 <= k < 4
      ensures NoteShows(file, 32 + 40 * k, AsciiBytes(OwnerText(k)), d.notes[k].cmd.offset, d.notes[k].cmd.size)
    {
      NoteCommandHeld(file, 32, d.notes, k);
      OwnerIs(d, prot, bits, k);
      OwnerIsText(k);
      NoteHeldHere(file, 32 + 40 * k, d.notes[k].cmd, Owner(k));
    }
    forall i | 0 <= i < |d.captured|
      ensures ThreadShows(file, 192 + 312 * i, d.captured[i].gpr, d.captured[i].exc)
    {
      ThreadCommandHeld(file, 192, States(d.captured), i);
      StateIs(d.captured, i);
      ThreadHeld(file, 192 + 312 * i, d.captured[i].gpr, d.captured[i].exc);
    }
    forall i | 0 <= i < |d.segments|
      ensures var iv := Protected(d.intervals, prot)[i];
              && prot(iv.start).Some?
              && SegmentShows(file, 192 + 312 * |d.captured| + 72 * i, iv.start, IntervalSet.LengthOf(iv),
                              d.segments[i].cmd.fileoff, prot(iv.start).value)
    {
      SegmentCommandHeld(file, 192 + 312 * |d.captured|, d.segments, i);
      SegmentIs(d, prot, bits, i);
      SegmentHeld(file, 192 + 312 * |d.captured| + 72 * i, d.segments[i].cmd);
    }
  }

  lemma HeaderIs(file: seq<byte>, d: Dump, prot: uint64 -> Option<uint32>, bits: uint32)
    requires DumpFile(file, d, prot, bits)
    ensures var n, m := |d.captured|, |d.segments|;
            d.header == Header(0xFEED_FACF, 0x100_000C, 0, 4, 4 + n + m, 160 + 312 * n + 72 * m, 0, 0)
  {
    hide DumpFits, DumpWrites, Recorded, PayloadsFor, SegmentsFor, AllWritable, PlacedNotes, PlacedSegments, NotesWith,
         FileWrites, NoteBase, SegmentBase, SegmentBase64, Placed;
    CountsAgree(d, prot, bits);
    DumpIsFinished(file, d, prot, bits);
  }

  lemma OwnerIs(d: Dump, prot: uint64 -> Option<uint32>, bits: uint32, k: nat)
    requires DumpOk(d, prot, bits) && k < 4
    ensures |d.notes| == 4 && d.notes[k].cmd.owner == PadName(Owner(k))
  {
    hide Recorded, PayloadsFor, SegmentsFor, AllWritable, PlacedSegments, NoteBase, Owner, PadName, IsName, SegmentBase64;
  }

  lemma StateIs(cs: seq<Captured>, i: nat)
    requires i < |cs|
    ensures States(cs)[i] == MakeState(cs[i].gpr, cs[i].exc)
  {
  }

  lemma SegmentIs(d: Dump, prot: uint64 -> Option<uint32>, bits: uint32, i: nat)
    requires DumpOk(d, prot, bits) && i < |d.segments|
    ensures |d.segments| == |Protected(d.intervals, prot)|
    ensures var iv := Protected(d.intervals, prot)[i];
            && prot(iv.start).Some?
            && d.segments[i].cmd == SegmentCommand(Zeros(16), iv.start, IntervalSet.LengthOf(iv), d.segments[i].cmd.fileoff,
                                                   IntervalSet.LengthOf(iv), prot(iv.start).value, prot(iv.start).value, 0, 0)
  {
    hide Recorded, PayloadsFor, NotesWith, PlacedNotes, SegmentBase64, NoteBase, AllWritable, IntervalSet.LengthOf;
    CountsAgree(d, prot, bits);
    assert SegmentFor(d.added[i], Protected(d.intervals, prot)[i], d.target.mem, prot);
    assert d.segments[i] == WithFileOffset(d.added[i], d.segments[i].cmd.fileoff);
  }

  // ---------------------------------------------------------------- where the payloads lie

  /**
   The first note payload lies at the next multiple of 16 behind the commands, each further one right behind the one
   before; the first segment payload at the next multiple of 4096, each further one right behind the one before.
   */
  lemma PayloadPlaces(file: seq<byte>, d: Dump, prot: uint64 -> Option<uint32>, bits: uint32)
    requires DumpFile(file, d, prot, bits)
    ensures |d.notes| == 4
    ensures var end, first := 192 + 312 * |d.captured| + 72 * |d.segments|, d.notes[0].cmd.offset;
            first % 16 == 0 && end <= first < end + 16
    ensures forall k :: 0 <= k < 3 ==> d.notes[k + 1].cmd.offset == d.notes[k].cmd.offset + d.notes[k].cmd.size
    ensures d.notes[0].cmd.size == 16 && d.notes[2].cmd.size == 48
    ensures d.segments != [] ==>
              var end, first := d.notes[3].cmd.offset + d.notes[3].cmd.size, d.segments[0].cmd.fileoff;
              first % 4096 == 0 && end <= first < end + 4096
    ensures forall i :: 0 <= i < |d.segments| - 1 ==>
              d.segments[i + 1].cmd.fileoff == d.segments[i].cmd.fileoff + d.segments[i].cmd.filesize
  {
    hide DumpOk, DumpFits, DumpWrites, Finished, States;
    DumpIsFinished(file, d, prot, bits);
    CountsAgree(d, prot, bits);
    HeaderIs(file, d, prot, bits);
    NoteSizes(d, prot, bits);
    FinishedIsAligned(file, d.header, d.notes, States(d.captured), d.segments);
  }

  lemma NoteSizes(d: Dump, prot: uint64 -> Option<uint32>, bits: uint32)
    requires DumpOk(d, prot, bits)
    ensures |d.notes| == 4 && d.notes[0].cmd.size == 16 && d.notes[2].cmd.size == 48
    ensures d.notes[1].cmd.size == |d.payloads.imageInfos| && d.notes[3].cmd.size == |d.payloads.metadata|
  {
    hide Recorded, PayloadsFor, SegmentsFor, AllWritable, PlacedSegments, NoteBase, Owner, PadName, IsName, SegmentBase64;
  }

  // ---------------------------------------------------------------- what the payloads hold

  /** Address bits: version 3, their number, and 8 bytes of nothing. */
  lemma AddrableBitsBytes(file: seq<byte>, d: Dump, prot: uint64 -> Option<uint32>, bits: uint32)
    requires DumpFile(file, d, prot, bits)
    ensures var at := d.notes[0].cmd.offset;
            && InFile(file, at, 16) && Field32(file, at) == 3 && Field32(file, at + 4) == bits && Field64(file, at + 8) == 0
  {
    hide DumpOk, DumpFits, DumpWrites, NotePayload, HoldsAt, Payload, AllOk, Print, Metadata, AsciiBytes, Field32, Field64,
         EncodeAddrableBits, Images;
    FileNote(d, prot, bits);
    PayloadFacts(d, prot, bits);
    NoteHeld(file, d, prot, bits, 0);
    BitsHeld(file, d.notes[0].cmd.offset, bits);
  }

  lemma BitsHeld(file: seq<byte>, at: nat, bits: uint32)
    requires HoldsAt(file, at, EncodeAddrableBits(bits))
    ensures InFile(file, at, 16) && Field32(file, at) == 3 && Field32(file, at + 4) == bits && Field64(file, at + 8) == 0
  {
    hide Field32, Field64, LE32, LE64;
    var code := EncodeAddrableBits(bits);
    Read32(file, at, 16, code, 0, 3);
    Read32(file, at, 16, code, 4, bits);
    Read64(file, at, 16, code, 8, 0);
  }

  /**
   Images of a process with one main executable: version 1, their number, where the entries start and how long one
   is; then one entry for each other module, and what its file offsets lead to.
   */
  lemma ImageBytes(file: seq<byte>, d: Dump, prot: uint64 -> Option<uint32>, bits: uint32, x: nat)
    requires DumpFile(file, d, prot, bits) && |d.modules| <= UINT32_MOD
    requires AllOk(d.modules) && OnlyMain(d.modules, x)
    ensures var at := d.notes[1].cmd.offset;
            && InFile(file, at, 24) && Field32(file, at) == 1 && Field32(file, at + 4) == |d.modules| - 1
            && Field64(file, at + 8) == at + 24 && Field32(file, at + 16) == 48
            && forall k :: 0 <= k < |d.modules| - 1 ==>
                 EntryShows(file, at + 24 + 48 * k, d.modules[if k < x then k else k + 1])
  {
    hide DumpOk, DumpFits, DumpWrites, NotePayload, HoldsAt, Images, MainCount, Payload, ModuleOk, OnlyMain, EntryShows,
         Field32, Field64;
    FileNote(d, prot, bits);
    PayloadFacts(d, prot, bits);
    PayloadNotEmpty(d.notes[1].cmd.offset, |d.modules| - 1, Images(d.modules));
    NoteHeld(file, d, prot, bits, 1);
    NoteEnds(d, prot, bits, 1);
    NoteShowsModules(file, d.notes[1].cmd.offset, d.modules, x);
  }

  /** The first executable: its UUID, and the distance from where its __TEXT prefers to be to where it is. */
  lemma MainExecutableBytes(file: seq<byte>, d: Dump, prot: uint64 -> Option<uint32>, bits: uint32, k: nat, text: nat)
    requires DumpFile(file, d, prot, bits) && AllOk(d.modules) && FirstExecutable(d.modules, k)
    requires FirstTextAt(ImageCommands(d.modules[k].headerAndLoadCommands), text)
    ensures var at := d.notes[2].cmd.offset;
            && InFile(file, at, 48) && SpecShows(file, at, Field64(file, at + 16), d.modules[k].uuid)
            && IsSlide(Field64(file, at + 16), d.modules[k], text)
  {
    hide DumpFile, FirstExecutable, FirstTextAt, IsSlide, ImageCommands, IsSpec, EncodeMainBinSpec, HoldsAt, Field32, Field64,
         ModuleOk;
    var spec := SpecInFile(file, d, prot, bits);
    SpecFields(d.modules, spec, k, text);
    SpecHeld(file, d.notes[2].cmd.offset, spec);
  }

  /** Thread ids: the text lists them in the order of the thread commands. */
  lemma MetadataBytes(file: seq<byte>, d: Dump, prot: uint64 -> Option<uint32>, bits: uint32)
    requires DumpFile(file, d, prot, bits)
    ensures var at, n := d.notes[3].cmd.offset, d.notes[3].cmd.size;
            InFile(file, at, n) && Slice(file, at, n) == AsciiBytes("{\"threads\":[" + Listing(d.ids) + "]}")
    ensures |d.ids| == |d.captured| && forall i :: 0 <= i < |d.ids| ==> d.ids[i] == d.captured[i].tid
  {
    hide DumpOk, DumpFits, DumpWrites, NotePayload, Payload, AllOk, Images, Print, Metadata, Listing, AsciiBytes,
         EncodeAddrableBits;
    FileNote(d, prot, bits);
    PayloadFacts(d, prot, bits);
    NoteSizes(d, prot, bits);
    MetadataNotEmpty(d.ids);
    NoteHeld(file, d, prot, bits, 3);
    MetadataText(d.ids);
    IdsRecorded(d, prot, bits);
  }
}
