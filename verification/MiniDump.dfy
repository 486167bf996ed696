/** The dump as a whole: threads, notes, payloads, and the file. */
module MiniDump {
  import opened Bytes
  import opened CStrings
  import opened MachO
  import opened DataAccess
  import opened Stream
  import opened Layout
  import opened CoreBuilder
  import opened ModuleImage
  import opened Modules
  import opened ImageInfos
  import opened MainExecutable
  import opened ProcessMetadata

  // ---------------------------------------------------------------- the four notes

  const ADDRABLE_BITS_OWNER: seq<byte> :=
    [0x61, 0x64, 0x64, 0x72, 0x61, 0x62, 0x6c, 0x65, 0x20, 0x62, 0x69, 0x74, 0x73]                    // addrable bits
  const ALL_IMAGE_INFOS_OWNER: seq<byte> :=
    [0x61, 0x6c, 0x6c, 0x20, 0x69, 0x6d, 0x61, 0x67, 0x65, 0x20, 0x69, 0x6e, 0x66, 0x6f, 0x73]        // all image infos
  const MAIN_BIN_SPEC_OWNER: seq<byte> :=
    [0x6d, 0x61, 0x69, 0x6e, 0x20, 0x62, 0x69, 0x6e, 0x20, 0x73, 0x70, 0x65, 0x63]                    // main bin spec
  const PROCESS_METADATA_OWNER: seq<byte> :=
    [0x70, 0x72, 0x6f, 0x63, 0x65, 0x73, 0x73, 0x20, 0x6d, 0x65, 0x74, 0x61, 0x64, 0x61, 0x74, 0x61]  // process metadata

  function Owner(k: nat): (s: seq<byte>)
    requires k < 4
    ensures IsName(s)
  {
    if k == 0 then ADDRABLE_BITS_OWNER
    else if k == 1 then ALL_IMAGE_INFOS_OWNER
    else if k == 2 then MAIN_BIN_SPEC_OWNER
    else PROCESS_METADATA_OWNER
  }

  function NoteFor(k: nat, data: Option<DataProvider>): NoteEntry
    requires k < 4
  {
    NoteEntry(NoteCommand(PadName(Owner(k)), 0, if data.Some? then data.value.size else 0), data)
  }

  /** The notes in the order in which they are added, with the data attached so far. */
  function FourNotes(data: seq<Option<DataProvider>>): (r: seq<NoteEntry>)
    requires |data| == 4
    ensures |r| == 4
  {
    seq(4, k requires 0 <= k < 4 => NoteFor(k, data[k]))
  }

  lemma OwnersDiffer(j: nat, k: nat)
    requires j < k < 4
    ensures PadName(Owner(j)) != PadName(Owner(k))
  {
    PadNameRoundTrip(Owner(j));
    PadNameRoundTrip(Owner(k));
    assert Owner(j)[0] != Owner(k)[0] || Owner(j)[1] != Owner(k)[1];
  }

  /**
   Each of the four names leads to its own note, also the one that fills all 16 bytes of the owner
   field: as long as its offset is not set, a zero byte follows.
   */
  lemma FourNotesLookup(data: seq<Option<DataProvider>>, k: nat)
    requires |data| == 4 && k < 4
    ensures OwnersDistinct(FourNotes(data)) && FirstNote(FourNotes(data), Owner(k)) == k
  {
    hide Owner, IsName, Padded, OwnerString, FirstNote;
    var notes := FourNotes(data);
    forall i | 0 <= i < 4 ensures Padded(notes[i].cmd.owner) {
      PadNameRoundTrip(Owner(i));
    }
    forall i, j | 0 <= i < j < 4 ensures notes[i].cmd.owner != notes[j].cmd.owner {
      OwnersDiffer(i, j);
    }
    OwnerStringBeforeOffset(notes[k].cmd);
    PadNameRoundTrip(Owner(k));
    NoteLookupIsPositional(notes, k);
  }

  method AddNotesToCore(builder: MachOCoreDumpBuilder)
    requires builder.Valid() && !builder.finalized && builder.notes == []
    modifies builder`notes
    ensures builder.Valid() && builder.notes == FourNotes([None, None, None, None])
  {
    hide EntriesOk, PadName;
    for k := 0 to 4
      invariant builder.Valid() && builder.notes == FourNotes([None, None, None, None])[..k]
    {
      var ok := builder.AddNoteCommand(Owner(k), None);
      assert NoteFor(k, None) == FourNotes([None, None, None, None])[k];
    }
  }

  // ---------------------------------------------------------------- payloads

  function Copy(b: seq<byte>): (p: DataProvider)
    requires |b| < UINT64_MOD
    ensures p.Valid()
  {
    DataProvider(Copied(b), |b|)
  }

  const ADDRABLE_BITS_SIZE := 16

  /** Version 3 and the number of bits of the address space. */
  function EncodeAddrableBits(nBits: uint32): (s: seq<byte>)
    ensures |s| == ADDRABLE_BITS_SIZE
  {
    LE32(3) + LE32(nBits) + LE64(0)
  }

  /** The bytes of the four payloads. */
  datatype Payloads = Payloads(addrableBits: seq<byte>, imageInfos: seq<byte>, mainBinSpec: seq<byte>, metadata: seq<byte>)

  predicate PayloadsOk(p: Payloads) {
    && |p.addrableBits| == ADDRABLE_BITS_SIZE && |p.imageInfos| < UINT64_MOD
    && |p.mainBinSpec| == MAIN_BIN_SPEC_SIZE && |p.metadata| < UINT64_MOD
  }

  function NotesWith(p: Payloads): seq<NoteEntry>
    requires PayloadsOk(p)
  {
    FourNotes([Some(Copy(p.addrableBits)), Some(Copy(p.imageInfos)), Some(Copy(p.mainBinSpec)), Some(Copy(p.metadata))])
  }

  /** Attaches data to a note that has none. */
  method AttachPayload(builder: MachOCoreDumpBuilder, k: nat, bytes: seq<byte>, ghost data: seq<Option<DataProvider>>)
    requires k < 4 && |data| == 4 && data[k].None? && |bytes| < UINT64_MOD
    requires builder.Valid() && builder.notes == FourNotes(data)
    modifies builder`notes
    ensures builder.Valid() && builder.notes == FourNotes(data[k := Some(Copy(bytes))])
  {
    hide EntriesOk, PadName, FirstNote, Owner;
    FourNotesLookup(data, k);
    var ok := builder.AddDataProviderForNoteCommand(Owner(k), Copy(bytes));
  }

  /** The offset of the second payload needs only the size of the first. */
  method OffsetOfImageInfos(builder: MachOCoreDumpBuilder, ghost data: seq<Option<DataProvider>>) returns (offset: uint64)
    requires |data| == 4 && data[0].Some? && data[0].value.size == ADDRABLE_BITS_SIZE
    requires builder.finalized && builder.notes == FourNotes(data)
    ensures offset == NoteBase(builder.header.sizeofcmds) + ADDRABLE_BITS_SIZE
  {
    hide PadName, FirstNote, Owner, OwnersDistinct;
    FourNotesLookup(data, 1);
    assert NoteSum(builder.notes, 1) == NoteSum(builder.notes, 0) + builder.notes[0].cmd.size;
    RoundUpIsLeast(HEADER_SIZE + builder.header.sizeofcmds);
    var r := builder.GetOffsetForNoteCommandPayload(Owner(1));
    return r.value;
  }

  /** What the payloads hold, when the images' payload is made for a given file offset. */
  ghost predicate PayloadsFor(p: Payloads, nBits: uint32, modules: seq<ModuleInfo>, ids: seq<uint64>, offset: nat) {
    && PayloadsOk(p)
    && AllOk(modules) && modules != []
    && p.addrableBits == EncodeAddrableBits(nBits)
    && p.imageInfos == Payload(offset, |modules| - 1, Images(modules))
    && (exists spec :: IsSpec(spec, modules) && p.mainBinSpec == EncodeMainBinSpec(spec))
    && p.metadata == AsciiBytes(Print(Metadata(ids)))
  }

  /** There are modules to describe, and the two payloads whose size depends on the process fit in the address space. */
  predicate BuffersFit(modules: seq<ModuleInfo>, ids: seq<uint64>) {
    && AllOk(modules) && modules != []
    && |Print(Metadata(ids))| < UINT64_MOD && |Payload(0, |modules| - 1, Images(modules))| < UINT64_MOD
  }

  lemma PayloadSizeAnywhere(base: nat, modules: seq<ModuleInfo>)
    requires AllOk(modules) && modules != []
    ensures |Payload(base, |modules| - 1, Images(modules))| == |Payload(0, |modules| - 1, Images(modules))| > 0
  {
    hide AllOk, Payload, Images, AddrBlocks, PathBlocks;
    PayloadSize(base, |modules| - 1, Images(modules));
    PayloadSize(0, |modules| - 1, Images(modules));
  }

  /**
   Attaches all payloads. The commands are finalized in between, because the images' payload depends on
   its own file offset. A buffer that exceeds the address space cannot be allocated, which ends the dump.
   */
  method AttachPayloads(builder: MachOCoreDumpBuilder, modules: seq<ModuleInfo>, ids: seq<uint64>, nBits: uint32)
    returns (ok: bool, ghost p: Payloads)
    requires builder.Valid() && !builder.finalized && builder.notes == FourNotes([None, None, None, None])
    requires AllOk(modules) && StaysInBuffer(modules)
    modifies builder`notes, builder`header, builder`finalized
    ensures builder.Valid()
    ensures ok <==> BuffersFit(modules, ids)
    ensures ok ==>
              && PayloadsFor(p, nBits, modules, ids, NoteBase(builder.header.sizeofcmds) + ADDRABLE_BITS_SIZE)
              && builder.notes == NotesWith(p)
              && builder.finalized && builder.HeaderCounts()
              && builder.header == old(builder.header).(ncmds := builder.header.ncmds,
                                                        sizeofcmds := builder.header.sizeofcmds)
  {
    hide EntriesOk, AllOk, Images, StaysInBuffer, EncodeAddrableBits, Payload, EncodeMainBinSpec, FourNotes, Metadata,
         Print, AsciiBytes, IsSpec, Copy, NoteBase;
    p := Payloads([], [], [], []);
    ghost var d0: seq<Option<DataProvider>> := [None, None, None, None];
    var abInfo := EncodeAddrableBits(nBits);
    AttachPayload(builder, 0, abInfo, d0);
    ghost var d1 := d0[0 := Some(Copy(abInfo))];
    var text := CreateProcessMetadataPayload(ids);
    var metadata := AsciiBytes(text);
    if |metadata| >= UINT64_MOD {
      return false, p;
    }
    AttachPayload(builder, 3, metadata, d1);
    ghost var d2 := d1[3 := Some(Copy(metadata))];
    builder.FinalizeLoadCommands();
    SizeOfCopy(abInfo);
    var offset := OffsetOfImageInfos(builder, d2);
    var imageInfos := CreateAllImageInfosPayload(offset, modules);
    if modules != [] {
      PayloadSizeAnywhere(offset, modules);
    }
    if imageInfos.Length == 0 || imageInfos.Length >= UINT64_MOD {
      return false, p;
    }
    AttachPayload(builder, 1, imageInfos[..], d2);
    ghost var d3 := d2[1 := Some(Copy(imageInfos[..]))];
    var spec := CreateMainBinSpecPayload(modules);
    var mainBinSpec := EncodeMainBinSpec(spec);
    AttachPayload(builder, 2, mainBinSpec, d3);
    p := Payloads(abInfo, imageInfos[..], mainBinSpec, metadata);
    assert d3[2 := Some(Copy(mainBinSpec))]
           == [Some(Copy(p.addrableBits)), Some(Copy(p.imageInfos)), Some(Copy(p.mainBinSpec)), Some(Copy(p.metadata))];
    return true, p;
  }

  lemma SizeOfCopy(b: seq<byte>)
    requires |b| < UINT64_MOD
    ensures Copy(b).size == |b|
  {
  }

  // ---------------------------------------------------------------- offsets, set early and late

  lemma SegmentBaseIs(base: nat, notes: seq<NoteEntry>)
    requires notes != [] && OwnersDistinct(notes)
    ensures SegmentBase64(base, notes)
            == Low64(SegmentBase(Add64(NoteOffset(base, notes, |notes| - 1), notes[|notes| - 1].cmd.size)))
  {
    hide SegmentBase, Low64, OwnersDistinct;
    NoteLookupIsPositional(notes, |notes| - 1);
  }

  /** Where the first segment payload goes does not change when the offsets of the notes are set. */
  lemma SegmentBaseIsStable(base: nat, notes: seq<NoteEntry>)
    requires notes != [] && OwnersDistinct(notes)
    ensures SegmentBase64(base, PlacedNotes(base, notes, |notes|)) == SegmentBase64(base, notes)
  {
    hide SegmentBase, SegmentBase64, Low64, OwnersDistinct, FirstNote, NoteSum;
    var placed := PlacedNotes(base, notes, |notes|);
    OwnersStayDistinctPlaced(base, notes);
    SegmentBaseIs(base, notes);
    SegmentBaseIs(base, placed);
    PlacedNotesSum(base, notes, |notes| - 1);
  }

  /** Setting the file offsets a second time changes nothing. */
  lemma PlacingTwice(base: nat, segments: seq<SegmentEntry>)
    ensures var once := PlacedSegments(base, segments, |segments|);
            PlacedSegments(base, once, |segments|) == once
  {
    hide Low64, PlacedSegments, SegmentOffset;
    var once := PlacedSegments(base, segments, |segments|);
    var twice := PlacedSegments(base, once, |segments|);
    forall k | 0 <= k < |segments|
      ensures twice[k] == once[k]
    {
      SegmentPlaced(base, segments, k);
      SegmentPlaced(base, once, k);
    }
  }

  lemma SegmentPlaced(base: nat, segments: seq<SegmentEntry>, k: nat)
    requires k < |segments|
    ensures var placed := PlacedSegments(base, segments, |segments|);
            && placed[k] == WithFileOffset(segments[k], Low64(SegmentOffset(base, segments, k)))
            && SegmentOffset(base, placed, k) == SegmentOffset(base, segments, k)
  {
    hide Low64;
    PlacedSegmentsSum(base, segments, k);
  }

  method SetSegmentOffsets(builder: MachOCoreDumpBuilder)
    requires builder.finalized && builder.notes != [] && NoteDataKnown(builder.notes, |builder.notes|)
    requires SegmentDataKnown(builder.segments, |builder.segments|) && AddressesDistinct(builder.segments)
    modifies builder`segments
    ensures SameSegments(builder.segments, old(builder.segments))
    ensures builder.segments
            == PlacedSegments(SegmentBase64(NoteBase(builder.header.sizeofcmds), builder.notes), old(builder.segments),
                              |builder.segments|)
  {
    hide NoteBase, SegmentBase64, AddressesDistinct;
    ghost var base := SegmentBase64(NoteBase(builder.header.sizeofcmds), builder.notes);
    ghost var segments := builder.segments;
    assert PlacedSegments(base, segments, 0) == segments;
    for i := 0 to |builder.segments|
      invariant SameSegments(builder.segments, segments) && SegmentDataKnown(builder.segments, |builder.segments|)
      invariant builder.segments == PlacedSegments(base, segments, i)
    {
      builder.UpdateSegmentOffset(i, base, segments, true);
    }
  }

  lemma NotesReady(p: Payloads, segments: seq<SegmentEntry>)
    requires PayloadsOk(p) && EntriesOk([], segments) && SegmentsNotEmpty(segments)
    ensures OwnersDistinct(NotesWith(p)) && PayloadsReady(NotesWith(p), segments)
    ensures |NotesWith(p)| == 4 && NoteDataKnown(NotesWith(p), 4) && SegmentDataKnown(segments, |segments|)
  {
    var data := [Some(Copy(p.addrableBits)), Some(Copy(p.imageInfos)), Some(Copy(p.mainBinSpec)), Some(Copy(p.metadata))];
    FourNotesLookup(data, 0);
    hide OwnersDistinct, Owner, PadName, IsName;
    assert NotesWith(p) == FourNotes(data);
    assert forall i :: 0 <= i < 4 ==> data[i].Some? && data[i].value.Valid();
  }

  /** The file offset baked into the images' payload is the one its note ends up with. */
  lemma ImageInfosOffsetIsStable(sizeofcmds: uint32, p: Payloads)
    requires PayloadsOk(p)
    ensures PlacedNotes(NoteBase(sizeofcmds), NotesWith(p), 4)[1].cmd.offset == NoteBase(sizeofcmds) + ADDRABLE_BITS_SIZE
  {
    hide Owner, PadName, IsName;
    RoundUpIsLeast(HEADER_SIZE + sizeofcmds);
    var notes := NotesWith(p);
    assert NoteSum(notes, 1) == NoteSum(notes, 0) + notes[0].cmd.size;
  }

  /** The final state of header and entries, given the segments as they were added. */
  ghost predicate BuiltFrom(header: Header, notes: seq<NoteEntry>, threads: seq<thread_state>,
                            segments: seq<SegmentEntry>, p: Payloads, added: seq<SegmentEntry>)
  {
    var base := NoteBase(header.sizeofcmds);
    && PayloadsOk(p) && notes == PlacedNotes(base, NotesWith(p), 4)
    && header == Header(MH_MAGIC_64, CPU_TYPE_ARM64, 0, MH_CORE, header.ncmds, header.sizeofcmds, 0, 0)
    && header.ncmds == (4 + |threads| + |added|) % UINT32_MOD
    && header.sizeofcmds == CommandsSize(4, |threads|, |added|) % UINT32_MOD
    && segments == PlacedSegments(SegmentBase64(base, notes), added, |added|)
  }

  /** Sets the file offsets and writes the file. */
  method WriteFile(builder: MachOCoreDumpBuilder, out: OStream, ghost p: Payloads) returns (r: Outcome)
    requires PayloadsOk(p) && builder.Valid() && builder.finalized && builder.HeaderCounts()
    requires builder.notes == NotesWith(p)
    requires builder.header == Header(MH_MAGIC_64, CPU_TYPE_ARM64, 0, MH_CORE, builder.header.ncmds,
                                      builder.header.sizeofcmds, 0, 0)
    requires SegmentsNotEmpty(builder.segments) && AddressesDistinct(builder.segments)
    modifies builder, out, Readers(builder.segments)`currentCopy
    ensures builder.threads == old(builder.threads) && builder.header == old(builder.header)
    ensures r == Done ==>
              && BuiltFrom(builder.header, builder.notes, builder.threads, builder.segments, p, old(builder.segments))
              && AllWritable(builder.segments, |builder.segments|)
              && out.data == Replay(old(out.data), FileWrites(old(out.pos), builder.header, builder.notes, builder.threads,
                                                              builder.segments))
    ensures old(out.pos) == 0 && Fits(NotesWith(p), |builder.threads|, old(builder.segments)) ==> r != WouldOverwrite
    ensures r == WouldOverwrite ==> builder.debug
    ensures r != Refused ==> out.failures == old(out.failures)
    ensures r == Refused ==>
              out.failures > old(out.failures) || !AllWritable(old(builder.segments), |old(builder.segments)|)
  {
    hide EntriesOk, NotesWith, NoteBase, SegmentBase64, AddressesDistinct, OwnersDistinct, PlacedNotes, PlacedSegments,
         PayloadsReady, AllWritable, Fits, FileWrites, SegmentsNotEmpty, PayloadsOk;
    ghost var notes, added := builder.notes, builder.segments;
    ghost var base := NoteBase(builder.header.sizeofcmds);
    EntriesSplit(notes, added);
    NotesReady(p, added);
    SetSegmentOffsets(builder);
    StillReady(notes, added, notes, builder.segments);
    AddressesStayDistinct(builder.segments, added);
    SegmentBaseIsStable(base, notes);
    PlacingTwice(SegmentBase64(base, notes), added);
    FitsIgnoresOffsets(notes, |builder.threads|, added, builder.segments);
    r := builder.Build(out);
    PlacedAreWritable(builder.segments, added);
    PlacedHaveBytes(builder.notes, p);
  }

  lemma PlacedAreWritable(a: seq<SegmentEntry>, b: seq<SegmentEntry>)
    requires SameSegments(a, b)
    ensures AllWritable(a, |a|) <==> AllWritable(b, |b|)
  {
    hide Writable;
    forall i | 0 <= i < |a| ensures Writable(a[i]) <==> Writable(b[i]) {
      SameData(a[i], b[i]);
    }
  }

  lemma SameData(a: SegmentEntry, b: SegmentEntry)
    requires a == WithFileOffset(b, a.cmd.fileoff)
    ensures Writable(a) <==> Writable(b)
  {
    hide SegmentBytes;
  }

  lemma PlacedHaveBytes(notes: seq<NoteEntry>, p: Payloads)
    requires PayloadsOk(p) && SameNotes(notes, NotesWith(p))
    ensures AllHaveBytes(notes)
  {
    hide Owner, PadName, IsName;
    var notes0 := NotesWith(p);
    forall i | 0 <= i < |notes| ensures HasBytes(notes[i]) {
      assert notes[i].data == notes0[i].data;
    }
  }

  method AddPayloadsAndWrite(builder: MachOCoreDumpBuilder, modules: seq<ModuleInfo>, ids: seq<uint64>, out: OStream,
                             bits: Option<uint32>) returns (r: Outcome, ghost p: Payloads)
    requires builder.Valid() && !builder.finalized && builder.notes == FourNotes([None, None, None, None])
    requires builder.header == Header(MH_MAGIC_64, CPU_TYPE_ARM64, 0, MH_CORE, 0, 0, 0, 0)
    requires SegmentsNotEmpty(builder.segments) && AddressesDistinct(builder.segments)
    requires AllOk(modules) && StaysInBuffer(modules)
    modifies builder, out, Readers(builder.segments)`currentCopy
    ensures builder.threads == old(builder.threads)
    ensures r == Done ==>
              && bits.Some? && |builder.notes| == 4
              && PayloadsFor(p, bits.value, modules, ids, builder.notes[1].cmd.offset)
              && BuiltFrom(builder.header, builder.notes, builder.threads, builder.segments, p, old(builder.segments))
              && AllWritable(builder.segments, |builder.segments|)
              && out.data == Replay(old(out.data), FileWrites(old(out.pos), builder.header, builder.notes, builder.threads,
                                                              builder.segments))
    ensures r == WouldOverwrite ==>
              builder.debug && PayloadsOk(p) && (old(out.pos) != 0 || !Fits(NotesWith(p), |builder.threads|, old(builder.segments)))
    ensures r != Refused ==> bits.Some? && BuffersFit(modules, ids) && out.failures == old(out.failures)
    ensures r == Refused ==>
              || bits.None? || !BuffersFit(modules, ids) || out.failures > old(out.failures)
              || !AllWritable(old(builder.segments), |old(builder.segments)|)
  {
    p := Payloads([], [], [], []);
    if bits.None? {
      return Refused, p;
    }
    hide EntriesOk, AllOk, StaysInBuffer, PayloadsFor, NotesWith, NoteBase, SegmentBase64, AddressesDistinct,
         PlacedSegments, AllWritable, FileWrites, FourNotes, SegmentsNotEmpty, Fits, BuffersFit;
    var ok;
    ok, p := AttachPayloads(builder, modules, ids, bits.value);
    if !ok {
      return Refused, p;
    }
    PayloadsForIsOk(p, bits.value, modules, ids, NoteBase(builder.header.sizeofcmds) + ADDRABLE_BITS_SIZE);
    ImageInfosOffsetIsStable(builder.header.sizeofcmds, p);
    r := WriteFile(builder, out, p);
  }

  lemma PayloadsForIsOk(p: Payloads, nBits: uint32, modules: seq<ModuleInfo>, ids: seq<uint64>, offset: nat)
    requires PayloadsFor(p, nBits, modules, ids, offset)
    ensures PayloadsOk(p) && |NotesWith(p)| == 4
  {
  }

  lemma FitsIgnoresOffsets(notes: seq<NoteEntry>, threads: nat, a: seq<SegmentEntry>, b: seq<SegmentEntry>)
    requires SameSegments(b, a)
    ensures Fits(notes, threads, a) <==> Fits(notes, threads, b)
  {
    assert forall k :: 0 <= k < |a| ==> a[k].cmd.filesize == b[k].cmd.filesize;
    SegmentSumPrefix(a, b, |a|);
  }

  lemma EntriesSplit(notes: seq<NoteEntry>, segments: seq<SegmentEntry>)
    requires EntriesOk(notes, segments)
    ensures EntriesOk([], segments)
  {
  }

  lemma AddressesStayDistinct(a: seq<SegmentEntry>, b: seq<SegmentEntry>)
    requires SameSegments(a, b) && AddressesDistinct(b)
    ensures AddressesDistinct(a)
  {
  }
}
