/** The object that collects load commands and payloads and writes the core file in one pass. */
module CoreBuilder {
  import opened Bytes
  import opened CStrings
  import opened MachO
  import opened DataAccess
  import opened Stream
  import opened Layout

  /** How a write, or a whole build, ends. */
  datatype Outcome =
    | Done
    | Refused         // the stream failed, or there was no data to write
    | WouldOverwrite  // the debug check found a range that had been written before

  type Range = (nat, nat)

  predicate RangesBelow(ranges: seq<Range>, pos: nat) {
    forall i :: 0 <= i < |ranges| ==> ranges[i].1 <= pos
  }

  /** The debug build's test of a new range against one already written. */
  predicate Clashes(start: nat, end: nat, r: Range) {
    || (start < r.1 && start > r.0)
    || (end > r.0 && end < r.1)
  }

  predicate Overlap(start: nat, end: nat, r: Range) {
    start < r.1 && r.0 < end
  }

  /**
   The test finds every overlap but one kind: it misses exactly the new ranges that cover all of the old
   one, the old range itself included.
   */
  lemma ClashesExactly(start: nat, end: nat, r: Range)
    requires start < end && r.0 < r.1
    ensures Clashes(start, end, r) <==> Overlap(start, end, r) && !(start <= r.0 && r.1 <= end)
  {
  }

  // ---------------------------------------------------------------- 64-bit offset arithmetic

  /** Where the first segment payload goes: behind the note that the last owner's name leads to. */
  function SegmentBase64(noteBase: nat, notes: seq<NoteEntry>): uint64
    requires notes != []
  {
    var last := notes[|notes| - 1].cmd;
    Low64(SegmentBase(Add64(NoteOffset(noteBase, notes, FirstNote(notes, OwnerString(last))), last.size)))
  }

  lemma SegmentBase64IsExact(noteBase: nat, notes: seq<NoteEntry>)
    requires notes != [] && OwnersDistinct(notes)
    requires SegmentBase(NoteOffset(noteBase, notes, |notes|)) < UINT64_MOD
    ensures SegmentBase64(noteBase, notes) == SegmentBase(NoteOffset(noteBase, notes, |notes|))
    ensures var start, end := SegmentBase64(noteBase, notes), noteBase + NoteSum(notes, |notes|);
            start % 4096 == 0 && end <= start < end + 4096
  {
    hide RoundUp, OwnerString, OwnersDistinct, FirstNote;
    NoteLookupIsPositional(notes, |notes| - 1);
    RoundUpIsLeast(NoteOffset(noteBase, notes, |notes|));
  }

  /**
   A multiple of 4096 that is not below the end of the last note, and less than 4096 behind it: the notes
   start at the multiple of 16 right behind the commands.
   */
  predicate StartsBehindNotes(offset: uint64, notes: seq<NoteEntry>, sizeofcmds: uint32)
    requires notes != []
  {
    var last := notes[|notes| - 1].cmd;
    forall base: nat | base % 16 == 0 && 32 + sizeofcmds <= base < 32 + sizeofcmds + 16 ::
      var end := NoteOffset(base, notes, FirstNote(notes, OwnerString(last))) + last.size;
      end + 4095 < UINT64_MOD ==> offset % 4096 == 0 && end <= offset < end + 4096
  }

  lemma SegmentsStart(notes: seq<NoteEntry>, sizeofcmds: uint32)
    requires notes != []
    ensures StartsBehindNotes(SegmentBase64(NoteBase(sizeofcmds), notes), notes, sizeofcmds)
  {
    hide OwnerString, FirstNote, NoteSum;
    RoundUpIsLeast(HEADER_SIZE + sizeofcmds);
    var last := notes[|notes| - 1].cmd;
    forall base: nat | base % 16 == 0 && 32 + sizeofcmds <= base < 32 + sizeofcmds + 16
      ensures var end := NoteOffset(base, notes, FirstNote(notes, OwnerString(last))) + last.size;
              var offset := SegmentBase64(NoteBase(sizeofcmds), notes);
              end + 4095 < UINT64_MOD ==> offset % 4096 == 0 && end <= offset < end + 4096
    {
      SameMultiple(base, NoteBase(sizeofcmds), 32 + sizeofcmds);
      RoundUpIsLeast(NoteOffset(base, notes, FirstNote(notes, OwnerString(last))) + last.size);
    }
  }

  lemma SameMultiple(a: nat, b: nat, low: nat)
    requires a % 16 == 0 && b % 16 == 0 && low <= a < low + 16 && low <= b < low + 16
    ensures a == b
  {
  }

  function WithOffset(e: NoteEntry, offset: uint64): NoteEntry {
    NoteEntry(NoteCommand(e.cmd.owner, offset, e.cmd.size), e.data)
  }

  function WithFileOffset(e: SegmentEntry, fileoff: uint64): SegmentEntry {
    SegmentEntry(e.cmd.(fileoff := fileoff), e.data)
  }

  /** The first n notes with the offsets the program computes for them, the others as they were. */
  function PlacedNotes(base: nat, notes: seq<NoteEntry>, n: nat): (r: seq<NoteEntry>)
    requires n <= |notes|
    ensures |r| == |notes|
  {
    seq(|notes|, k requires 0 <= k < |notes| =>
      if k < n then WithOffset(notes[k], Low64(NoteOffset(base, notes, k))) else notes[k])
  }

  function PlacedSegments(base: nat, segments: seq<SegmentEntry>, n: nat): (r: seq<SegmentEntry>)
    requires n <= |segments|
    ensures |r| == |segments|
  {
    seq(|segments|, k requires 0 <= k < |segments| =>
      if k < n then WithFileOffset(segments[k], Low64(SegmentOffset(base, segments, k))) else segments[k])
  }

  // ---------------------------------------------------------------- consistency of entries

  predicate NoteOk(e: NoteEntry) {
    e.data.Some? ==> e.data.value.Valid() && e.cmd.size == e.data.value.size
  }

  predicate SegmentOk(e: SegmentEntry) {
    && e.cmd.vmsize == e.cmd.filesize
    && (if e.data.Some? then e.data.value.Valid() && e.cmd.filesize == e.data.value.size else e.cmd.filesize == 0)
  }

  predicate EntriesOk(notes: seq<NoteEntry>, segments: seq<SegmentEntry>) {
    && (forall i :: 0 <= i < |notes| ==> NoteOk(notes[i]))
    && (forall i :: 0 <= i < |segments| ==> SegmentOk(segments[i]))
  }

  /** The same notes up to their offsets. */
  predicate SameNotes(a: seq<NoteEntry>, b: seq<NoteEntry>) {
    |a| == |b| && forall i :: 0 <= i < |a| ==> a[i] == WithOffset(b[i], a[i].cmd.offset)
  }

  predicate SameSegments(a: seq<SegmentEntry>, b: seq<SegmentEntry>) {
    |a| == |b| && forall i :: 0 <= i < |a| ==> a[i] == WithFileOffset(b[i], a[i].cmd.fileoff)
  }

  predicate NoteDataKnown(notes: seq<NoteEntry>, n: nat)
    requires n <= |notes|
  {
    forall i :: 0 <= i < n ==> notes[i].data.Some?
  }

  predicate SegmentDataKnown(segments: seq<SegmentEntry>, n: nat)
    requires n <= |segments|
  {
    forall i :: 0 <= i < n ==> segments[i].data.Some?
  }

  /** No segment without bytes: the chunk arithmetic divides by the chunk size. */
  predicate SegmentsNotEmpty(segments: seq<SegmentEntry>) {
    forall i :: 0 <= i < |segments| ==> segments[i].data.Some? && segments[i].data.value.size > 0
  }

  /** What stands behind the readable chunks of a segment could be read as well. */
  predicate Writable(e: SegmentEntry) {
    e.data.Some? && e.data.value.size > 0 && SegmentBytes(e.data.value).Some?
  }

  /** A note payload is had as a whole, or there is nothing to have. */
  predicate HasBytes(e: NoteEntry) {
    e.data.Some? && (e.data.value.Whole().Some? || e.cmd.size == 0)
  }

  predicate AllHaveBytes(notes: seq<NoteEntry>) {
    forall i :: 0 <= i < |notes| ==> HasBytes(notes[i])
  }

  predicate AllWritable(segments: seq<SegmentEntry>, n: nat)
    requires n <= |segments|
  {
    forall i {:trigger Writable(segments[i])} :: 0 <= i < n ==> Writable(segments[i])
  }

  function Reader(e: SegmentEntry): set<ProcessMemoryReader> {
    if e.data.Some? then e.data.value.Reader() else {}
  }

  function Readers(segments: seq<SegmentEntry>): set<ProcessMemoryReader> {
    set i, o | 0 <= i < |segments| && o in Reader(segments[i]) :: o
  }

  lemma ReaderAmongReaders(segments: seq<SegmentEntry>, i: nat)
    requires i < |segments|
    ensures Reader(segments[i]) <= Readers(segments)
  {
  }

  lemma NotePayloadNotLonger(e: NoteEntry)
    requires NoteOk(e)
    ensures |NotePayload(e)| <= e.cmd.size
  {
  }

  lemma PayloadNotLonger(e: SegmentEntry)
    requires SegmentOk(e)
    ensures |SegmentPayload(e)| <= e.cmd.filesize
  {
    if e.data.Some? && e.data.value.size > 0 {
      SegmentBytesArePrefix(e.data.value);
    }
  }

  /** Looking a note up by its own owner finds that note, and setting its offset disturbs no other. */
  lemma PlaceNoteStep(base: nat, notes0: seq<NoteEntry>, i: nat)
    requires OwnersDistinct(notes0) && i < |notes0|
    ensures var notes := PlacedNotes(base, notes0, i);
            && FirstNote(notes, OwnerString(notes[i].cmd)) == i
            && NoteOffset(base, notes, i) == NoteOffset(base, notes0, i)
            && notes[i := WithOffset(notes[i], Low64(NoteOffset(base, notes0, i)))] == PlacedNotes(base, notes0, i + 1)
  {
    var notes := PlacedNotes(base, notes0, i);
    NoteSumPrefix(notes, notes0, i);
    OwnersStayDistinct(notes, notes0);
    NoteLookupIsPositional(notes, i);
  }

  lemma PlaceSegmentStep(base: nat, segments0: seq<SegmentEntry>, i: nat)
    requires AddressesDistinct(segments0) && i < |segments0|
    ensures var segments := PlacedSegments(base, segments0, i);
            && FirstSegment(segments, segments[i].cmd.vmaddr) == i
            && SegmentOffset(base, segments, i) == SegmentOffset(base, segments0, i)
            && segments[i := WithFileOffset(segments[i], Low64(SegmentOffset(base, segments0, i)))]
               == PlacedSegments(base, segments0, i + 1)
  {
    var segments := PlacedSegments(base, segments0, i);
    SegmentSumPrefix(segments, segments0, i);
    SegmentLookupIsPositional(segments, i);
  }

  lemma PlacedNotesSum(base: nat, notes: seq<NoteEntry>, i: nat)
    requires i <= |notes|
    ensures NoteSum(PlacedNotes(base, notes, |notes|), i) == NoteSum(notes, i)
  {
    NoteSumPrefix(PlacedNotes(base, notes, |notes|), notes, i);
  }

  lemma PlacedSegmentsSum(base: nat, segments: seq<SegmentEntry>, i: nat)
    requires i <= |segments|
    ensures SegmentSum(PlacedSegments(base, segments, |segments|), i) == SegmentSum(segments, i)
  {
    SegmentSumPrefix(PlacedSegments(base, segments, |segments|), segments, i);
  }

  /** As long as no offset reaches 2^64, the computed ones are the ones the layout wants. */
  lemma PlacedWhenFitting(noteBase: nat, segmentBase: nat, notes: seq<NoteEntry>, segments: seq<SegmentEntry>)
    requires EntriesOk(notes, segments)
    requires NoteOffset(noteBase, notes, |notes|) < UINT64_MOD
    requires SegmentOffset(segmentBase, segments, |segments|) < UINT64_MOD
    ensures Placed(noteBase, segmentBase, PlacedNotes(noteBase, notes, |notes|),
                   PlacedSegments(segmentBase, segments, |segments|))
  {
    var ns, ss := PlacedNotes(noteBase, notes, |notes|), PlacedSegments(segmentBase, segments, |segments|);
    forall i | 0 <= i < |ns|
      ensures ns[i].cmd.offset == NoteOffset(noteBase, ns, i)
      ensures |NotePayload(ns[i])| <= ns[i].cmd.size
    {
      NoteSumMonotone(notes, i, |notes|);
      PlacedNotesSum(noteBase, notes, i);
      NotePayloadNotLonger(notes[i]);
    }
    forall i | 0 <= i < |ss|
      ensures ss[i].cmd.fileoff == SegmentOffset(segmentBase, ss, i)
      ensures |SegmentPayload(ss[i])| <= ss[i].cmd.filesize
    {
      SegmentSumMonotone(segments, i, |segments|);
      PlacedSegmentsSum(segmentBase, segments, i);
      PayloadNotLonger(segments[i]);
    }
  }

  /** Every entry carries its computed offset. */
  predicate NotesLocated(base: nat, notes: seq<NoteEntry>) {
    forall i :: 0 <= i < |notes| ==> notes[i].cmd.offset == Low64(NoteOffset(base, notes, i))
  }

  predicate SegmentsLocated(base: nat, segments: seq<SegmentEntry>) {
    forall i :: 0 <= i < |segments| ==> segments[i].cmd.fileoff == Low64(SegmentOffset(base, segments, i))
  }

  /** No computed offset was cut off at 64 bits. */
  predicate NotesExact(base: nat, notes: seq<NoteEntry>) {
    forall i :: 0 <= i < |notes| ==> notes[i].cmd.offset == NoteOffset(base, notes, i)
  }

  predicate SegmentsExact(base: nat, segments: seq<SegmentEntry>) {
    forall i :: 0 <= i < |segments| ==> segments[i].cmd.fileoff == SegmentOffset(base, segments, i)
  }

  lemma PlacedNotesAreLocated(base: nat, notes: seq<NoteEntry>)
    ensures NotesLocated(base, PlacedNotes(base, notes, |notes|))
  {
    hide Low64, NoteSum;
    var placed := PlacedNotes(base, notes, |notes|);
    forall i | 0 <= i < |placed| ensures placed[i].cmd.offset == Low64(NoteOffset(base, placed, i)) {
      PlacedNotesSum(base, notes, i);
    }
  }

  lemma PlacedSegmentsAreLocated(base: nat, segments: seq<SegmentEntry>)
    ensures SegmentsLocated(base, PlacedSegments(base, segments, |segments|))
  {
    hide Low64, SegmentSum;
    var placed := PlacedSegments(base, segments, |segments|);
    forall i | 0 <= i < |placed| ensures placed[i].cmd.fileoff == Low64(SegmentOffset(base, placed, i)) {
      PlacedSegmentsSum(base, segments, i);
    }
  }

  predicate NotesRegular(base: nat, notes: seq<NoteEntry>) {
    OwnersDistinct(notes) && NotesLocated(base, notes)
  }

  predicate SegmentsRegular(base: nat, segments: seq<SegmentEntry>) {
    AddressesDistinct(segments) && SegmentsLocated(base, segments)
  }

  /** What a build needs: every size known, and no empty segment. */
  predicate PayloadsReady(notes: seq<NoteEntry>, segments: seq<SegmentEntry>) {
    && EntriesOk(notes, segments)
    && notes != [] && NoteDataKnown(notes, |notes|)
    && SegmentsNotEmpty(segments)
  }

  lemma OwnersStayDistinct(a: seq<NoteEntry>, b: seq<NoteEntry>)
    requires SameNotes(a, b) && OwnersDistinct(b)
    ensures OwnersDistinct(a)
  {
    assert forall i :: 0 <= i < |a| ==> a[i].cmd.owner == b[i].cmd.owner;
  }

  /** The stream holds, from `start` on, the concatenation of the codes, and stands behind them. */
  predicate Appended(before: seq<byte>, start: nat, codes: seq<seq<byte>>, data: seq<byte>, pos: nat) {
    data == Overwrite(before, start, Flatten(codes)) && pos == start + |Flatten(codes)|
  }

  lemma AppendedNothing(data: seq<byte>, pos: nat)
    ensures Appended(data, pos, [], data, pos)
  {
  }

  lemma AppendCode(before: seq<byte>, start: nat, codes: seq<seq<byte>>, data: seq<byte>, pos: nat, code: seq<byte>)
    requires Appended(before, start, codes, data, pos)
    ensures Appended(before, start, codes + [code], Overwrite(data, pos, code), pos + |code|)
  {
    FlattenSnoc(codes, code);
    OverwriteJoin(before, start, Flatten(codes), code);
  }

  predicate WrittenFrom(before: seq<byte>, start: nat, written: seq<byte>, data: seq<byte>, pos: nat) {
    data == Overwrite(before, start, written) && pos == start + |written|
  }

  lemma Associates(a: seq<byte>, b: seq<byte>, c: seq<byte>)
    ensures a + (b + c) == (a + b) + c
  {
  }

  lemma StillReady(notes0: seq<NoteEntry>, segments0: seq<SegmentEntry>, notes: seq<NoteEntry>, segments: seq<SegmentEntry>)
    requires PayloadsReady(notes0, segments0) && SameNotes(notes, notes0) && SameSegments(segments, segments0)
    ensures PayloadsReady(notes, segments) && Readers(segments) == Readers(segments0)
  {
    assert forall i :: 0 <= i < |notes| ==> NoteOk(notes0[i]) && notes[i].cmd.size == notes0[i].cmd.size;
    assert forall i :: 0 <= i < |segments| ==> SegmentOk(segments0[i]) && Reader(segments[i]) == Reader(segments0[i]);
  }

  lemma OwnersStayDistinctPlaced(base: nat, notes: seq<NoteEntry>)
    requires OwnersDistinct(notes)
    ensures OwnersDistinct(PlacedNotes(base, notes, |notes|))
  {
    OwnersStayDistinct(PlacedNotes(base, notes, |notes|), notes);
  }

  lemma PlacedIsRegular(base: nat, segmentBase: nat, notes: seq<NoteEntry>, segments: seq<SegmentEntry>)
    requires OwnersDistinct(notes) && AddressesDistinct(segments)
    ensures NotesRegular(base, PlacedNotes(base, notes, |notes|))
    ensures SegmentsRegular(segmentBase, PlacedSegments(segmentBase, segments, |segments|))
  {
    PlacedNotesAreLocated(base, notes);
    PlacedSegmentsAreLocated(segmentBase, segments);
    OwnersStayDistinct(PlacedNotes(base, notes, |notes|), notes);
  }

  lemma FittingBounds(notes: seq<NoteEntry>, threads: nat, segments: seq<SegmentEntry>)
    requires Fits(notes, threads, segments)
    ensures var base := NoteBase(CommandsSize(|notes|, threads, |segments|));
            var notesEnd := NoteOffset(base, notes, |notes|);
            && HEADER_SIZE + CommandsSize(|notes|, threads, |segments|) <= base
            && notesEnd <= SegmentBase(notesEnd) < UINT64_MOD
            && SegmentOffset(SegmentBase(notesEnd), segments, |segments|) < UINT64_MOD
  {
    var base := NoteBase(CommandsSize(|notes|, threads, |segments|));
    RoundUpIsLeast(HEADER_SIZE + CommandsSize(|notes|, threads, |segments|));
    RoundUpIsLeast(NoteOffset(base, notes, |notes|));
  }

  lemma PlacedIsExact(noteBase: nat, segmentBase: nat, notes: seq<NoteEntry>, segments: seq<SegmentEntry>)
    requires Placed(noteBase, segmentBase, notes, segments)
    ensures NotesExact(noteBase, notes) && SegmentsExact(segmentBase, segments)
  {
  }

  /** In a fitting file nothing is cut off, and each part starts behind the part before it. */
  lemma FittingIsExact(header: Header, notes0: seq<NoteEntry>, threads: seq<thread_state>, segments0: seq<SegmentEntry>,
                       notes: seq<NoteEntry>, segments: seq<SegmentEntry>)
    requires PayloadsReady(notes0, segments0) && OwnersDistinct(notes0)
    requires Fits(notes0, |threads|, segments0)
    requires header.sizeofcmds == CommandsSize(|notes0|, |threads|, |segments0|) % UINT32_MOD
    requires notes != [] && notes == PlacedNotes(NoteBase(header.sizeofcmds), notes0, |notes0|)
    requires segments == PlacedSegments(SegmentBase64(NoteBase(header.sizeofcmds), notes), segments0, |segments0|)
    ensures header.sizeofcmds == CommandsSize(|notes|, |threads|, |segments|)
    ensures var base := NoteBase(header.sizeofcmds);
            var notesEnd := NoteOffset(base, notes, |notes|);
            && SegmentBase64(base, notes) == SegmentBase(notesEnd) >= notesEnd
            && NotesExact(base, notes) && SegmentsExact(SegmentBase(notesEnd), segments)
            && Placed(base, SegmentBase(notesEnd), notes, segments)
            && |Head(header, notes, threads, segments)| <= base
  {
    hide NoteBase, SegmentBase, SegmentBase64, OwnersDistinct, EntriesOk, PlacedNotes, PlacedSegments, Placed,
         NotesExact, SegmentsExact;
    FittingBounds(notes0, |threads|, segments0);
    var base := NoteBase(header.sizeofcmds);
    PlacedNotesSum(base, notes0, |notes0|);
    OwnersStayDistinctPlaced(base, notes0);
    SegmentBase64IsExact(base, notes);
    var segmentBase := SegmentBase(NoteOffset(base, notes, |notes|));
    PlacedWhenFitting(base, segmentBase, notes0, segments0);
    PlacedIsExact(base, segmentBase, notes, segments);
    CommandCodesSize(notes, threads, segments);
  }

  lemma FileParts(before: seq<byte>, start: nat, header: Header, notes: seq<NoteEntry>, threads: seq<thread_state>,
                  segments: seq<SegmentEntry>)
    ensures Replay(Replay(Overwrite(before, start, Head(header, notes, threads, segments)), NoteWrites(notes)),
                   SegmentWrites(segments))
            == Replay(before, FileWrites(start, header, notes, threads, segments))
  {
    hide Head, NoteWrites, SegmentWrites, Overwrite;
    var head := Write(start, Head(header, notes, threads, segments));
    assert [head][..0] == [];
    assert Replay(before, [head]) == Overwrite(before, start, head.bytes);
    ReplayConcat(before, [head], NoteWrites(notes));
    ReplayConcat(before, [head] + NoteWrites(notes), SegmentWrites(segments));
  }

  lemma SameNotesDataKnown(a: seq<NoteEntry>, b: seq<NoteEntry>)
    requires SameNotes(a, b) && NoteDataKnown(b, |b|)
    ensures NoteDataKnown(a, |a|)
  {
  }

  /** Four groups of writes, each continuing where the one before stopped, make up the head. */
  lemma HeadParts(before: seq<byte>, start: nat, header: Header, notes: seq<NoteEntry>, threads: seq<thread_state>,
                  segments: seq<SegmentEntry>, data1: seq<byte>, data2: seq<byte>, data3: seq<byte>, data4: seq<byte>,
                  pos1: nat, pos2: nat, pos3: nat, pos4: nat)
    requires WrittenFrom(before, start, EncodeHeader(header), data1, pos1)
    requires Appended(data1, pos1, NoteCodes(notes), data2, pos2)
    requires Appended(data2, pos2, ThreadCodes(threads), data3, pos3)
    requires Appended(data3, pos3, SegmentCodes(segments), data4, pos4)
    ensures WrittenFrom(before, start, Head(header, notes, threads, segments), data4, pos4)
  {
    hide EncodeHeader, NoteCodes, ThreadCodes, SegmentCodes, Overwrite, Head, Flatten;
    var h, n, t, s := EncodeHeader(header), Flatten(NoteCodes(notes)), Flatten(ThreadCodes(threads)),
                      Flatten(SegmentCodes(segments));
    OverwriteJoin(before, start, h, n);
    OverwriteJoin(before, start, h + n, t);
    OverwriteJoin(before, start, h + n + t, s);
    HeadIs(header, notes, threads, segments);
  }

  lemma HeadIs(header: Header, notes: seq<NoteEntry>, threads: seq<thread_state>, segments: seq<SegmentEntry>)
    ensures Head(header, notes, threads, segments)
            == EncodeHeader(header) + Flatten(NoteCodes(notes)) + Flatten(ThreadCodes(threads))
               + Flatten(SegmentCodes(segments))
  {
    hide EncodeHeader, NoteCodes, ThreadCodes, SegmentCodes, Flatten;
    var h, n, t, s := EncodeHeader(header), Flatten(NoteCodes(notes)), Flatten(ThreadCodes(threads)),
                      Flatten(SegmentCodes(segments));
    FlattenConcat(NoteCodes(notes) + ThreadCodes(threads), SegmentCodes(segments));
    FlattenConcat(NoteCodes(notes), ThreadCodes(threads));
    assert h + n + t + s == h + (n + t + s);
  }

  lemma CodesStep(notes: seq<NoteEntry>, segments: seq<SegmentEntry>, threads: seq<thread_state>, i: nat)
    ensures i < |notes| ==> NoteCodes(notes[..i + 1]) == NoteCodes(notes[..i]) + [EncodeNote(notes[i].cmd)]
    ensures i < |threads| ==> ThreadCodes(threads[..i + 1]) == ThreadCodes(threads[..i]) + [EncodeThread(threads[i])]
    ensures i < |segments| ==>
              SegmentCodes(segments[..i + 1]) == SegmentCodes(segments[..i]) + [EncodeSegment(segments[i].cmd)]
  {
  }

  class MachOCoreDumpBuilder {
    const debug: bool  // whether the program was compiled with its overwrite check
    var finalized: bool
    var header: Header
    var notes: seq<NoteEntry>
    var threads: seq<thread_state>
    var segments: seq<SegmentEntry>
    var writtenRanges: seq<Range>

    predicate Valid()
      reads this
    {
      EntriesOk(notes, segments)
    }

    /** The header counts the commands, in its 32-bit fields. */
    predicate HeaderCounts()
      reads this
    {
      && header.ncmds == (|notes| + |threads| + |segments|) % UINT32_MOD
      && header.sizeofcmds == CommandsSize(|notes|, |threads|, |segments|) % UINT32_MOD
    }

    constructor (debug: bool)
      ensures Valid() && this.debug == debug && !finalized
      ensures notes == [] && threads == [] && segments == [] && writtenRanges == []
      ensures header == Header(MH_MAGIC_64, CPU_TYPE_ARM64, 0, MH_CORE, 0, 0, 0, 0)
    {
      this.debug := debug;
      finalized := false;
      header := Header(MH_MAGIC_64, CPU_TYPE_ARM64, 0, MH_CORE, 0, 0, 0, 0);
      notes, threads, segments, writtenRanges := [], [], [], [];
    }

    // -------------------------------------------------------------- adding commands

    method AddNoteCommand(owner: seq<byte>, data: Option<DataProvider>) returns (ok: bool)
      requires Valid() && NulFree(owner)
      requires data.Some? ==> data.value.Valid()
      modifies this`notes
      ensures Valid()
      ensures ok <==> !finalized && |owner| <= 16
      ensures !ok ==> notes == old(notes)
      ensures ok ==> notes == old(notes)
                              + [NoteEntry(NoteCommand(PadName(owner), 0, if data.Some? then data.value.size else 0), data)]
    {
      if finalized || |owner| > 16 {
        return false;
      }
      var size := if data.Some? then data.value.size else 0;
      notes := notes + [NoteEntry(NoteCommand(PadName(owner), 0, size), data)];
      return true;
    }

    /**
     Unlike the other two, this one does not look whether the commands have been finalized; the
     header stays right exactly when they have not been.
     */
    method AddThreadCommand(state: thread_state)
      requires Valid()
      modifies this`threads
      ensures Valid()
      ensures threads == old(threads) + [state]
      ensures old(HeaderCounts()) ==> !HeaderCounts()
    {
      threads := threads + [state];
    }

    method AddSegmentCommand(vmaddr: uint64, prot: uint32, data: Option<DataProvider>) returns (ok: bool)
      requires Valid()
      requires data.Some? ==> data.value.Valid()
      modifies this`segments
      ensures Valid()
      ensures ok <==> !finalized
      ensures !ok ==> segments == old(segments)
      ensures ok ==> segments == old(segments) + [NewSegment(vmaddr, prot, data)]
    {
      if finalized {
        return false;
      }
      segments := segments + [NewSegment(vmaddr, prot, data)];
      return true;
    }

    static function NewSegment(vmaddr: uint64, prot: uint32, data: Option<DataProvider>): SegmentEntry {
      var size := if data.Some? then data.value.size else 0;
      SegmentEntry(SegmentCommand(Zeros(16), vmaddr, size, 0, size, prot, prot, 0, 0), data)
    }

    /** Sums the sizes of all commands; the two header fields keep the low 32 bits. */
    method FinalizeLoadCommands()
      modifies this`header, this`finalized
      ensures finalized
      ensures old(finalized) ==> header == old(header)
      ensures !old(finalized) ==>
                HeaderCounts()
                && header == old(header).(ncmds := header.ncmds, sizeofcmds := header.sizeofcmds)
    {
      if finalized {
        return;
      }
      var ncmds: nat := |notes| + |threads| + |segments|;
      var sizeOfCmds: nat := 0;
      for i := 0 to |notes|
        invariant sizeOfCmds == CommandsSize(i, 0, 0)
      {
        sizeOfCmds := sizeOfCmds + NOTE_SIZE;
      }
      for i := 0 to |threads|
        invariant sizeOfCmds == CommandsSize(|notes|, i, 0)
      {
        sizeOfCmds := sizeOfCmds + THREAD_SIZE;
      }
      for i := 0 to |segments|
        invariant sizeOfCmds == CommandsSize(|notes|, |threads|, i)
      {
        sizeOfCmds := sizeOfCmds + SEGMENT_SIZE;
      }
      header := header.(ncmds := ncmds % UINT32_MOD, sizeofcmds := sizeOfCmds % UINT32_MOD);
      finalized := true;
    }

    // -------------------------------------------------------------- payloads and offsets

    method AddDataProviderForNoteCommand(name: seq<byte>, data: DataProvider) returns (ok: bool)
      requires Valid() && data.Valid()
      requires var k := FirstNote(notes, name); k < |notes| ==> notes[k].data.None?
      modifies this`notes
      ensures Valid()
      ensures var k := FirstNote(old(notes), name);
              && (ok <==> k < |old(notes)|)
              && notes == if ok
                          then old(notes)[k := NoteEntry(old(notes)[k].cmd.(size := data.size), Some(data))]
                          else old(notes)
    {
      var i := 0;
      while i < |notes|
        invariant 0 <= i <= |notes| && notes == old(notes)
        invariant FirstNoteFrom(notes, name, i) == FirstNote(notes, name)
      {
        if OwnerString(notes[i].cmd) == name {
          notes := notes[i := NoteEntry(notes[i].cmd.(size := data.size), Some(data))];
          return true;
        }
        i := i + 1;
      }
      return false;
    }

    method GetOffsetForNoteCommandPayload(name: seq<byte>) returns (r: Option<uint64>)
      requires finalized ==> NoteDataKnown(notes, FirstNote(notes, name))
      ensures var k := FirstNote(notes, name);
              r == if finalized && k < |notes|
                   then Some(Low64(NoteOffset(NoteBase(header.sizeofcmds), notes, k))) else None
      ensures finalized && notes != [] && FirstNote(notes, name) == 0 ==>
                r.Some? && r.value % 16 == 0 && 32 + header.sizeofcmds <= r.value < 32 + header.sizeofcmds + 16
    {
      hide OwnerString;
      RoundUpIsLeast(HEADER_SIZE + header.sizeofcmds);
      if !finalized {
        return None;
      }
      var payloadOffset: uint64 := NoteBase(header.sizeofcmds);
      ghost var base := NoteBase(header.sizeofcmds);
      var i := 0;
      while i < |notes|
        invariant 0 <= i <= |notes| && FirstNoteFrom(notes, name, i) == FirstNote(notes, name)
        invariant payloadOffset == Low64(NoteOffset(base, notes, i))
      {
        if name == OwnerString(notes[i].cmd) {
          return Some(payloadOffset);
        }
        assert notes[i].data.Some?;
        Low64Add(NoteOffset(base, notes, i), notes[i].cmd.size);
        payloadOffset := Add64(payloadOffset, notes[i].cmd.size);
        i := i + 1;
      }
      return None;
    }

    lemma FirstSegmentStarts(vmaddr: uint64)
      requires finalized && notes != []
      ensures var base := SegmentBase64(NoteBase(header.sizeofcmds), notes);
              segments != [] && FirstSegment(segments, vmaddr) == 0 ==>
                && StartsBehindNotes(base, notes, header.sizeofcmds) && SegmentOffset(base, segments, 0) == base
    {
      hide StartsBehindNotes, SegmentBase64, NoteBase, FirstSegment;
      SegmentsStart(notes, header.sizeofcmds);
    }

    method GetOffsetForSegmentCommandPayload(vmaddr: uint64) returns (r: Option<uint64>)
      requires finalized ==> notes != []
      requires finalized ==> NoteDataKnown(notes, FirstNote(notes, OwnerString(notes[|notes| - 1].cmd)))
      requires finalized ==> SegmentDataKnown(segments, FirstSegment(segments, vmaddr))
      ensures var k := FirstSegment(segments, vmaddr);
              r == if finalized && k < |segments|
                   then Some(Low64(SegmentOffset(SegmentBase64(NoteBase(header.sizeofcmds), notes), segments, k)))
                   else None
      ensures finalized && segments != [] && FirstSegment(segments, vmaddr) == 0 ==>
                r.Some? && StartsBehindNotes(r.value, notes, header.sizeofcmds)
    {
      hide StartsBehindNotes, OwnerString, SegmentBase, NoteBase, NoteSum, RoundUp;
      if !finalized {
        return None;
      }
      FirstSegmentStarts(vmaddr);
      var last := notes[|notes| - 1].cmd;
      FirstNoteFound(notes, OwnerString(last), 0, |notes| - 1);
      var lastOffset := GetOffsetForNoteCommandPayload(OwnerString(last));
      ghost var noteBase := NoteBase(header.sizeofcmds);
      Low64Add(NoteOffset(noteBase, notes, FirstNote(notes, OwnerString(last))), last.size);
      var payloadOffset := Low64(SegmentBase(Add64(lastOffset.value, last.size)));
      ghost var base := SegmentBase64(noteBase, notes);
      var i := 0;
      while i < |segments|
        invariant 0 <= i <= |segments| && FirstSegmentFrom(segments, vmaddr, i) == FirstSegment(segments, vmaddr)
        invariant payloadOffset == Low64(SegmentOffset(base, segments, i))
      {
        if vmaddr == segments[i].cmd.vmaddr {
          return Some(payloadOffset);
        }
        assert segments[i].data.Some?;
        Low64Add(SegmentOffset(base, segments, i), segments[i].cmd.filesize);
        payloadOffset := Add64(payloadOffset, segments[i].cmd.filesize);
        i := i + 1;
      }
      return None;
    }

    // -------------------------------------------------------------- writing

    /** One write; the debug build first looks for an overlap with what has been written before. */
    method WriteToOStream(data: Option<seq<byte>>, size: nat, out: OStream) returns (r: Outcome)
      requires data.Some? ==> |data.value| == size
      modifies this`writtenRanges, out
      ensures r == Done ==>
                && (data.None? ==> size == 0)
                && out.data == Overwrite(old(out.data), old(out.pos), if data.Some? then data.value else [])
                && out.pos == old(out.pos) + size
      ensures r != Done ==> out.data == old(out.data) && out.pos == old(out.pos)
      ensures r == WouldOverwrite <==>
                debug && exists k :: 0 <= k < |old(writtenRanges)|
                                     && Clashes(old(out.pos), old(out.pos) + size, old(writtenRanges)[k])
      ensures old(RangesBelow(writtenRanges, out.pos)) ==>
                r != WouldOverwrite && (r == Done ==> RangesBelow(writtenRanges, out.pos))
      ensures out.failures == old(out.failures) + if r == Refused && (data.Some? || size == 0) then 1 else 0
    {
      if debug {
        var start, end := out.pos, out.pos + size;
        for i := 0 to |writtenRanges|
          invariant forall k :: 0 <= k < i ==> !Clashes(start, end, writtenRanges[k])
        {
          if Clashes(start, end, writtenRanges[i]) {
            return WouldOverwrite;
          }
        }
        writtenRanges := writtenRanges + [(start, end)];
      }
      if data.None? && size > 0 {
        return Refused;
      }
      var ok := out.Write(if data.Some? then data.value else []);
      return if ok then Done else Refused;
    }

    /** Writes one more command behind those already written from `start` on. */
    method WriteCommand(code: seq<byte>, out: OStream,
                        ghost before: seq<byte>, ghost start: nat, ghost codes: seq<seq<byte>>) returns (r: Outcome)
      requires Appended(before, start, codes, out.data, out.pos)
      modifies this`writtenRanges, out
      ensures r == Done ==> Appended(before, start, codes + [code], out.data, out.pos)
      ensures old(RangesBelow(writtenRanges, out.pos)) ==>
                r != WouldOverwrite && (r == Done ==> RangesBelow(writtenRanges, out.pos))
      ensures out.failures == old(out.failures) + if r == Refused then 1 else 0
      ensures r == WouldOverwrite ==> debug
    {
      AppendCode(before, start, codes, out.data, out.pos, code);
      r := WriteToOStream(Some(code), |code|, out);
    }

    method UpdateNoteOffset(i: nat, ghost base: nat, ghost notes0: seq<NoteEntry>, ghost regular: bool)
      requires base == NoteBase(header.sizeofcmds)
      requires finalized && i < |notes| && NoteDataKnown(notes, |notes|) && SameNotes(notes, notes0)
      requires regular ==> OwnersDistinct(notes0) && notes == PlacedNotes(base, notes0, i)
      modifies this`notes
      ensures SameNotes(notes, notes0) && NoteCodes(notes[..i]) == NoteCodes(old(notes)[..i])
      ensures regular ==> notes == PlacedNotes(base, notes0, i + 1)
    {
      if regular {
        PlaceNoteStep(base, notes0, i);
      }
      var offset := GetOffsetForNoteCommandPayload(OwnerString(notes[i].cmd));
      if offset.Some? {
        notes := notes[i := WithOffset(notes[i], offset.value)];
      }
      assert notes[..i] == old(notes)[..i];
    }

    method UpdateSegmentOffset(i: nat, ghost base: nat, ghost segments0: seq<SegmentEntry>, ghost regular: bool)
      requires finalized && NoteDataKnown(notes, |notes|) && notes != []
      requires base == SegmentBase64(NoteBase(header.sizeofcmds), notes)
      requires i < |segments| && SegmentDataKnown(segments, |segments|) && SameSegments(segments, segments0)
      requires regular ==>
                 AddressesDistinct(segments0) && segments == PlacedSegments(base, segments0, i)
      modifies this`segments
      ensures SameSegments(segments, segments0) && SegmentCodes(segments[..i]) == SegmentCodes(old(segments)[..i])
      ensures regular ==> segments == PlacedSegments(base, segments0, i + 1)
    {
      if regular {
        PlaceSegmentStep(base, segments0, i);
      }
      var offset := GetOffsetForSegmentCommandPayload(segments[i].cmd.vmaddr);
      if offset.Some? {
        segments := segments[i := WithFileOffset(segments[i], offset.value)];
      }
      assert segments[..i] == old(segments)[..i];
    }

    /** Sets the final offset of each note command and writes it. */
    method WriteNoteCommands(out: OStream) returns (r: Outcome)
      requires finalized && NoteDataKnown(notes, |notes|)
      modifies this`notes, this`writtenRanges, out
      ensures SameNotes(notes, old(notes))
      ensures r == Done && OwnersDistinct(old(notes)) ==>
                notes == PlacedNotes(NoteBase(header.sizeofcmds), old(notes), |notes|)
      ensures r == Done ==> Appended(old(out.data), old(out.pos), NoteCodes(notes), out.data, out.pos)
      ensures old(RangesBelow(writtenRanges, out.pos)) ==>
                r != WouldOverwrite && (r == Done ==> RangesBelow(writtenRanges, out.pos))
      ensures out.failures == old(out.failures) + if r == Refused then 1 else 0
      ensures r == WouldOverwrite ==> debug
    {
      hide NoteBase, OwnersDistinct, EncodeNote;
      ghost var base, regular := NoteBase(header.sizeofcmds), OwnersDistinct(notes);
      for i := 0 to |notes|
        invariant SameNotes(notes, old(notes)) && NoteDataKnown(notes, |notes|)
        invariant regular ==> notes == PlacedNotes(base, old(notes), i)
        invariant Appended(old(out.data), old(out.pos), NoteCodes(notes[..i]), out.data, out.pos)
        invariant old(RangesBelow(writtenRanges, out.pos)) ==> RangesBelow(writtenRanges, out.pos)
        invariant out.failures == old(out.failures)
      {
        UpdateNoteOffset(i, base, old(notes), regular);
        r := WriteCommand(EncodeNote(notes[i].cmd), out, old(out.data), old(out.pos), NoteCodes(notes[..i]));
        if r != Done {
          return;
        }
        CodesStep(notes, [], [], i);
      }
      assert notes[..|notes|] == notes;
      return Done;
    }

    method WriteThreadCommands(out: OStream) returns (r: Outcome)
      modifies this`writtenRanges, out
      ensures r == Done ==> Appended(old(out.data), old(out.pos), ThreadCodes(threads), out.data, out.pos)
      ensures old(RangesBelow(writtenRanges, out.pos)) ==>
                r != WouldOverwrite && (r == Done ==> RangesBelow(writtenRanges, out.pos))
      ensures out.failures == old(out.failures) + if r == Refused then 1 else 0
      ensures r == WouldOverwrite ==> debug
    {
      for i := 0 to |threads|
        invariant Appended(old(out.data), old(out.pos), ThreadCodes(threads[..i]), out.data, out.pos)
        invariant old(RangesBelow(writtenRanges, out.pos)) ==> RangesBelow(writtenRanges, out.pos)
        invariant out.failures == old(out.failures)
      {
        r := WriteCommand(EncodeThread(threads[i]), out, old(out.data), old(out.pos), ThreadCodes(threads[..i]));
        if r != Done {
          return;
        }
        CodesStep([], [], threads, i);
      }
      assert threads[..|threads|] == threads;
      return Done;
    }

    method WriteSegmentCommands(out: OStream) returns (r: Outcome)
      requires finalized && NoteDataKnown(notes, |notes|) && SegmentDataKnown(segments, |segments|)
      requires notes != []
      modifies this`segments, this`writtenRanges, out
      ensures SameSegments(segments, old(segments))
      ensures r == Done && AddressesDistinct(old(segments)) ==>
                segments == PlacedSegments(SegmentBase64(NoteBase(header.sizeofcmds), notes), old(segments), |segments|)
      ensures r == Done ==> Appended(old(out.data), old(out.pos), SegmentCodes(segments), out.data, out.pos)
      ensures old(RangesBelow(writtenRanges, out.pos)) ==>
                r != WouldOverwrite && (r == Done ==> RangesBelow(writtenRanges, out.pos))
      ensures out.failures == old(out.failures) + if r == Refused then 1 else 0
      ensures r == WouldOverwrite ==> debug
    {
      hide NoteBase, SegmentBase64, AddressesDistinct, EncodeSegment, RangesBelow, Appended, OwnerString, SegmentBase;
      ghost var base := SegmentBase64(NoteBase(header.sizeofcmds), notes);
      ghost var regular := AddressesDistinct(segments);
      AppendedNothing(out.data, out.pos);
      assert SegmentCodes(segments[..0]) == [];
      for i := 0 to |segments|
        invariant SameSegments(segments, old(segments)) && SegmentDataKnown(segments, |segments|)
        invariant regular ==> segments == PlacedSegments(base, old(segments), i)
        invariant Appended(old(out.data), old(out.pos), SegmentCodes(segments[..i]), out.data, out.pos)
        invariant old(RangesBelow(writtenRanges, out.pos)) ==> RangesBelow(writtenRanges, out.pos)
        invariant out.failures == old(out.failures)
      {
        UpdateSegmentOffset(i, base, old(segments), regular);
        r := WriteCommand(EncodeSegment(segments[i].cmd), out, old(out.data), old(out.pos), SegmentCodes(segments[..i]));
        if r != Done {
          return;
        }
        CodesStep([], segments, [], i);
      }
      assert segments[..|segments|] == segments;
      return Done;
    }

    /** Writes one more piece of a payload that starts at `start`. */
    method WritePiece(data: Option<seq<byte>>, size: nat, out: OStream,
                      ghost before: seq<byte>, ghost start: nat, ghost written: seq<byte>) returns (r: Outcome)
      requires data.Some? ==> |data.value| == size
      requires WrittenFrom(before, start, written, out.data, out.pos)
      modifies this`writtenRanges, out
      ensures r == Done ==>
                && (data.None? ==> size == 0)
                && WrittenFrom(before, start, written + (if data.Some? then data.value else []), out.data, out.pos)
      ensures old(RangesBelow(writtenRanges, out.pos)) ==>
                r != WouldOverwrite && (r == Done ==> RangesBelow(writtenRanges, out.pos))
      ensures out.failures == old(out.failures) + if r == Refused && (data.Some? || size == 0) then 1 else 0
      ensures r == WouldOverwrite ==> debug
    {
      OverwriteJoin(before, start, written, if data.Some? then data.value else []);
      r := WriteToOStream(data, size, out);
    }

    /** Writes chunks until one cannot be read; returns how many bytes that made. */
    method WriteChunks(p: DataProvider, chunkSize: uint64, iters: nat, out: OStream) returns (r: Outcome, offset: nat)
      requires p.Valid() && Span(iters, chunkSize) <= p.size
      modifies this`writtenRanges, out, p.Reader()`currentCopy
      ensures offset <= Span(iters, chunkSize)
      ensures r == Done ==>
                && offset == |ReadableChunks(p, 0, chunkSize, iters)|
                && WrittenFrom(old(out.data), old(out.pos), ReadableChunks(p, 0, chunkSize, iters), out.data, out.pos)
      ensures old(RangesBelow(writtenRanges, out.pos)) ==>
                r != WouldOverwrite && (r == Done ==> RangesBelow(writtenRanges, out.pos))
      ensures out.failures == old(out.failures) + if r == Refused then 1 else 0
      ensures r == WouldOverwrite ==> debug
    {
      assert WrittenFrom(out.data, out.pos, [], out.data, out.pos);
      hide WrittenFrom, DataProvider.Piece, DataProvider.Valid, RangesBelow;
      offset := 0;
      ghost var written: seq<byte>, rest := [], ReadableChunks(p, 0, chunkSize, iters);
      var i := 0;
      ghost var left := iters;
      assert written + rest == rest;
      while i < iters
        invariant 0 <= i <= iters && left == iters - i
        invariant offset == |written| && offset + Span(left, chunkSize) == Span(iters, chunkSize)
        invariant rest == ReadableChunks(p, offset, chunkSize, left)
        invariant ReadableChunks(p, 0, chunkSize, iters) == written + rest
        invariant WrittenFrom(old(out.data), old(out.pos), written, out.data, out.pos)
        invariant old(RangesBelow(writtenRanges, out.pos)) ==> RangesBelow(writtenRanges, out.pos)
        invariant out.failures == old(out.failures)
      {
        ChunkStep(p, offset, chunkSize, left);
        var data := GetPiece(p, offset, chunkSize);
        if data.None? {
          assert written + [] == written;
          return Done, offset;
        }
        r := WritePiece(data, chunkSize, out, old(out.data), old(out.pos), written);
        if r != Done {
          return;
        }
        left := left - 1;
        rest := ReadableChunks(p, offset + chunkSize, chunkSize, left);
        Associates(written, data.value, rest);
        written, offset := written + data.value, offset + chunkSize;
        i := i + 1;
      }
      assert written + [] == written;
      r := Done;
    }

    /** Writes the data of one segment at the current position, a chunk at a time. */
    method WriteSegmentPayload(e: SegmentEntry, out: OStream) returns (r: Outcome)
      requires SegmentOk(e) && e.data.Some? && e.data.value.size > 0
      modifies this`writtenRanges, out, Reader(e)`currentCopy
      ensures r == Done ==>
                && SegmentBytes(e.data.value).Some?
                && WrittenFrom(old(out.data), old(out.pos), SegmentPayload(e), out.data, out.pos)
      ensures old(RangesBelow(writtenRanges, out.pos)) ==>
                r != WouldOverwrite && (r == Done ==> RangesBelow(writtenRanges, out.pos))
      ensures r != Refused ==> out.failures == old(out.failures)
      ensures r == Refused ==> out.failures > old(out.failures) || !Writable(e)
      ensures r == WouldOverwrite ==> debug
    {
      var p := e.data.value;
      var chunkSize := ChunkSize(p.size);
      ChunkArithmetic(p.size);
      var leftOver, iters := p.size % chunkSize, p.size / chunkSize;
      var offset;
      r, offset := WriteChunks(p, chunkSize, iters, out);
      if r != Done {
        return;
      }
      ghost var chunks := ReadableChunks(p, 0, chunkSize, iters);
      p.PieceIsData(offset, leftOver);
      var data := GetPiece(p, offset, leftOver);
      r := WritePiece(data, leftOver, out, old(out.data), old(out.pos), chunks);
      assert chunks + [] == chunks;
    }

    /** Writes the payload of note i where the lookup by its owner says. */
    method WriteNotePayload(i: nat, ghost base: nat, ghost regular: bool, out: OStream) returns (r: Outcome)
      requires finalized && i < |notes| && PayloadsReady(notes, segments)
      requires base == NoteBase(header.sizeofcmds)
      requires regular ==> NotesRegular(base, notes)
      modifies this`writtenRanges, out
      ensures r == Done && regular ==>
                && out.data == Overwrite(old(out.data), notes[i].cmd.offset, NotePayload(notes[i]))
                && out.pos == notes[i].cmd.offset + notes[i].cmd.size
      ensures regular && old(RangesBelow(writtenRanges, out.pos)) && old(out.pos) <= notes[i].cmd.offset ==>
                r != WouldOverwrite && (r == Done ==> RangesBelow(writtenRanges, out.pos))
      ensures r != Refused ==> out.failures == old(out.failures)
      ensures r == Refused ==> out.failures > old(out.failures) || !HasBytes(notes[i])
      ensures r == WouldOverwrite ==> debug
    {
      if regular {
        NoteLookupIsPositional(notes, i);
      }
      var offset := GetOffsetForNoteCommandPayload(OwnerString(notes[i].cmd));
      if offset.Some? {
        out.SetPosition(offset.value);
      }
      r := WriteToOStream(notes[i].data.value.Whole(), notes[i].cmd.size, out);
    }

    method WriteNotePayloads(ghost base: nat, ghost regular: bool, out: OStream) returns (r: Outcome)
      requires finalized && PayloadsReady(notes, segments)
      requires base == NoteBase(header.sizeofcmds)
      requires regular ==> NotesRegular(base, notes)
      modifies this`writtenRanges, out
      ensures r == Done && regular ==> out.data == Replay(old(out.data), NoteWrites(notes))
      ensures regular && NotesExact(base, notes) && old(RangesBelow(writtenRanges, out.pos)) && old(out.pos) <= base ==>
                r != WouldOverwrite
                && (r == Done ==> RangesBelow(writtenRanges, out.pos) && out.pos <= NoteOffset(base, notes, |notes|))
      ensures r != Refused ==> out.failures == old(out.failures)
      ensures r == Refused ==> out.failures > old(out.failures) || !AllHaveBytes(notes)
      ensures r == WouldOverwrite ==> debug
    {
      ghost var writes := NoteWrites(notes);
      ghost var safe := regular && NotesExact(base, notes) && RangesBelow(writtenRanges, out.pos) && out.pos <= base;
      assert writes[..0] == [];
      for i := 0 to |notes|
        invariant regular ==> out.data == Replay(old(out.data), writes[..i])
        invariant safe ==> RangesBelow(writtenRanges, out.pos) && out.pos <= NoteOffset(base, notes, i)
        invariant out.failures == old(out.failures)
      {
        r := WriteNotePayload(i, base, regular, out);
        if r != Done {
          return;
        }
        ReplayStep(old(out.data), writes, i);
      }
      assert writes[..|notes|] == writes;
      r := Done;
    }

    /** Writes the payload of segment i where the lookup by its address says. */
    method WriteSegmentAt(i: nat, ghost base: nat, ghost regular: bool, out: OStream) returns (r: Outcome)
      requires finalized && i < |segments| && PayloadsReady(notes, segments)
      requires base == SegmentBase64(NoteBase(header.sizeofcmds), notes)
      requires regular ==> SegmentsRegular(base, segments)
      modifies this`writtenRanges, out, Reader(segments[i])`currentCopy
      ensures r == Done ==> Writable(segments[i])
      ensures r == Done && regular ==>
                && out.data == Overwrite(old(out.data), segments[i].cmd.fileoff, SegmentPayload(segments[i]))
                && out.pos <= segments[i].cmd.fileoff + segments[i].cmd.filesize
      ensures regular && old(RangesBelow(writtenRanges, out.pos)) && old(out.pos) <= segments[i].cmd.fileoff ==>
                r != WouldOverwrite && (r == Done ==> RangesBelow(writtenRanges, out.pos))
      ensures r != Refused ==> out.failures == old(out.failures)
      ensures r == Refused ==> out.failures > old(out.failures) || !Writable(segments[i])
      ensures r == WouldOverwrite ==> debug
    {
      if regular {
        SegmentLookupIsPositional(segments, i);
      }
      PayloadNotLonger(segments[i]);
      var offset := GetOffsetForSegmentCommandPayload(segments[i].cmd.vmaddr);
      if offset.Some? {
        out.SetPosition(offset.value);
      }
      r := WriteSegmentPayload(segments[i], out);
    }

    method WriteSegmentPayloads(ghost base: nat, ghost regular: bool, out: OStream) returns (r: Outcome)
      requires finalized && PayloadsReady(notes, segments)
      requires base == SegmentBase64(NoteBase(header.sizeofcmds), notes)
      requires regular ==> SegmentsRegular(base, segments)
      modifies this`writtenRanges, out, Readers(segments)`currentCopy
      ensures r == Done ==> AllWritable(segments, |segments|)
      ensures r == Done && regular ==> out.data == Replay(old(out.data), SegmentWrites(segments))
      ensures regular && SegmentsExact(base, segments) && old(RangesBelow(writtenRanges, out.pos)) && old(out.pos) <= base
              ==> r != WouldOverwrite
      ensures r != Refused ==> out.failures == old(out.failures)
      ensures r == Refused ==> out.failures > old(out.failures) || !AllWritable(segments, |segments|)
      ensures r == WouldOverwrite ==> debug
    {
      hide SegmentBase64, PayloadsReady, SegmentsRegular, SegmentPayload, SegmentBytes, Writable, RangesBelow, SegmentBase,
           Replay, Overwrite;
      ghost var writes := SegmentWrites(segments);
      ghost var safe :=
        regular && SegmentsExact(base, segments) && RangesBelow(writtenRanges, out.pos) && out.pos <= base;
      ReplayNothing(out.data, writes);
      for i := 0 to |segments|
        invariant AllWritable(segments, i)
        invariant regular ==> out.data == Replay(old(out.data), writes[..i])
        invariant safe ==> RangesBelow(writtenRanges, out.pos) && out.pos <= SegmentOffset(base, segments, i)
        invariant out.failures == old(out.failures)
      {
        ReaderAmongReaders(segments, i);
        r := WriteSegmentAt(i, base, regular, out);
        if r != Done {
          return;
        }
        ReplayStep(old(out.data), writes, i);
      }
      ReplayAll(old(out.data), writes);
      r := Done;
    }

    /** Header and commands, back to back from the current stream position. */
    method WriteHead(out: OStream) returns (r: Outcome)
      requires finalized && PayloadsReady(notes, segments)
      modifies this`notes, this`segments, this`writtenRanges, out
      ensures SameNotes(notes, old(notes)) && SameSegments(segments, old(segments))
      ensures r == Done && OwnersDistinct(old(notes)) ==>
                notes == PlacedNotes(NoteBase(header.sizeofcmds), old(notes), |notes|)
      ensures r == Done && AddressesDistinct(old(segments)) ==>
                segments == PlacedSegments(SegmentBase64(NoteBase(header.sizeofcmds), notes), old(segments), |segments|)
      ensures r == Done ==>
                WrittenFrom(old(out.data), old(out.pos), Head(header, notes, threads, segments), out.data, out.pos)
      ensures old(RangesBelow(writtenRanges, out.pos)) ==>
                r != WouldOverwrite && (r == Done ==> RangesBelow(writtenRanges, out.pos))
      ensures out.failures == old(out.failures) + if r == Refused then 1 else 0
      ensures r == WouldOverwrite ==> debug
    {
      hide NoteBase, SegmentBase64, PlacedNotes, PlacedSegments, OwnersDistinct, AddressesDistinct, EncodeHeader;
      r := WriteToOStream(Some(EncodeHeader(header)), HEADER_SIZE, out);
      if r != Done {
        return;
      }
      ghost var data1, pos1 := out.data, out.pos;
      r := WriteNoteCommands(out);
      if r != Done {
        return;
      }
      ghost var data2, pos2 := out.data, out.pos;
      r := WriteThreadCommands(out);
      if r != Done {
        return;
      }
      ghost var data3, pos3 := out.data, out.pos;
      SameNotesDataKnown(notes, old(notes));
      r := WriteSegmentCommands(out);
      if r != Done {
        return;
      }
      HeadParts(old(out.data), old(out.pos), header, notes, threads, segments,
                data1, data2, data3, out.data, pos1, pos2, pos3, out.pos);
    }

    /** All payloads, those of the notes first. */
    method WritePayloads(ghost base: nat, ghost segmentBase: nat, ghost regular: bool, out: OStream) returns (r: Outcome)
      requires finalized && PayloadsReady(notes, segments)
      requires base == NoteBase(header.sizeofcmds) && segmentBase == SegmentBase64(base, notes)
      requires regular ==> NotesRegular(base, notes) && SegmentsRegular(segmentBase, segments)
      modifies this`writtenRanges, out, Readers(segments)`currentCopy
      ensures r != Refused ==> out.failures == old(out.failures)
      ensures r == Refused ==>
                out.failures > old(out.failures) || !AllWritable(segments, |segments|) || !AllHaveBytes(notes)
      ensures r == Done ==> AllWritable(segments, |segments|)
      ensures r == Done && regular ==>
                out.data == Replay(Replay(old(out.data), NoteWrites(notes)), SegmentWrites(segments))
      ensures regular && NotesExact(base, notes) && SegmentsExact(segmentBase, segments)
              && NoteOffset(base, notes, |notes|) <= segmentBase
              && old(RangesBelow(writtenRanges, out.pos)) && old(out.pos) <= base
              ==> r != WouldOverwrite
      ensures r == WouldOverwrite ==> debug
    {
      hide *;
      r := WriteNotePayloads(base, regular, out);
      if r == Done {
        r := WriteSegmentPayloads(segmentBase, regular, out);
      }
    }

    /**
     The whole file. If the build succeeds and all keys are distinct, the stream has taken exactly
     the writes of the layout; and a build of a fitting file from position 0 never trips over its own
     overwrite check.
     */
    method Build(out: OStream) returns (r: Outcome)
      requires PayloadsReady(notes, segments)
      modifies this, out, Readers(segments)`currentCopy
      ensures finalized && threads == old(threads)
      ensures SameNotes(notes, old(notes)) && SameSegments(segments, old(segments))
      ensures old(finalized) ==> header == old(header)
      ensures !old(finalized) ==>
                HeaderCounts() && header == old(header).(ncmds := header.ncmds, sizeofcmds := header.sizeofcmds)
      ensures r == Done ==> AllWritable(segments, |segments|)
      ensures r == Done && OwnersDistinct(old(notes)) && AddressesDistinct(old(segments)) ==>
                var base := NoteBase(header.sizeofcmds);
                && notes == PlacedNotes(base, old(notes), |notes|)
                && segments == PlacedSegments(SegmentBase64(base, notes), old(segments), |segments|)
                && out.data == Replay(old(out.data), FileWrites(old(out.pos), header, notes, threads, segments))
      ensures old(out.pos) == 0 && OwnersDistinct(old(notes)) && AddressesDistinct(old(segments))
              && Fits(old(notes), |threads|, old(segments)) && HeaderCounts()
              ==> r != WouldOverwrite
      ensures r != Refused ==> out.failures == old(out.failures)
      ensures r == Refused ==>
                out.failures > old(out.failures) || !AllWritable(segments, |segments|) || !AllHaveBytes(notes)
      ensures r == WouldOverwrite ==> debug
    {
      hide NoteBase, SegmentBase64, OwnersDistinct, AddressesDistinct, PlacedNotes,
           PlacedSegments, NotesRegular, SegmentsRegular, NotesExact, SegmentsExact, PayloadsReady, AllWritable, Fits,
           Head, NoteWrites, SegmentWrites, Overwrite, AllHaveBytes, FileWrites, CommandsSize, NoteOffset, SegmentBase, Placed,
           Reader, RoundUp, Low64, SegmentOffset, Writable;
      writtenRanges := [];
      FinalizeLoadCommands();
      ghost var distinct := OwnersDistinct(notes) && AddressesDistinct(segments);
      ghost var before, start := out.data, out.pos;
      r := WriteHead(out);
      if r != Done {
        return;
      }
      StillReady(old(notes), old(segments), notes, segments);
      ghost var base := NoteBase(header.sizeofcmds);
      ghost var segmentBase := SegmentBase64(base, notes);
      ghost var safe := distinct && start == 0 && Fits(old(notes), |threads|, old(segments)) && HeaderCounts();
      if distinct {
        PlacedIsRegular(base, segmentBase, old(notes), old(segments));
      }
      if safe {
        FittingIsExact(header, old(notes), threads, old(segments), notes, segments);
      }
      r := WritePayloads(base, segmentBase, distinct, out);
      if r == Done && distinct {
        FileParts(before, start, header, notes, threads, segments);
      }
    }
  }
}
