/** Where the parts of a core file go: pure functions of the commands, and what holds of them. */
module Layout {
  import opened Bytes
  import opened CStrings
  import opened MachO
  import opened DataAccess
  import opened Stream

  datatype NoteEntry = NoteEntry(cmd: NoteCommand, data: Option<DataProvider>)

  /** Register state of one thread as it follows the 8-byte command header. */
  type thread_state = s: seq<byte> | |s| == THREAD_SIZE - 8 witness Zeros(THREAD_SIZE - 8)

  datatype SegmentEntry = SegmentEntry(cmd: SegmentCommand, data: Option<DataProvider>)

  function EncodeThread(state: thread_state): (s: seq<byte>)
    ensures |s| == THREAD_SIZE
  {
    LE32(LC_THREAD) + LE32(THREAD_SIZE) + state
  }

  // ---------------------------------------------------------------- alignment

  function RoundUp(number: nat, roundTo: nat): nat
    requires roundTo > 0
  {
    if number % roundTo == 0 then number else (number / roundTo + 1) * roundTo
  }

  /** Both alignments in use give the least multiple that is not below the number. */
  lemma RoundUpIsLeast(number: nat)
    ensures RoundUp(number, 16) % 16 == 0 && number <= RoundUp(number, 16) < number + 16
    ensures RoundUp(number, 4096) % 4096 == 0 && number <= RoundUp(number, 4096) < number + 4096
  {
  }

  // ---------------------------------------------------------------- owner names

  /**
   What strcmp sees at the owner of a note: an owner that fills all 16 bytes has no terminator of
   its own, so the string runs on into the fields behind it.
   */
  function OwnerString(n: NoteCommand): seq<byte> {
    CString(n.owner + LE64(n.offset) + LE64(n.size))
  }

  lemma OwnerStringShape(n: NoteCommand)
    ensures 0 in n.owner ==> OwnerString(n) == CString(n.owner) && |OwnerString(n)| < 16
    ensures 0 !in n.owner ==> |OwnerString(n)| >= 16 && OwnerString(n)[..16] == n.owner
  {
    var full := n.owner + LE64(n.offset) + LE64(n.size);
    assert full[..16] == n.owner;
    var i := NulIndex(n.owner);
    if 0 in n.owner {
      assert i < 16;
      assert full[..i] == n.owner[..i];
      CStringCut(full, i);
    } else {
      var k := NulIndex(full);
      assert forall j :: 0 <= j < 16 ==> full[j] == n.owner[j];
      assert full[..k][..16] == n.owner;
    }
  }

  /** Notes with different owners never look alike to strcmp, whatever their other fields hold. */
  lemma OwnerStringsDiffer(a: NoteCommand, b: NoteCommand)
    requires Padded(a.owner) && Padded(b.owner)
    requires OwnerString(a) == OwnerString(b)
    ensures a.owner == b.owner
  {
    OwnerStringShape(a);
    OwnerStringShape(b);
  }

  /** Before its offset is set, a note is found under its own name. */
  lemma OwnerStringBeforeOffset(n: NoteCommand)
    requires n.offset == 0
    ensures OwnerString(n) == CString(n.owner)
  {
    var full := n.owner + LE64(n.offset) + LE64(n.size);
    OwnerStringShape(n);
    if 0 !in n.owner {
      assert full[..16] == n.owner;
      assert LE64(0)[0] == 0;
      assert full[16] == LE64(0)[0];
      CStringCut(full, 16);
      assert n.owner[..16] == n.owner;
      CStringCut(n.owner, 16);
    }
  }

  // ---------------------------------------------------------------- lookup by key

  /** Index of the first note with that name, or the number of notes. */
  function FirstNote(notes: seq<NoteEntry>, name: seq<byte>): (i: nat)
    ensures i <= |notes|
  {
    FirstNoteFrom(notes, name, 0)
  }

  function FirstNoteFrom(notes: seq<NoteEntry>, name: seq<byte>, from: nat): (i: nat)
    requires from <= |notes|
    ensures from <= i <= |notes|
    decreases |notes| - from
  {
    if from == |notes| || OwnerString(notes[from].cmd) == name then from else FirstNoteFrom(notes, name, from + 1)
  }

  /** A note with that name exists at k and not before exactly when the lookup ends at k. */
  lemma {:induction false} FirstNoteMatches(notes: seq<NoteEntry>, name: seq<byte>, from: nat, k: nat)
    requires from <= k < |notes|
    ensures FirstNoteFrom(notes, name, from) == k
            <==> OwnerString(notes[k].cmd) == name && forall j :: from <= j < k ==> OwnerString(notes[j].cmd) != name
    decreases k - from
  {
    if from < k {
      FirstNoteMatches(notes, name, from + 1, k);
    }
  }

  lemma {:induction false} FirstNoteFound(notes: seq<NoteEntry>, name: seq<byte>, from: nat, k: nat)
    requires from <= k < |notes| && OwnerString(notes[k].cmd) == name
    ensures FirstNoteFrom(notes, name, from) <= k
    decreases k - from
  {
    if from < k {
      FirstNoteFound(notes, name, from + 1, k);
    }
  }

  function FirstSegment(segments: seq<SegmentEntry>, vmaddr: uint64): (i: nat)
    ensures i <= |segments|
  {
    FirstSegmentFrom(segments, vmaddr, 0)
  }

  function FirstSegmentFrom(segments: seq<SegmentEntry>, vmaddr: uint64, from: nat): (i: nat)
    requires from <= |segments|
    ensures from <= i <= |segments|
    decreases |segments| - from
  {
    if from == |segments| || segments[from].cmd.vmaddr == vmaddr then from
    else FirstSegmentFrom(segments, vmaddr, from + 1)
  }

  lemma {:induction false} FirstSegmentMatches(segments: seq<SegmentEntry>, vmaddr: uint64, from: nat, k: nat)
    requires from <= k < |segments|
    ensures FirstSegmentFrom(segments, vmaddr, from) == k
            <==> segments[k].cmd.vmaddr == vmaddr && forall j :: from <= j < k ==> segments[j].cmd.vmaddr != vmaddr
    decreases k - from
  {
    if from < k {
      FirstSegmentMatches(segments, vmaddr, from + 1, k);
    }
  }

  predicate OwnersDistinct(notes: seq<NoteEntry>) {
    && (forall i :: 0 <= i < |notes| ==> Padded(notes[i].cmd.owner))
    && (forall i, j :: 0 <= i < j < |notes| ==> notes[i].cmd.owner != notes[j].cmd.owner)
  }

  predicate AddressesDistinct(segments: seq<SegmentEntry>) {
    forall i, j :: 0 <= i < j < |segments| ==> segments[i].cmd.vmaddr != segments[j].cmd.vmaddr
  }

  lemma NoteLookupIsPositional(notes: seq<NoteEntry>, i: nat)
    requires OwnersDistinct(notes) && i < |notes|
    ensures FirstNote(notes, OwnerString(notes[i].cmd)) == i
  {
    forall j | 0 <= j < i
      ensures OwnerString(notes[j].cmd) != OwnerString(notes[i].cmd)
    {
      if OwnerString(notes[j].cmd) == OwnerString(notes[i].cmd) {
        OwnerStringsDiffer(notes[j].cmd, notes[i].cmd);
      }
    }
    FirstNoteMatches(notes, OwnerString(notes[i].cmd), 0, i);
  }

  lemma SegmentLookupIsPositional(segments: seq<SegmentEntry>, i: nat)
    requires AddressesDistinct(segments) && i < |segments|
    ensures FirstSegment(segments, segments[i].cmd.vmaddr) == i
  {
    FirstSegmentMatches(segments, segments[i].cmd.vmaddr, 0, i);
  }

  // ---------------------------------------------------------------- offsets

  function CommandsSize(notes: nat, threads: nat, segments: nat): nat {
    NOTE_SIZE * notes + THREAD_SIZE * threads + SEGMENT_SIZE * segments
  }

  function NoteSum(notes: seq<NoteEntry>, i: nat): nat
    requires i <= |notes|
  {
    if i == 0 then 0 else NoteSum(notes, i - 1) + notes[i - 1].cmd.size
  }

  function SegmentSum(segments: seq<SegmentEntry>, i: nat): nat
    requires i <= |segments|
  {
    if i == 0 then 0 else SegmentSum(segments, i - 1) + segments[i - 1].cmd.filesize
  }

  /** The first note payload is aligned to 16 bytes. */
  function NoteBase(sizeofcmds: nat): nat {
    RoundUp(HEADER_SIZE + sizeofcmds, 16)
  }

  function NoteOffset(base: nat, notes: seq<NoteEntry>, i: nat): nat
    requires i <= |notes|
  {
    base + NoteSum(notes, i)
  }

  /** The first segment payload is aligned to 4096 bytes. */
  function SegmentBase(notesEnd: nat): nat {
    RoundUp(notesEnd, 4096)
  }

  function SegmentOffset(base: nat, segments: seq<SegmentEntry>, i: nat): nat
    requires i <= |segments|
  {
    base + SegmentSum(segments, i)
  }

  lemma {:induction false} NoteSumMonotone(notes: seq<NoteEntry>, i: nat, j: nat)
    requires i <= j <= |notes|
    ensures NoteSum(notes, i) <= NoteSum(notes, j)
    ensures i < j ==> NoteSum(notes, i) + notes[i].cmd.size <= NoteSum(notes, j)
  {
    if i < j {
      NoteSumMonotone(notes, i, j - 1);
    }
  }

  lemma {:induction false} SegmentSumMonotone(segments: seq<SegmentEntry>, i: nat, j: nat)
    requires i <= j <= |segments|
    ensures SegmentSum(segments, i) <= SegmentSum(segments, j)
    ensures i < j ==> SegmentSum(segments, i) + segments[i].cmd.filesize <= SegmentSum(segments, j)
  {
    if i < j {
      SegmentSumMonotone(segments, i, j - 1);
    }
  }

  /** Offsets only depend on the sizes that come earlier. */
  lemma {:induction false} NoteSumPrefix(a: seq<NoteEntry>, b: seq<NoteEntry>, i: nat)
    requires i <= |a| && i <= |b|
    requires forall k :: 0 <= k < i ==> a[k].cmd.size == b[k].cmd.size
    ensures NoteSum(a, i) == NoteSum(b, i)
  {
    if i > 0 {
      NoteSumPrefix(a, b, i - 1);
    }
  }

  lemma {:induction false} SegmentSumPrefix(a: seq<SegmentEntry>, b: seq<SegmentEntry>, i: nat)
    requires i <= |a| && i <= |b|
    requires forall k :: 0 <= k < i ==> a[k].cmd.filesize == b[k].cmd.filesize
    ensures SegmentSum(a, i) == SegmentSum(b, i)
  {
    if i > 0 {
      SegmentSumPrefix(a, b, i - 1);
    }
  }

  /** Where a file with these commands ends. */
  function FileEnd(notes: seq<NoteEntry>, threads: nat, segments: seq<SegmentEntry>): nat {
    var notesEnd := NoteOffset(NoteBase(CommandsSize(|notes|, threads, |segments|)), notes, |notes|);
    SegmentOffset(SegmentBase(notesEnd), segments, |segments|)
  }

  /** The 32-bit size of all commands and the 64-bit end of the file both hold what they should. */
  predicate Fits(notes: seq<NoteEntry>, threads: nat, segments: seq<SegmentEntry>) {
    CommandsSize(|notes|, threads, |segments|) < UINT32_MOD && FileEnd(notes, threads, segments) < UINT64_MOD
  }

  // ---------------------------------------------------------------- contents

  function NoteCodes(notes: seq<NoteEntry>): seq<seq<byte>> {
    seq(|notes|, i requires 0 <= i < |notes| => EncodeNote(notes[i].cmd))
  }

  function ThreadCodes(threads: seq<thread_state>): seq<seq<byte>> {
    seq(|threads|, i requires 0 <= i < |threads| => EncodeThread(threads[i]))
  }

  function SegmentCodes(segments: seq<SegmentEntry>): seq<seq<byte>> {
    seq(|segments|, i requires 0 <= i < |segments| => EncodeSegment(segments[i].cmd))
  }

  function CommandCodes(notes: seq<NoteEntry>, threads: seq<thread_state>, segments: seq<SegmentEntry>)
    : seq<seq<byte>>
  {
    NoteCodes(notes) + ThreadCodes(threads) + SegmentCodes(segments)
  }

  /** Header and commands: the beginning of the file. */
  function Head(header: Header, notes: seq<NoteEntry>, threads: seq<thread_state>, segments: seq<SegmentEntry>)
    : seq<byte>
  {
    EncodeHeader(header) + Flatten(CommandCodes(notes, threads, segments))
  }

  function NotePayload(e: NoteEntry): seq<byte> {
    if e.data.Some? && e.data.value.Whole().Some? then e.data.value.Whole().value else []
  }

  function SegmentPayload(e: SegmentEntry): seq<byte> {
    if e.data.Some? && e.data.value.size > 0 && SegmentBytes(e.data.value).Some?
    then SegmentBytes(e.data.value).value else []
  }

  function NoteWrite(e: NoteEntry): Write {
    Write(e.cmd.offset, NotePayload(e))
  }

  function SegmentWrite(e: SegmentEntry): Write {
    Write(e.cmd.fileoff, SegmentPayload(e))
  }

  function NoteWrites(notes: seq<NoteEntry>): seq<Write> {
    seq(|notes|, i requires 0 <= i < |notes| => NoteWrite(notes[i]))
  }

  function SegmentWrites(segments: seq<SegmentEntry>): seq<Write> {
    seq(|segments|, i requires 0 <= i < |segments| => SegmentWrite(segments[i]))
  }

  /** Everything a build writes, starting at stream position `pos`. */
  function FileWrites(pos: nat, header: Header, notes: seq<NoteEntry>, threads: seq<thread_state>,
                      segments: seq<SegmentEntry>): seq<Write>
  {
    [Write(pos, Head(header, notes, threads, segments))] + NoteWrites(notes) + SegmentWrites(segments)
  }

  lemma CommandCodesSize(notes: seq<NoteEntry>, threads: seq<thread_state>, segments: seq<SegmentEntry>)
    ensures |Flatten(NoteCodes(notes))| == NOTE_SIZE * |notes|
    ensures |Flatten(ThreadCodes(threads))| == THREAD_SIZE * |threads|
    ensures |Flatten(SegmentCodes(segments))| == SEGMENT_SIZE * |segments|
    ensures |Flatten(CommandCodes(notes, threads, segments))| == CommandsSize(|notes|, |threads|, |segments|)
  {
    EqualWidths(NoteCodes(notes), NOTE_SIZE);
    EqualWidths(ThreadCodes(threads), THREAD_SIZE);
    EqualWidths(SegmentCodes(segments), SEGMENT_SIZE);
    FlattenConcat(NoteCodes(notes) + ThreadCodes(threads), SegmentCodes(segments));
    FlattenConcat(NoteCodes(notes), ThreadCodes(threads));
  }

  /** Every entry carries its final offset, and no payload is longer than its command says. */
  predicate Placed(noteBase: nat, segmentBase: nat, notes: seq<NoteEntry>, segments: seq<SegmentEntry>) {
    && (forall i :: 0 <= i < |notes| ==> notes[i].cmd.offset == NoteOffset(noteBase, notes, i))
    && (forall i :: 0 <= i < |segments| ==> segments[i].cmd.fileoff == SegmentOffset(segmentBase, segments, i))
    && (forall i :: 0 <= i < |notes| ==> |NotePayload(notes[i])| <= notes[i].cmd.size)
    && (forall i :: 0 <= i < |segments| ==> |SegmentPayload(segments[i])| <= segments[i].cmd.filesize)
  }

  predicate Within(ws: seq<Write>, lo: nat, hi: nat) {
    forall i :: 0 <= i < |ws| ==> lo <= ws[i].offset && ws[i].offset + |ws[i].bytes| <= hi
  }

  lemma OrderedConcat(a: seq<Write>, b: seq<Write>, lo: nat, mid: nat, hi: nat)
    requires Ordered(a) && Ordered(b) && Within(a, lo, mid) && Within(b, mid, hi) && lo <= mid <= hi
    ensures Ordered(a + b) && Within(a + b, lo, hi)
  {
    var ws := a + b;
    forall i, j | 0 <= i < j < |ws|
      ensures ws[i].offset + |ws[i].bytes| <= ws[j].offset
    {
      if i < |a| <= j {
        assert ws[i] == a[i] && ws[j] == b[j - |a|];
      }
    }
  }

  lemma NoteWritesOrdered(base: nat, segmentBase: nat, notes: seq<NoteEntry>, segments: seq<SegmentEntry>)
    requires Placed(base, segmentBase, notes, segments)
    ensures Ordered(NoteWrites(notes))
    ensures Within(NoteWrites(notes), base, NoteOffset(base, notes, |notes|))
  {
    var ws := NoteWrites(notes);
    forall i, j | 0 <= i < j <= |ws|
      ensures base <= ws[i].offset && ws[i].offset + |ws[i].bytes| <= NoteOffset(base, notes, j)
    {
      NoteSumMonotone(notes, i, j);
    }
  }

  lemma SegmentWritesOrdered(noteBase: nat, base: nat, notes: seq<NoteEntry>, segments: seq<SegmentEntry>)
    requires Placed(noteBase, base, notes, segments)
    ensures Ordered(SegmentWrites(segments))
    ensures Within(SegmentWrites(segments), base, SegmentOffset(base, segments, |segments|))
  {
    var ws := SegmentWrites(segments);
    forall i, j | 0 <= i < j <= |ws|
      ensures base <= ws[i].offset && ws[i].offset + |ws[i].bytes| <= SegmentOffset(base, segments, j)
    {
      SegmentSumMonotone(segments, i, j);
    }
  }

  /** Header, commands, note payloads and segment payloads occupy disjoint extents, in this order. */
  lemma LayoutIsOrdered(header: Header, notes: seq<NoteEntry>, threads: seq<thread_state>, segments: seq<SegmentEntry>,
                        noteBase: nat, segmentBase: nat)
    requires noteBase == NoteBase(CommandsSize(|notes|, |threads|, |segments|))
    requires segmentBase == SegmentBase(NoteOffset(noteBase, notes, |notes|))
    requires Placed(noteBase, segmentBase, notes, segments)
    ensures Ordered(FileWrites(0, header, notes, threads, segments))
  {
    var notesEnd, end := NoteOffset(noteBase, notes, |notes|), SegmentOffset(segmentBase, segments, |segments|);
    CommandCodesSize(notes, threads, segments);
    RoundUpIsLeast(HEADER_SIZE + CommandsSize(|notes|, |threads|, |segments|));
    RoundUpIsLeast(notesEnd);
    NoteWritesOrdered(noteBase, segmentBase, notes, segments);
    SegmentWritesOrdered(noteBase, segmentBase, notes, segments);
    var head := [Write(0, Head(header, notes, threads, segments))];
    OrderedConcat(head, NoteWrites(notes), 0, noteBase, notesEnd);
    assert Within(head + NoteWrites(notes), 0, segmentBase);
    OrderedConcat(head + NoteWrites(notes), SegmentWrites(segments), 0, segmentBase, end);
  }
}
