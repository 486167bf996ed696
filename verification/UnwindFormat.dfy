/** The unwind table as it lies in memory, word by word; the lookup finds in it what a scan of its functions finds. */
module UnwindFormat {
  import opened Bytes
  import opened DataAccess
  import opened Unwind
  import opened UnwindOffsets

  /** A 32-bit number can be read at an address that wraps at 2^64. */
  predicate WordAt(mem: Memory, a: nat, w: uint32) {
    Readable(mem, Low64(a), 4) && Word(mem, Low64(a)) == w
  }

  ghost predicate WordsAt(mem: Memory, a: nat, ws: seq<uint32>) {
    forall i :: 0 <= i < |ws| ==> WordAt(mem, a + 4 * i, ws[i])
  }

  /** A regular entry is two words; a compressed one has the delta in its low 24 bits and the index above. */
  ghost predicate RegularAt(mem: Memory, a: uint64, fs: seq<RegularEntry>) {
    forall i :: 0 <= i < |fs| ==>
      var at: nat := Low64(a + 8 * i);
      Readable(mem, at, 8) && Word(mem, at) == fs[i].functionOffset && Word(mem, at + 4) == fs[i].encoding
  }

  ghost predicate CompressedAt(mem: Memory, a: uint64, es: seq<CompressedEntry>) {
    forall i :: 0 <= i < |es| ==>
      es[i].delta < 0x100_0000 && WordAt(mem, a + 4 * i, es[i].delta + 0x100_0000 * es[i].index)
  }

  /** A page: its kind, and the place and number of its entries in 16 bits each. */
  ghost predicate PageAt(mem: Memory, a: uint64, page: Page) {
    match page
    case Regular(entryOffset, fs) =>
      && Readable(mem, a, 12) && Word(mem, a) == 2 && Half(mem, a + 4) == entryOffset && Half(mem, a + 6) == |fs|
      && RegularAt(mem, Low64(a + entryOffset), fs)
    case Compressed(entryOffset, es, encodings) =>
      && Readable(mem, a, 12) && Word(mem, a) == 3 && Half(mem, a + 4) == entryOffset && Half(mem, a + 6) == |es|
      && CompressedAt(mem, Low64(a + entryOffset), es) && WordsAt(mem, a + Half(mem, a + 8), encodings)
    case Sentinel => true
    case Other => !WordAt(mem, a, 2) && !WordAt(mem, a, 3)
  }

  /** An index entry: first function and place of the page, which is 0 for none. */
  ghost predicate RowAt(mem: Memory, base: uint64, a: uint64, row: Row) {
    && Readable(mem, a, 12) && Word(mem, a) == row.start && (row.page == Sentinel <==> Word(mem, a + 4) == 0)
    && PageAt(mem, Low64(base + Word(mem, a + 4)), row.page)
  }

  /** Place and number of the common encodings lie at 4 and 8, those of the index at 20 and 24. */
  ghost predicate TableAt(mem: Memory, base: uint64, t: UnwindTable) {
    && Readable(mem, base, 28) && Word(mem, base + 8) == |t.common| && Word(mem, base + 24) == |t.rows|
    && WordsAt(mem, base + Word(mem, base + 4), t.common)
    && forall i {:trigger t.rows[i]} :: 0 <= i < |t.rows| ==>
         RowAt(mem, base, Low64(Low64(base + Word(mem, base + 20)) + 12 * i), t.rows[i])
  }

  lemma WordAtRead(mem: Memory, a: nat)
    ensures forall w: uint32 :: WordAt(mem, a, w) <==> ReadWord32(mem, Low64(a)) == Some(w)
  {
    hide Word, ReadWord32, Low64;
    WordRead(mem, Low64(a));
  }

  lemma WordsAreStored(mem: Memory, base: uint64, offset: uint32, ws: seq<uint32>)
    requires WordsAt(mem, base + offset, ws)
    ensures WordsStored(mem, base, offset, ws)
  {
    hide WordAt, ReadWord32, Low64;
    forall i | 0 <= i < |ws| ensures ReadWord32(mem, Add64(base, offset + i * 4)) == Some(ws[i]) {
      WordAtRead(mem, base + offset + 4 * i);
      assert WordAt(mem, base + offset + 4 * i, ws[i]);
    }
  }

  lemma RegularIsStoredAt(mem: Memory, a: uint64, fs: seq<RegularEntry>)
    requires RegularAt(mem, a, fs)
    ensures RegularStored(mem, a, fs)
  {
    hide ReadRegularEntry, Low64, Word;
    forall i | 0 <= i < |fs| ensures ReadRegularEntry(mem, Add64(a, i * REGULAR_ENTRY_SIZE)) == Some(fs[i]) {
      var f, at := fs[i], Low64(a + 8 * i);
      RegularEntryRead(mem, at);
    }
  }

  lemma CompressedIsStoredAt(mem: Memory, a: uint64, es: seq<CompressedEntry>)
    requires CompressedAt(mem, a, es)
    ensures CompressedStored(mem, a, es)
  {
    hide WordAt, ReadWord32, Low64;
    forall i | 0 <= i < |es|
      ensures es[i].delta < BITS_24 && ReadWord32(mem, Add64(a, i * 4)) == Some(es[i].delta + es[i].index * BITS_24)
    {
      WordAtRead(mem, a + 4 * i);
    }
  }

  lemma PageIsStored(mem: Memory, base: uint64, secondLevel: uint32, page: Page)
    requires page == Sentinel <==> secondLevel == 0
    requires PageAt(mem, Low64(base + secondLevel), page)
    ensures PageStored(mem, base, secondLevel, page)
  {
    hide WordAt, ReadWord32, Word, Half, RegularAt, CompressedAt, WordsAt, RegularStored, CompressedStored,
         WordsStored, ReadRegularHeader, ReadCompressedHeader, Low64;
    var a: uint64 := Low64(base + secondLevel);
    Low64Again(base + secondLevel);
    WordAtRead(mem, base + secondLevel);
    match page
    case Sentinel =>
    case Other =>
      OtherKind(mem, base + secondLevel);
    case Regular(entryOffset, fs) =>
      KindIs(mem, base + secondLevel);
      PageHeadersRead(mem, a);
      RegularIsStoredAt(mem, Low64(a + entryOffset), fs);
    case Compressed(entryOffset, es, encodings) =>
      KindIs(mem, base + secondLevel);
      PageHeadersRead(mem, a);
      CompressedIsStoredAt(mem, Low64(a + entryOffset), es);
      WordsAreStored(mem, a, Half(mem, a + 8), encodings);
  }

  lemma Low64Again(n: nat)
    ensures Low64(Low64(n)) == Low64(n)
  {
  }

  lemma KindIs(mem: Memory, a: nat)
    requires Readable(mem, Low64(a), 12)
    ensures WordAt(mem, a, Word(mem, Low64(a)))
  {
    hide Low64, Word;
  }

  lemma OtherKind(mem: Memory, a: nat)
    ensures forall w: uint32 :: WordAt(mem, Low64(a), w) <==> WordAt(mem, a, w)
  {
    Low64Again(a);
  }

  lemma RowIsStored(mem: Memory, base: uint64, index: uint64, i: nat, row: Row)
    requires RowAt(mem, base, Low64(index + 12 * i), row)
    ensures RowStored(mem, base, index, i, row)
  {
    hide PageAt, PageStored, ReadIndexEntry, Word, Low64;
    var a: nat := Low64(index + 12 * i);
    IndexEntryRead(mem, a);
    PageIsStored(mem, base, Word(mem, a + 4), row.page);
  }

  /** A table that lies there is one the lookup is made for. */
  lemma TableIsStored(mem: Memory, base: uint64, t: UnwindTable)
    requires TableAt(mem, base, t)
    ensures Stored(mem, base, t)
  {
    hide WordsAt, WordsStored, RowAt, RowStored, ReadSectionHeader, Word, Low64;
    SectionHeaderRead(mem, base);
    WordsAreStored(mem, base, Word(mem, base + 4), t.common);
    forall i | 0 <= i < |t.rows|
      ensures RowStored(mem, base, Low64(base + Word(mem, base + 20)), i, t.rows[i])
    {
      RowIsStored(mem, base, Low64(base + Word(mem, base + 20)), i, t.rows[i]);
    }
  }

  /** What an encoding says about the stack frame: bits 24 to 27 hold 2 for frameless functions and 4 for a frame. */
  lemma ModeRanges(encoding: uint32)
    ensures ModeOf(encoding) == Frameless <==> 0x200_0000 <= encoding % 0x1000_0000 < 0x300_0000
    ensures ModeOf(encoding) == HasFrame <==> 0x400_0000 <= encoding % 0x1000_0000 < 0x500_0000
  {
    var high, low := encoding / 0x1000_0000, encoding % 0x1000_0000;
    assert encoding / 0x100_0000 == 16 * high + low / 0x100_0000;
  }
}
