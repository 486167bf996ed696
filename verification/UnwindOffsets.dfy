/**
 The lookup does not read the entry offset in a page header. For every offset but the size of the header
 there is a stored table on which this matters.
 */
module UnwindOffsets {
  import opened Bytes
  import opened DataAccess
  import opened Unwind

  // ---------------------------------------------------------------- structures in memory

  lemma RegularEntryRead(mem: Memory, a: uint64)
    requires Readable(mem, a, REGULAR_ENTRY_SIZE)
    ensures ReadRegularEntry(mem, a) == Some(RegularEntry(Word(mem, a), Word(mem, a + 4)))
  {
    hide ReadProcessMemory, Field32, Field16, Half, Word;
    FieldsRead(mem, a, REGULAR_ENTRY_SIZE, 0);
    FieldsRead(mem, a, REGULAR_ENTRY_SIZE, 4);
  }

  lemma IndexEntryRead(mem: Memory, a: uint64)
    requires Readable(mem, a, INDEX_ENTRY_SIZE)
    ensures ReadIndexEntry(mem, a) == Some(IndexEntry(Word(mem, a), Word(mem, a + 4)))
  {
    hide ReadProcessMemory, Field32, Field16, Half, Word;
    FieldsRead(mem, a, INDEX_ENTRY_SIZE, 0);
    FieldsRead(mem, a, INDEX_ENTRY_SIZE, 4);
  }

  lemma SectionHeaderRead(mem: Memory, a: uint64)
    requires Readable(mem, a, SECTION_HEADER_SIZE)
    ensures ReadSectionHeader(mem, a)
            == Some(SectionHeader(Word(mem, a + 4), Word(mem, a + 8), Word(mem, a + 20), Word(mem, a + 24)))
  {
    hide ReadProcessMemory, Field32, Field16, Half, Word;
    FieldsRead(mem, a, SECTION_HEADER_SIZE, 4);
    FieldsRead(mem, a, SECTION_HEADER_SIZE, 8);
    FieldsRead(mem, a, SECTION_HEADER_SIZE, 20);
    FieldsRead(mem, a, SECTION_HEADER_SIZE, 24);
  }

  lemma PageHeadersRead(mem: Memory, a: uint64)
    requires Readable(mem, a, COMPRESSED_HEADER_SIZE)
    ensures ReadRegularHeader(mem, a) == Some(PageHeader(Half(mem, a + 4), Half(mem, a + 6), 0))
    ensures ReadCompressedHeader(mem, a) == Some(PageHeader(Half(mem, a + 4), Half(mem, a + 6), Half(mem, a + 8)))
  {
    hide ReadProcessMemory, Field32, Field16, Half, Word;
    FieldsRead(mem, a, REGULAR_HEADER_SIZE, 4);
    FieldsRead(mem, a, REGULAR_HEADER_SIZE, 6);
    FieldsRead(mem, a, COMPRESSED_HEADER_SIZE, 4);
    FieldsRead(mem, a, COMPRESSED_HEADER_SIZE, 6);
    FieldsRead(mem, a, COMPRESSED_HEADER_SIZE, 8);
  }

  // ---------------------------------------------------------------- a family of tables

  const PAGE: nat := 40               // behind the section header and one index entry
  const COMMON: nat := 0x2_0000       // one common encoding
  const MEMORY_SIZE: nat := 0x2_0004
  const FRAME_ENCODING: uint32 := 0x400_0000
  const KIND_ENCODING: uint32 := 3

  /**
   A page with one entry at `offset`: its header says so, and all bytes behind the header are zero but the
   one at `mark`.
   */
  function PageByte(kind: byte, offset: uint16, mark: nat, value: byte, x: nat): byte {
    if x == mark then value
    else if x == 0 then kind
    else if x == 4 then offset % 256
    else if x == 5 then offset / 256
    else if x == 6 then 1
    else 0
  }

  function PageWord(kind: byte, offset: uint16, mark: nat, value: byte, x: nat): uint32 {
    Four(PageByte(kind, offset, mark, value, x), PageByte(kind, offset, mark, value, x + 1),
         PageByte(kind, offset, mark, value, x + 2), PageByte(kind, offset, mark, value, x + 3))
  }

  /** Section header, index entry and common encoding around the page; the row starts at the page's word `at`. */
  function ByteOf(kind: byte, offset: uint16, mark: nat, value: byte, at: nat, a: nat): byte {
    if PAGE <= a < COMMON then PageByte(kind, offset, mark, value, a - PAGE)
    else if a == 6 then 2                            // offset of the common encodings
    else if a == 8 then 1                            // their number
    else if a == 20 then 28                          // offset of the index
    else if a == 24 then 1                           // its length
    else if 28 <= a < 32 then PageByte(kind, offset, mark, value, at + (a - 28))
    else if a == 32 then 40                          // section offset of the page
    else if a == COMMON + 3 then 4
    else 0
  }

  function MemoryOf(kind: byte, offset: uint16, mark: nat, value: byte, at: nat): Memory {
    map a: nat | a < MEMORY_SIZE :: ByteOf(kind, offset, mark, value, at, a)
  }

  lemma ByteRead(kind: byte, offset: uint16, mark: nat, value: byte, at: nat, a: nat)
    requires a < MEMORY_SIZE
    ensures a in MemoryOf(kind, offset, mark, value, at)
    ensures MemoryOf(kind, offset, mark, value, at)[a] == ByteOf(kind, offset, mark, value, at, a)
  {
    hide ByteOf;
  }

  lemma AllMapped(kind: byte, offset: uint16, mark: nat, value: byte, at: nat, a: nat, n: nat)
    requires a + n <= MEMORY_SIZE
    ensures Readable(MemoryOf(kind, offset, mark, value, at), a, n)
  {
    hide ByteOf;
  }

  /** A word of the memory from its four bytes. */
  lemma WordOf(kind: byte, offset: uint16, mark: nat, value: byte, at: nat, a: nat)
    requires a + 4 <= MEMORY_SIZE
    ensures var mem := MemoryOf(kind, offset, mark, value, at);
            Readable(mem, a, 4)
            && Word(mem, a) == Four(ByteOf(kind, offset, mark, value, at, a),
                                    ByteOf(kind, offset, mark, value, at, a + 1),
                                    ByteOf(kind, offset, mark, value, at, a + 2),
                                    ByteOf(kind, offset, mark, value, at, a + 3))
  {
    AllMapped(kind, offset, mark, value, at, a, 4);
    hide MemoryOf, ByteOf, Four;
    ByteRead(kind, offset, mark, value, at, a);
    ByteRead(kind, offset, mark, value, at, a + 1);
    ByteRead(kind, offset, mark, value, at, a + 2);
    ByteRead(kind, offset, mark, value, at, a + 3);
  }

  /** The section header and the only index entry, as they are read. */
  lemma SectionRead(kind: byte, offset: uint16, mark: nat, value: byte, at: nat)
    ensures var mem := MemoryOf(kind, offset, mark, value, at);
            && ReadSectionHeader(mem, 0) == Some(SectionHeader(COMMON, 1, 28, 1))
            && ReadIndexEntry(mem, 28) == Some(IndexEntry(PageWord(kind, offset, mark, value, at), PAGE))
            && ReadWord32(mem, COMMON) == Some(FRAME_ENCODING)
  {
    hide MemoryOf, Word, PageByte, ReadSectionHeader, ReadIndexEntry, ReadWord32, Readable;
    var mem := MemoryOf(kind, offset, mark, value, at);
    AllMapped(kind, offset, mark, value, at, 0, SECTION_HEADER_SIZE);
    AllMapped(kind, offset, mark, value, at, 28, INDEX_ENTRY_SIZE);
    SectionHeaderRead(mem, 0);
    IndexEntryRead(mem, 28);
    WordOf(kind, offset, mark, value, at, 4);
    WordOf(kind, offset, mark, value, at, 8);
    WordOf(kind, offset, mark, value, at, 20);
    WordOf(kind, offset, mark, value, at, 24);
    WordOf(kind, offset, mark, value, at, 28);
    WordOf(kind, offset, mark, value, at, 32);
    WordOf(kind, offset, mark, value, at, COMMON);
    WordRead(mem, COMMON);
  }

  lemma PageWordRead(kind: byte, offset: uint16, mark: nat, value: byte, at: nat, x: nat)
    requires x <= 0x1_0010
    ensures var mem := MemoryOf(kind, offset, mark, value, at);
            && Readable(mem, PAGE + x, 4) && Word(mem, PAGE + x) == PageWord(kind, offset, mark, value, x)
            && ReadWord32(mem, PAGE + x) == Some(PageWord(kind, offset, mark, value, x))
  {
    hide MemoryOf, Word, PageByte, Four, ReadWord32;
    WordOf(kind, offset, mark, value, at, PAGE + x);
    WordRead(MemoryOf(kind, offset, mark, value, at), PAGE + x);
  }

  lemma EntryRead(kind: byte, offset: uint16, mark: nat, value: byte, at: nat, x: nat)
    requires x <= 0x1_0000
    ensures ReadRegularEntry(MemoryOf(kind, offset, mark, value, at), PAGE + x)
            == Some(RegularEntry(PageWord(kind, offset, mark, value, x), PageWord(kind, offset, mark, value, x + 4)))
  {
    AllMapped(kind, offset, mark, value, at, PAGE + x, REGULAR_ENTRY_SIZE);
    hide MemoryOf, Word, PageWord, ReadRegularEntry, ReadWord32;
    PageWordRead(kind, offset, mark, value, at, x);
    PageWordRead(kind, offset, mark, value, at, x + 4);
    RegularEntryRead(MemoryOf(kind, offset, mark, value, at), PAGE + x);
  }

  /** A mark that leaves the page header as it is. */
  predicate MarkOk(offset: uint16, mark: nat, value: byte) {
    mark >= 4 && (mark == 4 ==> value == offset % 256) && !(5 <= mark < 8)
  }

  lemma HalfOf(kind: byte, offset: uint16, mark: nat, value: byte, at: nat, x: nat)
    requires x <= 0x1_0010
    ensures var mem := MemoryOf(kind, offset, mark, value, at);
            Readable(mem, PAGE + x, 2)
            && Half(mem, PAGE + x)
               == Two(PageByte(kind, offset, mark, value, x), PageByte(kind, offset, mark, value, x + 1))
  {
    AllMapped(kind, offset, mark, value, at, PAGE + x, 2);
    hide MemoryOf, PageByte, Two;
    ByteRead(kind, offset, mark, value, at, PAGE + x);
    ByteRead(kind, offset, mark, value, at, PAGE + x + 1);
  }

  lemma HeaderRead(kind: byte, offset: uint16, mark: nat, value: byte, at: nat)
    requires MarkOk(offset, mark, value)
    ensures var mem := MemoryOf(kind, offset, mark, value, at);
            && ReadWord32(mem, PAGE) == Some(kind)
            && ReadRegularHeader(mem, PAGE) == Some(PageHeader(offset, 1, 0))
            && (mark != 8 && mark != 9 ==> ReadCompressedHeader(mem, PAGE) == Some(PageHeader(offset, 1, 0)))
  {
    hide MemoryOf, Half, Word, ReadRegularHeader, ReadCompressedHeader, ReadWord32, Two, PageByte, PageWord, MarkOk,
         Readable;
    var mem := MemoryOf(kind, offset, mark, value, at);
    assert Readable(mem, PAGE, COMPRESSED_HEADER_SIZE) by { HeaderMapped(kind, offset, mark, value, at); }
    HeaderBytesAre(kind, offset, mark, value);
    PageHeadersRead(mem, PAGE);
    PageWordRead(kind, offset, mark, value, at, 0);
    HalfOf(kind, offset, mark, value, at, 4);
    HalfOf(kind, offset, mark, value, at, 6);
    HalfOf(kind, offset, mark, value, at, 8);
  }

  lemma HeaderMapped(kind: byte, offset: uint16, mark: nat, value: byte, at: nat)
    ensures Readable(MemoryOf(kind, offset, mark, value, at), PAGE, COMPRESSED_HEADER_SIZE)
  {
    AllMapped(kind, offset, mark, value, at, PAGE, COMPRESSED_HEADER_SIZE);
  }

  lemma HeaderBytesAre(kind: byte, offset: uint16, mark: nat, value: byte)
    requires MarkOk(offset, mark, value)
    ensures PageWord(kind, offset, mark, value, 0) == kind
    ensures Two(PageByte(kind, offset, mark, value, 4), PageByte(kind, offset, mark, value, 5)) == offset
    ensures Two(PageByte(kind, offset, mark, value, 6), PageByte(kind, offset, mark, value, 7)) == 1
    ensures mark != 8 && mark != 9 ==>
              Two(PageByte(kind, offset, mark, value, 8), PageByte(kind, offset, mark, value, 9)) == 0
  {
  }

  // ---------------------------------------------------------------- regular pages

  function RegularTable1(offset: uint16, mark: nat): UnwindTable {
    UnwindTable([FRAME_ENCODING],
                [Row(PageWord(2, offset, mark, 4, offset),
                     Regular(offset, [RegularEntry(PageWord(2, offset, mark, 4, offset),
                                                   PageWord(2, offset, mark, 4, offset + 4))]))])
  }

  lemma RegularIsStored(offset: uint16, mark: nat)
    requires MarkOk(offset, mark, 4)
    ensures Stored(MemoryOf(2, offset, mark, 4, offset), 0, RegularTable1(offset, mark))
    ensures WellFormed(RegularTable1(offset, mark))
  {
    hide MemoryOf, PageWord, ReadSectionHeader, ReadIndexEntry, ReadWord32, ReadRegularEntry, ReadRegularHeader,
         ReadCompressedHeader;
    SectionRead(2, offset, mark, 4, offset);
    HeaderRead(2, offset, mark, 4, offset);
    EntryRead(2, offset, mark, 4, offset, offset);
  }

  /** What the lookup makes of it: it reads the entry at 8. */
  lemma RegularLookup(offset: uint16, mark: nat)
    requires MarkOk(offset, mark, 4)
    ensures var pc := PageWord(2, offset, mark, 4, offset);
            LookupEncoding(MemoryOf(2, offset, mark, 4, offset), 0, pc)
            == if PageWord(2, offset, mark, 4, 8) <= pc then Some(PageWord(2, offset, mark, 4, 12)) else None
  {
    hide MemoryOf, PageWord, ReadSectionHeader, ReadIndexEntry, ReadWord32, ReadRegularEntry, ReadRegularHeader,
         ReadCompressedHeader;
    SectionRead(2, offset, mark, 4, offset);
    HeaderRead(2, offset, mark, 4, offset);
    EntryRead(2, offset, mark, 4, offset, 8);
  }

  /** The highest byte of a word decides about its mode. */
  lemma ModeOfWord(kind: byte, offset: uint16, mark: nat, value: byte, x: nat)
    ensures PageByte(kind, offset, mark, value, x + 3) == 0 ==> ModeOf(PageWord(kind, offset, mark, value, x)) == Unknown
    ensures PageByte(kind, offset, mark, value, x + 3) == 4 ==> ModeOf(PageWord(kind, offset, mark, value, x)) == HasFrame
  {
    hide PageByte;
    var b0: nat, b1: nat, b2: nat := PageByte(kind, offset, mark, value, x), PageByte(kind, offset, mark, value, x + 1),
                                     PageByte(kind, offset, mark, value, x + 2);
    assert b0 + 0x100 * b1 + 0x1_0000 * b2 < BITS_24;
  }

  lemma RegularScan(offset: uint16, mark: nat)
    ensures var t := RegularTable1(offset, mark);
            FlatResult(Flat(t.common, t.rows), PageWord(2, offset, mark, 4, offset))
            == ModeOf(PageWord(2, offset, mark, 4, offset + 4))
  {
    hide PageWord, ModeOf;
    var t := RegularTable1(offset, mark);
    OneRow(t.common, t.rows[0]);
    assert [t.rows[0]] == t.rows;
    var fs := RowFunctions(t.common, t.rows[0]);
    assert fs[|fs| - 1].start == PageWord(2, offset, mark, 4, offset);
  }

  lemma OneRow(common: seq<uint32>, row: Row)
    ensures Flat(common, [row]) == RowFunctions(common, row)
  {
    hide RowFunctions;
    assert [row][..0] == [];
    assert [] + RowFunctions(common, row) == RowFunctions(common, row);
  }

  predicate RegularAt(t: UnwindTable, offset: uint16) {
    |t.rows| == 1 && t.rows[0].page.Regular? && t.rows[0].page.entryOffset == offset
  }

  /** For every entry offset but the size of the header, lookup and scan differ on some stored regular page. */
  lemma RegularOffsetMatters(offset: uint16) returns (mem: Memory, t: UnwindTable, pcOffset: uint32)
    requires offset != REGULAR_HEADER_SIZE
    ensures Stored(mem, 0, t) && WellFormed(t) && RegularAt(t, offset)
    ensures ResultOf(LookupEncoding(mem, 0, pcOffset)) != FlatResult(Flat(t.common, t.rows), pcOffset)
  {
    var mark := if offset == 0 then 15 else offset + 7;
    mem, t, pcOffset := MemoryOf(2, offset, mark, 4, offset), RegularTable1(offset, mark), PageWord(2, offset, mark, 4, offset);
    hide MemoryOf, ModeOf, Stored, WellFormed, LookupEncoding, Flat, Scan;
    RegularIsStored(offset, mark);
    RegularLookup(offset, mark);
    RegularScan(offset, mark);
    ModeOfWord(2, offset, mark, 4, offset + 4);
    ModeOfWord(2, offset, mark, 4, 12);
  }

  // ---------------------------------------------------------------- compressed pages

  const ZERO_WORD: nat := 0x1_0100  // far behind every mark

  function CompressedTable1(offset: uint16, mark: nat): UnwindTable {
    UnwindTable([FRAME_ENCODING],
                [Row(0, Compressed(offset, [CompressedEntry(0, PageByte(3, offset, mark, 1, offset + 3))],
                                   [KIND_ENCODING]))])
  }

  /** The entry at the offset belongs to the start of the row and has a known encoding. */
  predicate EntryOk(offset: uint16, mark: nat) {
    && PageByte(3, offset, mark, 1, offset) == 0 && PageByte(3, offset, mark, 1, offset + 1) == 0
    && PageByte(3, offset, mark, 1, offset + 2) == 0 && PageByte(3, offset, mark, 1, offset + 3) <= 1
  }

  lemma ZeroStart(offset: uint16, mark: nat)
    requires mark < 0x1_0100
    ensures PageWord(3, offset, mark, 1, ZERO_WORD) == 0
  {
  }

  lemma CompressedAddress(offset: uint16)
    ensures Add64(0, PAGE) == PAGE && Add64(PAGE, offset) == PAGE + offset
    ensures Add64(PAGE + offset, 0) == PAGE + offset
  {
  }

  lemma CompressedPageStored(offset: uint16, mark: nat)
    requires MarkOk(offset, mark, 1) && mark != 8 && mark != 9 && mark < 0x1_0100
    requires EntryOk(offset, mark)
    ensures PageStored(MemoryOf(3, offset, mark, 1, ZERO_WORD), 0, PAGE, CompressedTable1(offset, mark).rows[0].page)
  {
    hide MemoryOf, PageWord, PageByte, ReadWord32, ReadRegularHeader, ReadCompressedHeader, MarkOk, EntryOk, Low64;
    EntryWord(offset, mark);
    CompressedAddress(offset);
    HeaderRead(3, offset, mark, 1, ZERO_WORD);
    PageWordRead(3, offset, mark, 1, ZERO_WORD, offset);
  }

  lemma CompressedIsWellFormed(offset: uint16, mark: nat)
    requires PageByte(3, offset, mark, 1, offset + 3) <= 1
    ensures WellFormed(CompressedTable1(offset, mark))
  {
    hide PageByte;
  }

  lemma CompressedIsStored(offset: uint16, mark: nat)
    requires MarkOk(offset, mark, 1) && mark != 8 && mark != 9 && mark < 0x1_0100
    requires EntryOk(offset, mark)
    ensures Stored(MemoryOf(3, offset, mark, 1, ZERO_WORD), 0, CompressedTable1(offset, mark))
  {
    hide MemoryOf, PageWord, PageByte, ReadSectionHeader, ReadIndexEntry, ReadWord32, PageStored, MarkOk, EntryOk;
    ZeroStart(offset, mark);
    SectionRead(3, offset, mark, 1, ZERO_WORD);
    CompressedPageStored(offset, mark);
  }

  lemma EntryWord(offset: uint16, mark: nat)
    requires EntryOk(offset, mark)
    ensures PageWord(3, offset, mark, 1, offset) == PageByte(3, offset, mark, 1, offset + 3) * BITS_24
  {
    hide PageByte;
  }

  lemma CompressedPageLookup(offset: uint16, mark: nat)
    requires MarkOk(offset, mark, 1) && mark != 8 && mark != 9 && mark < 0x1_0100
    requires forall k :: 12 <= k < 15 ==> PageByte(3, offset, mark, 1, k) == 0
    requires PageByte(3, offset, mark, 1, 15) <= 1
    ensures CompressedEncoding(MemoryOf(3, offset, mark, 1, ZERO_WORD), 0, PAGE, SectionHeader(COMMON, 1, 28, 1), 0)
            == Some(if PageByte(3, offset, mark, 1, 15) == 0 then FRAME_ENCODING else KIND_ENCODING)
  {
    hide MemoryOf, PageWord, PageByte, ReadWord32, ReadCompressedHeader, MarkOk, Bisect, EncodingAt;
    LookupWord(offset, mark);
    HeaderRead(3, offset, mark, 1, ZERO_WORD);
    PageWordRead(3, offset, mark, 1, ZERO_WORD, 0);
    PageWordRead(3, offset, mark, 1, ZERO_WORD, 12);
    CompressedSearch(MemoryOf(3, offset, mark, 1, ZERO_WORD), PageByte(3, offset, mark, 1, 15));
    EncodingFound(offset, mark, PageByte(3, offset, mark, 1, 15));
  }

  lemma CompressedSearch(mem: Memory, index: byte)
    requires ReadWord32(mem, PAGE + 12) == Some(index * BITS_24)
    ensures Bisect(CompressedTable(mem, PAGE + 12), 0, 0, 1) == Some(1)
  {
    hide ReadWord32;
  }

  lemma EncodingFound(offset: uint16, mark: nat, index: byte)
    requires index <= 1
    ensures EncodingAt(MemoryOf(3, offset, mark, 1, ZERO_WORD), 0, PAGE, SectionHeader(COMMON, 1, 28, 1),
                       PageHeader(offset, 1, 0), index)
            == Some(if index == 0 then FRAME_ENCODING else PageWord(3, offset, mark, 1, 0))
  {
    hide MemoryOf, PageByte, PageWord, ReadWord32, ReadSectionHeader, ReadIndexEntry;
    SectionRead(3, offset, mark, 1, ZERO_WORD);
    PageWordRead(3, offset, mark, 1, ZERO_WORD, 0);
  }

  /** The lookup reads the entry at 12, and the encoding its index leads to. */
  lemma CompressedLookup(offset: uint16, mark: nat)
    requires MarkOk(offset, mark, 1) && mark != 8 && mark != 9 && mark < 0x1_0100
    requires forall k :: 12 <= k < 15 ==> PageByte(3, offset, mark, 1, k) == 0
    requires PageByte(3, offset, mark, 1, 15) <= 1
    ensures LookupEncoding(MemoryOf(3, offset, mark, 1, ZERO_WORD), 0, 0)
            == Some(if PageByte(3, offset, mark, 1, 15) == 0 then FRAME_ENCODING else KIND_ENCODING)
  {
    hide MemoryOf, PageWord, PageByte, ReadSectionHeader, ReadIndexEntry, ReadWord32, CompressedEncoding, MarkOk,
         ReadCompressedHeader;
    ZeroStart(offset, mark);
    SectionRead(3, offset, mark, 1, ZERO_WORD);
    HeaderRead(3, offset, mark, 1, ZERO_WORD);
    CompressedPageLookup(offset, mark);
  }

  lemma LookupWord(offset: uint16, mark: nat)
    requires forall k :: 12 <= k < 15 ==> PageByte(3, offset, mark, 1, k) == 0
    ensures PageWord(3, offset, mark, 1, 12) == PageByte(3, offset, mark, 1, 15) * BITS_24
  {
    hide PageByte;
    assert PageByte(3, offset, mark, 1, 13) == 0 && PageByte(3, offset, mark, 1, 14) == 0;
  }

  lemma CompressedScan(offset: uint16, mark: nat)
    requires PageByte(3, offset, mark, 1, offset + 3) <= 1
    ensures var t := CompressedTable1(offset, mark);
            FlatResult(Flat(t.common, t.rows), 0)
            == if PageByte(3, offset, mark, 1, offset + 3) == 0 then HasFrame else Unknown
  {
    hide PageByte;
    var t := CompressedTable1(offset, mark);
    OneRow(t.common, t.rows[0]);
    assert [t.rows[0]] == t.rows;
    var fs := RowFunctions(t.common, t.rows[0]);
    assert fs[|fs| - 1].start == 0;
  }

  predicate CompressedAt(t: UnwindTable, offset: uint16) {
    |t.rows| == 1 && t.rows[0].page.Compressed? && t.rows[0].page.entryOffset == offset
  }

  /** Entries at these offsets would have to share bytes of the header that are not zero. */
  predicate InsideHeader(offset: uint16) {
    offset < 7 && offset != 1
  }

  /** Where the mark goes: the entry at the offset and the one behind the header have different indices. */
  function MarkFor(offset: uint16): nat {
    if offset == 1 || offset > 12 then offset + 3 else 15
  }

  lemma EntriesDiffer(offset: uint16)
    requires offset != COMPRESSED_HEADER_SIZE && !InsideHeader(offset)
    ensures var mark := MarkFor(offset);
            && MarkOk(offset, mark, 1) && mark != 8 && mark != 9 && mark < 0x1_0100 && EntryOk(offset, mark)
            && (forall k :: 12 <= k < 15 ==> PageByte(3, offset, mark, 1, k) == 0)
            && PageByte(3, offset, mark, 1, 15) <= 1
            && PageByte(3, offset, mark, 1, 15) != PageByte(3, offset, mark, 1, offset + 3)
  {
  }

  /** The same for compressed pages, for every offset at which a page can have entries at all. */
  lemma CompressedOffsetMatters(offset: uint16) returns (mem: Memory, t: UnwindTable, pcOffset: uint32)
    requires offset != COMPRESSED_HEADER_SIZE && !InsideHeader(offset)
    ensures Stored(mem, 0, t) && WellFormed(t) && CompressedAt(t, offset)
    ensures ResultOf(LookupEncoding(mem, 0, pcOffset)) != FlatResult(Flat(t.common, t.rows), pcOffset)
  {
    hide MemoryOf, Stored, WellFormed, LookupEncoding, Flat, Scan, PageByte, MarkOk, MarkFor;
    var mark := MarkFor(offset);
    mem, t, pcOffset := MemoryOf(3, offset, mark, 1, ZERO_WORD), CompressedTable1(offset, mark), 0;
    EntriesDiffer(offset);
    CompressedIsStored(offset, mark);
    CompressedIsWellFormed(offset, mark);
    CompressedLookup(offset, mark);
    CompressedScan(offset, mark);
  }

  /** Any word that has been read is mapped, as is any header. */
  lemma ReadMeansMapped(mem: Memory, a: uint64)
    ensures ReadWord32(mem, a).Some? ==> Readable(mem, a, 4) && ReadWord32(mem, a) == Some(Word(mem, a))
    ensures ReadCompressedHeader(mem, a).Some? ==>
              && Readable(mem, a, COMPRESSED_HEADER_SIZE)
              && ReadCompressedHeader(mem, a) == Some(PageHeader(Half(mem, a + 4), Half(mem, a + 6), Half(mem, a + 8)))
  {
    hide Word, Half, Field16, Field32;
    if ReadWord32(mem, a).Some? {
      assert Readable(mem, a, 4);
      WordRead(mem, a);
    }
    if ReadCompressedHeader(mem, a).Some? {
      assert Readable(mem, a, COMPRESSED_HEADER_SIZE);
      PageHeadersRead(mem, a);
    }
  }

  lemma LowBytes(b0: byte, b1: byte, b2: byte, b3: byte, high: nat)
    requires Four(b0, b1, b2, b3) == high * BITS_24
    ensures b0 == 0 && b1 == 0 && b2 == 0
  {
    var n0: nat, n1: nat, n2: nat, n3: nat := b0, b1, b2, b3;
    var low := n0 + 0x100 * n1 + 0x1_0000 * n2;
    assert low < BITS_24 && low == (high - n3) * BITS_24;
    assert high == n3;
  }

  lemma HeaderBytes(mem: Memory, addr: nat, offset: uint16, count: uint16)
    requires Readable(mem, addr, COMPRESSED_HEADER_SIZE)
    requires Word(mem, addr) == SECOND_LEVEL_COMPRESSED && Half(mem, addr + 4) == offset < 7
    requires Half(mem, addr + 6) == count > 0
    ensures mem[addr] == 3 && mem[addr + 4] == offset && (mem[addr + 6] != 0 || mem[addr + 7] != 0)
  {
  }

  /** The first entry of a compressed page that starts with its row has no function offset of its own. */
  lemma FirstEntryIsZero(mem: Memory, base: uint64, t: UnwindTable, secondLevel: uint32, i: nat)
    requires WellFormed(t) && i < |t.rows| && t.rows[i].page.Compressed?
    requires PageStored(mem, base, secondLevel, t.rows[i].page)
    ensures var addr, page := Add64(base, secondLevel), t.rows[i].page;
            && ReadWord32(mem, addr) == Some(SECOND_LEVEL_COMPRESSED) && ReadCompressedHeader(mem, addr).Some?
            && ReadCompressedHeader(mem, addr).value.entryOffset == page.entryOffset
            && ReadCompressedHeader(mem, addr).value.entryCount == |page.entries| > 0
            && ReadWord32(mem, Add64(addr, page.entryOffset)) == Some(page.entries[0].index * BITS_24)
  {
    hide ReadWord32, ReadCompressedHeader, ReadRegularHeader, WordsStored;
    assert RowOk(t.common, t.rows[i]);
    var page := t.rows[i].page;
    assert RowFunctions(t.common, t.rows[i])[0].start == t.rows[i].start + page.entries[0].delta;
  }

  /** No stored table has a compressed page whose entries would lie at one of these offsets. */
  lemma HeaderLeavesNoRoom(mem: Memory, base: uint64, t: UnwindTable, secondLevel: uint32, i: nat)
    requires forall a :: a in mem ==> a < UINT64_MOD
    requires WellFormed(t) && i < |t.rows| && t.rows[i].page.Compressed?
    requires PageStored(mem, base, secondLevel, t.rows[i].page)
    ensures !InsideHeader(t.rows[i].page.entryOffset)
  {
    hide WellFormed, PageStored, ReadWord32, ReadCompressedHeader, Four, Two;
    var addr, page := Add64(base, secondLevel), t.rows[i].page;
    FirstEntryIsZero(mem, base, t, secondLevel, i);
    if page.entryOffset < 7 {
      var at := addr + page.entryOffset;
      ReadMeansMapped(mem, addr);
      assert addr + 11 in mem;
      assert Add64(addr, page.entryOffset) == at;
      ReadMeansMapped(mem, at);
      HeaderBytes(mem, addr, page.entryOffset, |page.entries|);
      LowBytes(mem[at], mem[at + 1], mem[at + 2], mem[at + 3], page.entries[0].index);
    }
  }
}
