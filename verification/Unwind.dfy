/**
 Compact unwind lookup: a two-level page table in the memory of the target, searched three times by
 bisection, and the flat table of functions it stands for.
 */
module Unwind {
  import opened Bytes
  import opened DataAccess

  datatype LookupResult = HasFrame | Frameless | Unknown

  const SECOND_LEVEL_REGULAR: uint32 := 2
  const SECOND_LEVEL_COMPRESSED: uint32 := 3
  const MODE_FRAMELESS := 2  // in bits 24 to 27 of an encoding
  const MODE_FRAME := 4
  const SECTION_HEADER_SIZE := 28
  const INDEX_ENTRY_SIZE := 12
  const REGULAR_HEADER_SIZE := 8
  const REGULAR_ENTRY_SIZE := 8
  const COMPRESSED_HEADER_SIZE := 12
  const BITS_24 := 0x100_0000

  datatype SectionHeader = SectionHeader(commonOffset: uint32, commonCount: uint32, indexOffset: uint32, indexCount: uint32)
  datatype IndexEntry = IndexEntry(functionOffset: uint32, secondLevel: uint32)
  datatype RegularEntry = RegularEntry(functionOffset: uint32, encoding: uint32)
  datatype PageHeader = PageHeader(entryOffset: uint16, entryCount: uint16, encodingsOffset: uint16)

  function ReadSectionHeader(mem: Memory, a: uint64): Option<SectionHeader> {
    match ReadProcessMemory(mem, a, SECTION_HEADER_SIZE)
    case None => None
    case Some(b) => Some(SectionHeader(Field32(b, 4), Field32(b, 8), Field32(b, 20), Field32(b, 24)))
  }

  function ReadIndexEntry(mem: Memory, a: uint64): Option<IndexEntry> {
    match ReadProcessMemory(mem, a, INDEX_ENTRY_SIZE)
    case None => None
    case Some(b) => Some(IndexEntry(Field32(b, 0), Field32(b, 4)))
  }

  function ReadRegularEntry(mem: Memory, a: uint64): Option<RegularEntry> {
    match ReadProcessMemory(mem, a, REGULAR_ENTRY_SIZE)
    case None => None
    case Some(b) => Some(RegularEntry(Field32(b, 0), Field32(b, 4)))
  }

  function ReadRegularHeader(mem: Memory, a: uint64): Option<PageHeader> {
    match ReadProcessMemory(mem, a, REGULAR_HEADER_SIZE)
    case None => None
    case Some(b) => Some(PageHeader(Field16(b, 4), Field16(b, 6), 0))
  }

  function ReadCompressedHeader(mem: Memory, a: uint64): Option<PageHeader> {
    match ReadProcessMemory(mem, a, COMPRESSED_HEADER_SIZE)
    case None => None
    case Some(b) => Some(PageHeader(Field16(b, 4), Field16(b, 6), Field16(b, 8)))
  }

  // ---------------------------------------------------------------- bisection

  /** One of the three tables that are searched. */
  datatype Table =
    | IndexTable(mem: Memory, addr: uint64)
    | RegularTable(mem: Memory, addr: uint64)
    | CompressedTable(mem: Memory, addr: uint64)
  {
    /** The function offset in entry i, if the entry can be read. */
    function Key(i: nat): Option<uint32> {
      match this
      case IndexTable(_, _) =>
        (match ReadIndexEntry(mem, Add64(addr, i * INDEX_ENTRY_SIZE))
         case None => None
         case Some(e) => Some(e.functionOffset))
      case RegularTable(_, _) =>
        (match ReadRegularEntry(mem, Add64(addr, i * REGULAR_ENTRY_SIZE))
         case None => None
         case Some(e) => Some(e.functionOffset))
      case CompressedTable(_, _) =>
        (match ReadWord32(mem, Add64(addr, i * 4))
         case None => None
         case Some(w) => Some(w % BITS_24))
    }
  }

  /** Where the bisection of entries low to high ends, if all entries it looks at can be read. */
  function Bisect(t: Table, bound: uint32, low: nat, high: nat): (r: Option<nat>)
    requires low <= high
    ensures r.Some? ==> low <= r.value <= high
    decreases high - low
  {
    if low == high then Some(low)
    else
      var mid := low + (high - low) / 2;
      match t.Key(mid)
      case None => None
      case Some(k) => if k <= bound then Bisect(t, bound, mid + 1, high) else Bisect(t, bound, low, mid)
  }

  /**
   For any contents of the table, sorted or not: the entry before the result has been read and is at
   most the bound, and the entry at the result has been read and is above it.
   */
  lemma {:induction false} BisectSafe(t: Table, bound: uint32, low: nat, high: nat)
    requires low <= high
    ensures var r := Bisect(t, bound, low, high);
            && (r.Some? && r.value > low ==> t.Key(r.value - 1).Some? && t.Key(r.value - 1).value <= bound)
            && (r.Some? && r.value < high ==> t.Key(r.value).Some? && t.Key(r.value).value > bound)
    decreases high - low
  {
    hide Table.Key;
    if low < high {
      var mid := low + (high - low) / 2;
      if t.Key(mid).Some? {
        if t.Key(mid).value <= bound {
          BisectSafe(t, bound, mid + 1, high);
        } else {
          BisectSafe(t, bound, low, mid);
        }
      }
    }
  }

  /** No entry outside of low to high is ever read: tables that agree on these give the same result. */
  lemma {:induction false} BisectReadsInside(t: Table, u: Table, bound: uint32, low: nat, high: nat)
    requires low <= high && forall i :: low <= i < high ==> t.Key(i) == u.Key(i)
    ensures Bisect(t, bound, low, high) == Bisect(u, bound, low, high)
    decreases high - low
  {
    hide Table.Key;
    if low < high {
      var mid := low + (high - low) / 2;
      if t.Key(mid).Some? {
        if t.Key(mid).value <= bound {
          BisectReadsInside(t, u, bound, mid + 1, high);
        } else {
          BisectReadsInside(t, u, bound, low, mid);
        }
      }
    }
  }

  method Search(t: Table, count: uint32, bound: uint32) returns (r: Option<nat>)
    ensures r == Bisect(t, bound, 0, count)
  {
    hide Table.Key;
    var low: nat, high: nat := 0, count;
    while low < high
      invariant low <= high <= count
      invariant Bisect(t, bound, low, high) == Bisect(t, bound, 0, count)
    {
      var mid := low + (high - low) / 2;
      match t.Key(mid) {
        case None => return None;
        case Some(k) =>
          if k <= bound {
            low := mid + 1;
          } else {
            high := mid;
          }
      }
    }
    return Some(low);
  }

  // ---------------------------------------------------------------- the lookup

  function ModeOf(encoding: uint32): LookupResult {
    var mode := encoding / BITS_24 % 16;
    if mode == MODE_FRAME then HasFrame else if mode == MODE_FRAMELESS then Frameless else Unknown
  }

  /** The encoding behind index `i` of a compressed entry: a common one, or one of the page. */
  function EncodingAt(mem: Memory, base: uint64, page: uint64, h: SectionHeader, p: PageHeader, i: byte): Option<uint32> {
    if i < h.commonCount
    then ReadWord32(mem, Add64(base, h.commonOffset + i * 4))
    else ReadWord32(mem, Add64(page, p.encodingsOffset + (i - h.commonCount) * 4))
  }

  function RegularEncoding(mem: Memory, page: uint64, pcOffset: uint32): Option<uint32> {
    match ReadRegularHeader(mem, page)
    case None => None
    case Some(p) =>
      var entries := Add64(page, REGULAR_HEADER_SIZE);
      match Bisect(RegularTable(mem, entries), pcOffset, 0, p.entryCount)
      case None => None
      case Some(k) =>
        if k == 0 then None
        else
          match ReadRegularEntry(mem, Add64(entries, (k - 1) * REGULAR_ENTRY_SIZE))
          case None => None
          case Some(e) => Some(e.encoding)
  }

  function CompressedEncoding(mem: Memory, base: uint64, page: uint64, h: SectionHeader, delta: uint32): Option<uint32> {
    match ReadCompressedHeader(mem, page)
    case None => None
    case Some(p) =>
      var entries := Add64(page, COMPRESSED_HEADER_SIZE);
      match Bisect(CompressedTable(mem, entries), delta, 0, p.entryCount)
      case None => None
      case Some(k) =>
        if k == 0 then None
        else
          match ReadWord32(mem, Add64(entries, (k - 1) * 4))
          case None => None
          case Some(w) => EncodingAt(mem, base, page, h, p, w / BITS_24)
  }

  /** The encoding in the page of index entry e, whose function offset is not above pcOffset. */
  function PageEncoding(mem: Memory, base: uint64, h: SectionHeader, e: IndexEntry, pcOffset: uint32): Option<uint32>
    requires e.functionOffset <= pcOffset
  {
    if e.secondLevel == 0 then None
    else
      var page := Add64(base, e.secondLevel);
      match ReadWord32(mem, page)
      case None => None
      case Some(kind) =>
        if kind == SECOND_LEVEL_REGULAR then RegularEncoding(mem, page, pcOffset)
        else if kind == SECOND_LEVEL_COMPRESSED then CompressedEncoding(mem, base, page, h, pcOffset - e.functionOffset)
        else None
  }

  /** The chosen index entry has been read, and its function offset is not above the one looked for. */
  lemma IndexEntrySafe(mem: Memory, index: uint64, count: uint32, pcOffset: uint32)
    ensures var r := Bisect(IndexTable(mem, index), pcOffset, 0, count);
            r.Some? && r.value > 0 ==>
              var e := ReadIndexEntry(mem, Add64(index, (r.value - 1) * INDEX_ENTRY_SIZE));
              e.Some? && e.value.functionOffset <= pcOffset
  {
    hide ReadIndexEntry, Bisect, Low64;
    BisectSafe(IndexTable(mem, index), pcOffset, 0, count);
  }

  function LookupEncoding(mem: Memory, base: uint64, pcOffset: uint32): Option<uint32> {
    match ReadSectionHeader(mem, base)
    case None => None
    case Some(h) =>
      var index := Add64(base, h.indexOffset);
      IndexEntrySafe(mem, index, h.indexCount, pcOffset);
      match Bisect(IndexTable(mem, index), pcOffset, 0, h.indexCount)
      case None => None
      case Some(k) =>
        if k == 0 then None
        else
          match ReadIndexEntry(mem, Add64(index, (k - 1) * INDEX_ENTRY_SIZE))
          case None => None
          case Some(e) => PageEncoding(mem, base, h, e, pcOffset)
  }

  function ResultOf(encoding: Option<uint32>): LookupResult {
    match encoding
    case None => Unknown
    case Some(e) => ModeOf(e)
  }

  method LookupRegular(mem: Memory, page: uint64, pcOffset: uint32) returns (r: Option<uint32>)
    ensures r == RegularEncoding(mem, page, pcOffset)
  {
    hide ReadProcessMemory, Table.Key;
    var p := ReadRegularHeader(mem, page);
    if p.None? {
      return None;
    }
    var entries := Add64(page, REGULAR_HEADER_SIZE);
    var k := Search(RegularTable(mem, entries), p.value.entryCount, pcOffset);
    if k.None? || k.value == 0 {
      return None;
    }
    var e := ReadRegularEntry(mem, Add64(entries, (k.value - 1) * REGULAR_ENTRY_SIZE));
    return if e.None? then None else Some(e.value.encoding);
  }

  method LookupCompressed(mem: Memory, base: uint64, page: uint64, h: SectionHeader, delta: uint32)
    returns (r: Option<uint32>)
    ensures r == CompressedEncoding(mem, base, page, h, delta)
  {
    hide ReadProcessMemory, Table.Key, EncodingAt;
    var p := ReadCompressedHeader(mem, page);
    if p.None? {
      return None;
    }
    var entries := Add64(page, COMPRESSED_HEADER_SIZE);
    var k := Search(CompressedTable(mem, entries), p.value.entryCount, delta);
    if k.None? || k.value == 0 {
      return None;
    }
    var w := ReadWord32(mem, Add64(entries, (k.value - 1) * 4));
    return if w.None? then None else EncodingAt(mem, base, page, h, p.value, w.value / BITS_24);
  }

  /** Index first, then the page it leads to; anything missing or unreadable means Unknown. */
  method LookupUnwindInfo(mem: Memory, base: uint64, pcOffset: uint32) returns (r: LookupResult)
    ensures r == ResultOf(LookupEncoding(mem, base, pcOffset))
  {
    hide ReadSectionHeader, ReadIndexEntry, ReadWord32, RegularEncoding, CompressedEncoding, Bisect, Low64, ModeOf;
    var h := ReadSectionHeader(mem, base);
    if h.None? {
      return Unknown;
    }
    var index := Add64(base, h.value.indexOffset);
    var low := Search(IndexTable(mem, index), h.value.indexCount, pcOffset);
    if low.None? || low.value == 0 {
      return Unknown;
    }
    IndexEntrySafe(mem, index, h.value.indexCount, pcOffset);
    var entry := ReadIndexEntry(mem, Add64(index, (low.value - 1) * INDEX_ENTRY_SIZE));
    if entry.None? || entry.value.secondLevel == 0 {
      return Unknown;
    }
    var page := Add64(base, entry.value.secondLevel);
    var kind := ReadWord32(mem, page);
    if kind.None? {
      return Unknown;
    }
    var encoding := None;
    if kind.value == SECOND_LEVEL_REGULAR {
      encoding := LookupRegular(mem, page, pcOffset);
    } else if kind.value == SECOND_LEVEL_COMPRESSED {
      encoding := LookupCompressed(mem, base, page, h.value, pcOffset - entry.value.functionOffset);
    }
    return ResultOf(encoding);
  }

  // ---------------------------------------------------------------- the table that is stored

  datatype Page =
    | Regular(entryOffset: uint16, functions: seq<RegularEntry>)
    | Compressed(entryOffset: uint16, entries: seq<CompressedEntry>, encodings: seq<uint32>)
    | Sentinel   // no second level
    | Other      // neither regular nor compressed

  datatype CompressedEntry = CompressedEntry(delta: uint32, index: byte)

  datatype Row = Row(start: uint32, page: Page)

  datatype UnwindTable = UnwindTable(common: seq<uint32>, rows: seq<Row>)

  /** The page lies in memory at that section offset, its entries where its header says. */
  ghost predicate PageStored(mem: Memory, base: uint64, secondLevel: uint32, page: Page) {
    var addr := Add64(base, secondLevel);
    match page
    case Sentinel => secondLevel == 0
    case Other =>
      secondLevel != 0 && ReadWord32(mem, addr) != Some(SECOND_LEVEL_REGULAR)
      && ReadWord32(mem, addr) != Some(SECOND_LEVEL_COMPRESSED)
    case Regular(entryOffset, fs) =>
      && secondLevel != 0 && ReadWord32(mem, addr) == Some(SECOND_LEVEL_REGULAR)
      && ReadRegularHeader(mem, addr).Some?
      && ReadRegularHeader(mem, addr).value.entryOffset == entryOffset
      && ReadRegularHeader(mem, addr).value.entryCount == |fs|
      && RegularStored(mem, Add64(addr, entryOffset), fs)
    case Compressed(entryOffset, es, encodings) =>
      && secondLevel != 0 && ReadWord32(mem, addr) == Some(SECOND_LEVEL_COMPRESSED)
      && ReadCompressedHeader(mem, addr).Some?
      && ReadCompressedHeader(mem, addr).value.entryOffset == entryOffset
      && ReadCompressedHeader(mem, addr).value.entryCount == |es|
      && CompressedStored(mem, Add64(addr, entryOffset), es)
      && WordsStored(mem, addr, ReadCompressedHeader(mem, addr).value.encodingsOffset, encodings)
  }

  ghost predicate RegularStored(mem: Memory, addr: uint64, fs: seq<RegularEntry>) {
    forall i :: 0 <= i < |fs| ==> ReadRegularEntry(mem, Add64(addr, i * REGULAR_ENTRY_SIZE)) == Some(fs[i])
  }

  ghost predicate CompressedStored(mem: Memory, addr: uint64, es: seq<CompressedEntry>) {
    forall i :: 0 <= i < |es| ==>
      es[i].delta < BITS_24 && ReadWord32(mem, Add64(addr, i * 4)) == Some(es[i].delta + es[i].index * BITS_24)
  }

  ghost predicate WordsStored(mem: Memory, base: uint64, offset: uint32, ws: seq<uint32>) {
    forall i :: 0 <= i < |ws| ==> ReadWord32(mem, Add64(base, offset + i * 4)) == Some(ws[i])
  }

  ghost predicate RowStored(mem: Memory, base: uint64, index: uint64, i: nat, row: Row) {
    match ReadIndexEntry(mem, Add64(index, i * INDEX_ENTRY_SIZE))
    case None => false
    case Some(e) => e.functionOffset == row.start && PageStored(mem, base, e.secondLevel, row.page)
  }

  ghost predicate Stored(mem: Memory, base: uint64, t: UnwindTable) {
    match ReadSectionHeader(mem, base)
    case None => false
    case Some(h) =>
      && h.indexCount == |t.rows| && h.commonCount == |t.common|
      && WordsStored(mem, base, h.commonOffset, t.common)
      && RowsStored(mem, base, Add64(base, h.indexOffset), t.rows)
  }

  ghost predicate RowsStored(mem: Memory, base: uint64, index: uint64, rows: seq<Row>) {
    forall i {:trigger rows[i]} :: 0 <= i < |rows| ==> RowStored(mem, base, index, i, rows[i])
  }

  // ---------------------------------------------------------------- the flat table

  /** A function and its encoding, if the table has one for it. */
  datatype Function = Function(start: nat, encoding: Option<uint32>)

  function CompressedFunction(common: seq<uint32>, start: uint32, encodings: seq<uint32>, e: CompressedEntry): Function {
    Function(start + e.delta,
             if e.index < |common| then Some(common[e.index])
             else if e.index - |common| < |encodings| then Some(encodings[e.index - |common|])
             else None)
  }

  function RowFunctions(common: seq<uint32>, row: Row): seq<Function> {
    match row.page
    case Regular(_, fs) =>
      seq(|fs|, i requires 0 <= i < |fs| => Function(fs[i].functionOffset, Some(fs[i].encoding)))
    case Compressed(_, es, encodings) =>
      seq(|es|, i requires 0 <= i < |es| => CompressedFunction(common, row.start, encodings, es[i]))
    case Sentinel => [Function(row.start, None)]
    case Other => [Function(row.start, None)]
  }

  /** All functions of the table, page after page. */
  function Flat(common: seq<uint32>, rows: seq<Row>): seq<Function> {
    if rows == [] then []
    else Flat(common, rows[..|rows| - 1]) + RowFunctions(common, rows[|rows| - 1])
  }

  /** The last function that starts at or before the offset, by looking at one after the other. */
  function Scan(fs: seq<Function>, pcOffset: uint32): Option<Function> {
    if fs == [] then None
    else if fs[|fs| - 1].start <= pcOffset then Some(fs[|fs| - 1])
    else Scan(fs[..|fs| - 1], pcOffset)
  }

  function FlatResult(fs: seq<Function>, pcOffset: uint32): LookupResult {
    match Scan(fs, pcOffset)
    case None => Unknown
    case Some(f) => ResultOf(f.encoding)
  }

  predicate SortedFunctions(fs: seq<Function>) {
    forall i, j :: 0 <= i < j < |fs| ==> fs[i].start <= fs[j].start
  }

  /** The functions of a row start with the row and are in order, and every encoding index is known. */
  predicate RowOk(common: seq<uint32>, row: Row) {
    var fs := RowFunctions(common, row);
    && fs != [] && fs[0].start == row.start
    && SortedFunctions(fs)
    && (row.page.Compressed? ==>
          forall i :: 0 <= i < |row.page.entries| ==> row.page.entries[i].index < |common| + |row.page.encodings|)
  }

  predicate RowsOk(common: seq<uint32>, rows: seq<Row>) {
    forall i :: 0 <= i < |rows| ==> RowOk(common, rows[i])
  }

  /** Where the functions of row i have to stop: where the next row starts. */
  function Limit(rows: seq<Row>, i: nat): nat {
    if i + 1 < |rows| then rows[i + 1].start else UINT32_MOD
  }

  predicate StaysBelow(common: seq<uint32>, row: Row, limit: nat) {
    forall i :: 0 <= i < |RowFunctions(common, row)| ==> RowFunctions(common, row)[i].start <= limit
  }

  predicate WellFormed(t: UnwindTable) {
    && RowsOk(t.common, t.rows)
    && (forall i, j :: 0 <= i < j < |t.rows| ==> t.rows[i].start <= t.rows[j].start)
    && (forall i :: 0 <= i < |t.rows| ==> StaysBelow(t.common, t.rows[i], Limit(t.rows, i)))
  }

  /** Entries lie right behind the header of their page, where the lookup reads them. */
  predicate TightPage(page: Page) {
    && (page.Regular? ==> page.entryOffset == REGULAR_HEADER_SIZE)
    && (page.Compressed? ==> page.entryOffset == COMPRESSED_HEADER_SIZE)
  }

  predicate Tight(t: UnwindTable) {
    forall i :: 0 <= i < |t.rows| ==> TightPage(t.rows[i].page)
  }

  // ---------------------------------------------------------------- refinement

  predicate Partition(keys: seq<uint32>, bound: uint32, k: nat) {
    && k <= |keys|
    && (forall j :: 0 <= j < k ==> keys[j] <= bound)
    && (forall j :: k <= j < |keys| ==> keys[j] > bound)
  }

  predicate SortedKeys(keys: seq<uint32>) {
    forall i, j :: 0 <= i < j < |keys| ==> keys[i] <= keys[j]
  }

  predicate HasKeys(t: Table, keys: seq<uint32>) {
    forall i {:trigger keys[i]} :: 0 <= i < |keys| ==> t.Key(i) == Some(keys[i])
  }

  /** On a readable, sorted table the bisection splits the keys at the bound. */
  lemma {:induction false} BisectSorted(t: Table, keys: seq<uint32>, bound: uint32, low: nat, high: nat)
    requires HasKeys(t, keys) && SortedKeys(keys) && low <= high <= |keys|
    requires forall j :: 0 <= j < low ==> keys[j] <= bound
    requires forall j :: high <= j < |keys| ==> keys[j] > bound
    ensures Bisect(t, bound, low, high).Some? && Partition(keys, bound, Bisect(t, bound, low, high).value)
    decreases high - low
  {
    hide Table.Key;
    if low < high {
      var mid := low + (high - low) / 2;
      assert t.Key(mid) == Some(keys[mid]);
      if keys[mid] <= bound {
        BisectSorted(t, keys, bound, mid + 1, high);
      } else {
        BisectSorted(t, keys, bound, low, mid);
      }
    }
  }

  lemma {:induction false} ScanConcat(a: seq<Function>, b: seq<Function>, pcOffset: uint32)
    ensures Scan(a + b, pcOffset) == if Scan(b, pcOffset).Some? then Scan(b, pcOffset) else Scan(a, pcOffset)
  {
    if b == [] {
      assert a + b == a;
    } else {
      var n := |b| - 1;
      ScanConcat(a, b[..n], pcOffset);
      assert (a + b)[..|a + b| - 1] == a + b[..n];
    }
  }

  lemma {:induction false} ScanAt(fs: seq<Function>, pcOffset: uint32, k: nat)
    requires k <= |fs|
    requires k > 0 ==> fs[k - 1].start <= pcOffset
    requires forall j :: k <= j < |fs| ==> fs[j].start > pcOffset
    ensures Scan(fs, pcOffset) == if k == 0 then None else Some(fs[k - 1])
  {
    if k < |fs| {
      ScanAt(fs[..|fs| - 1], pcOffset, k);
    }
  }

  /** What a scan finds in a sorted table starts at the greatest start that is not above the offset. */
  lemma {:induction false} ScanFindsGreatest(fs: seq<Function>, pcOffset: uint32)
    requires SortedFunctions(fs)
    ensures match Scan(fs, pcOffset)
            case None => forall i :: 0 <= i < |fs| ==> fs[i].start > pcOffset
            case Some(f) =>
              f in fs && f.start <= pcOffset
              && forall i :: 0 <= i < |fs| && fs[i].start <= pcOffset ==> fs[i].start <= f.start
  {
    if fs != [] && fs[|fs| - 1].start > pcOffset {
      ScanFindsGreatest(fs[..|fs| - 1], pcOffset);
    }
  }

  lemma RowStartsAtStart(common: seq<uint32>, row: Row, pcOffset: uint32)
    requires RowOk(common, row)
    ensures row.start > pcOffset ==> Scan(RowFunctions(common, row), pcOffset) == None
    ensures row.start <= pcOffset ==> Scan(RowFunctions(common, row), pcOffset).Some?
  {
    hide RowFunctions;
    var fs := RowFunctions(common, row);
    if row.start > pcOffset {
      ScanAt(fs, pcOffset, 0);
    } else {
      ScanFindsGreatest(fs, pcOffset);
    }
  }

  /** A scan of the whole table ends in the row the index search picks. */
  lemma {:induction false} ScanOfFlat(common: seq<uint32>, rows: seq<Row>, pcOffset: uint32, k: nat)
    requires k <= |rows| && RowsOk(common, rows)
    requires k > 0 ==> rows[k - 1].start <= pcOffset
    requires forall j :: k <= j < |rows| ==> rows[j].start > pcOffset
    ensures Scan(Flat(common, rows), pcOffset)
            == if k == 0 then None else Scan(RowFunctions(common, rows[k - 1]), pcOffset)
  {
    hide RowFunctions, RowOk;
    if rows != [] {
      var n := |rows| - 1;
      ScanConcat(Flat(common, rows[..n]), RowFunctions(common, rows[n]), pcOffset);
      RowStartsAtStart(common, rows[n], pcOffset);
      if k <= n {
        ScanOfFlat(common, rows[..n], pcOffset, k);
      }
    }
  }

  /** The encoding of what a scan of the row finds. */
  function RowResult(common: seq<uint32>, row: Row, pcOffset: uint32): Option<uint32> {
    match Scan(RowFunctions(common, row), pcOffset)
    case None => None
    case Some(f) => f.encoding
  }

  function Offsets(fs: seq<RegularEntry>): (keys: seq<uint32>)
    ensures |keys| == |fs|
  {
    seq(|fs|, i requires 0 <= i < |fs| => fs[i].functionOffset)
  }

  lemma RegularKeys(mem: Memory, addr: uint64, fs: seq<RegularEntry>)
    requires RegularStored(mem, addr, fs)
    ensures HasKeys(RegularTable(mem, addr), Offsets(fs))
  {
    hide ReadRegularEntry;
  }

  lemma RegularFlat(common: seq<uint32>, row: Row)
    requires row.page.Regular? && RowOk(common, row)
    ensures var fs, flat := row.page.functions, RowFunctions(common, row);
            && |flat| == |fs| > 0 && Offsets(fs)[0] == row.start && SortedKeys(Offsets(fs))
            && forall i :: 0 <= i < |flat| ==> flat[i] == Function(Offsets(fs)[i], Some(fs[i].encoding))
  {
    var fs, flat := row.page.functions, RowFunctions(common, row);
    assert forall i :: 0 <= i < |fs| ==> flat[i].start == Offsets(fs)[i];
  }

  lemma RegularRefines(mem: Memory, page: uint64, common: seq<uint32>, row: Row, pcOffset: uint32)
    requires row.page.Regular? && RowOk(common, row) && row.start <= pcOffset
    requires ReadRegularHeader(mem, page).Some? && ReadRegularHeader(mem, page).value.entryCount == |row.page.functions|
    requires RegularStored(mem, Add64(page, REGULAR_HEADER_SIZE), row.page.functions)
    ensures RegularEncoding(mem, page, pcOffset) == RowResult(common, row, pcOffset)
  {
    hide ReadRegularEntry, ReadRegularHeader, RowFunctions, RowOk, HasKeys, SortedKeys, Table.Key, Offsets, Scan, Low64;
    var fs, flat := row.page.functions, RowFunctions(common, row);
    var t := RegularTable(mem, Add64(page, REGULAR_HEADER_SIZE));
    RegularKeys(mem, Add64(page, REGULAR_HEADER_SIZE), fs);
    RegularFlat(common, row);
    BisectSorted(t, Offsets(fs), pcOffset, 0, |fs|);
    var k := Bisect(t, pcOffset, 0, |fs|).value;
    ScanAt(flat, pcOffset, k);
  }

  lemma SplitWord(delta: uint32, index: byte)
    requires delta < BITS_24
    ensures (delta + index * BITS_24) % BITS_24 == delta
    ensures (delta + index * BITS_24) / BITS_24 == index
  {
  }

  lemma EncodingRefines(mem: Memory, base: uint64, page: uint64, h: SectionHeader, p: PageHeader,
                        common: seq<uint32>, encodings: seq<uint32>, i: byte)
    requires h.commonCount == |common| && i < |common| + |encodings|
    requires WordsStored(mem, base, h.commonOffset, common)
    requires WordsStored(mem, page, p.encodingsOffset, encodings)
    ensures EncodingAt(mem, base, page, h, p, i) == Some(if i < |common| then common[i] else encodings[i - |common|])
  {
  }

  function Deltas(es: seq<CompressedEntry>): (keys: seq<uint32>)
    ensures |keys| == |es|
  {
    seq(|es|, i requires 0 <= i < |es| => es[i].delta)
  }

  lemma CompressedKeys(mem: Memory, addr: uint64, common: seq<uint32>, row: Row)
    requires row.page.Compressed? && RowOk(common, row) && CompressedStored(mem, addr, row.page.entries)
    ensures HasKeys(CompressedTable(mem, addr), Deltas(row.page.entries))
    ensures SortedKeys(Deltas(row.page.entries))
    ensures forall i :: 0 <= i < |row.page.entries| ==>
              var e := row.page.entries[i];
              ReadWord32(mem, Add64(addr, i * 4)) == Some(e.delta + e.index * BITS_24) && e.delta < BITS_24
  {
    hide ReadWord32;
    var es, keys, flat := row.page.entries, Deltas(row.page.entries), RowFunctions(common, row);
    forall i | 0 <= i < |keys| ensures CompressedTable(mem, addr).Key(i) == Some(keys[i]) {
      SplitWord(es[i].delta, es[i].index);
    }
    assert forall i :: 0 <= i < |keys| ==> flat[i].start == row.start + keys[i];
  }

  lemma CompressedRefines(mem: Memory, base: uint64, page: uint64, h: SectionHeader, common: seq<uint32>, row: Row,
                          pcOffset: uint32)
    requires row.page.Compressed? && RowOk(common, row) && row.start <= pcOffset
    requires ReadCompressedHeader(mem, page).Some?
    requires ReadCompressedHeader(mem, page).value.entryCount == |row.page.entries|
    requires CompressedStored(mem, Add64(page, COMPRESSED_HEADER_SIZE), row.page.entries)
    requires h.commonCount == |common| && WordsStored(mem, base, h.commonOffset, common)
    requires WordsStored(mem, page, ReadCompressedHeader(mem, page).value.encodingsOffset, row.page.encodings)
    ensures CompressedEncoding(mem, base, page, h, pcOffset - row.start) == RowResult(common, row, pcOffset)
  {
    hide ReadWord32, ReadCompressedHeader, EncodingAt, WordsStored, Table.Key, CompressedStored, HasKeys, SortedKeys,
         RowFunctions, RowOk, Low64;
    var es, flat, keys := row.page.entries, RowFunctions(common, row), Deltas(row.page.entries);
    var t := CompressedTable(mem, Add64(page, COMPRESSED_HEADER_SIZE));
    CompressedKeys(mem, t.addr, common, row);
    CompressedFlat(common, row);
    BisectSorted(t, keys, pcOffset - row.start, 0, |keys|);
    var k := Bisect(t, pcOffset - row.start, 0, |keys|).value;
    ScanAt(flat, pcOffset, k);
    SplitWord(es[k - 1].delta, es[k - 1].index);
    EncodingRefines(mem, base, page, h, ReadCompressedHeader(mem, page).value, common, row.page.encodings, es[k - 1].index);
  }

  lemma CompressedFlat(common: seq<uint32>, row: Row)
    requires row.page.Compressed? && RowOk(common, row)
    ensures var es, flat := row.page.entries, RowFunctions(common, row);
            && |flat| == |es| > 0 && es[0].delta == 0
            && (forall i :: 0 <= i < |flat| ==> flat[i].start == row.start + Deltas(es)[i])
            && forall i :: 0 <= i < |es| ==>
                 && flat[i] == CompressedFunction(common, row.start, row.page.encodings, es[i])
                 && es[i].index < |common| + |row.page.encodings|
  {
  }

  lemma PageRefines(mem: Memory, base: uint64, h: SectionHeader, e: IndexEntry, common: seq<uint32>, row: Row,
                    pcOffset: uint32)
    requires RowOk(common, row) && row.start <= pcOffset && e.functionOffset == row.start
    requires PageStored(mem, base, e.secondLevel, row.page) && TightPage(row.page)
    requires h.commonCount == |common| && WordsStored(mem, base, h.commonOffset, common)
    ensures PageEncoding(mem, base, h, e, pcOffset) == RowResult(common, row, pcOffset)
  {
    hide ReadWord32, ReadRegularHeader, ReadCompressedHeader, RegularStored, CompressedStored, WordsStored, RegularEncoding,
         CompressedEncoding, RowOk, RowResult;
    var page := Add64(base, e.secondLevel);
    match row.page
    case Regular(_, _) => RegularRefines(mem, page, common, row, pcOffset);
    case Compressed(_, _, _) => CompressedRefines(mem, base, page, h, common, row, pcOffset);
    case Sentinel => NoEncoding(common, row, pcOffset);
    case Other => NoEncoding(common, row, pcOffset);
  }

  lemma NoEncoding(common: seq<uint32>, row: Row, pcOffset: uint32)
    requires (row.page.Sentinel? || row.page.Other?) && row.start <= pcOffset
    ensures RowResult(common, row, pcOffset) == None
  {
  }

  function Starts(rows: seq<Row>): (keys: seq<uint32>)
    ensures |keys| == |rows| && forall i :: 0 <= i < |rows| ==> keys[i] == rows[i].start
  {
    seq(|rows|, i requires 0 <= i < |rows| => rows[i].start)
  }

  lemma IndexKeys(mem: Memory, base: uint64, index: uint64, rows: seq<Row>)
    requires RowsStored(mem, base, index, rows)
    ensures HasKeys(IndexTable(mem, index), Starts(rows))
  {
    hide ReadIndexEntry, PageStored;
    forall i | 0 <= i < |rows| ensures IndexTable(mem, index).Key(i) == Some(rows[i].start) {
      assert RowStored(mem, base, index, i, rows[i]);
    }
  }

  lemma IndexRow(mem: Memory, base: uint64, index: uint64, t: UnwindTable, k: nat)
    requires RowsStored(mem, base, index, t.rows) && RowsOk(t.common, t.rows) && k < |t.rows|
    ensures RowOk(t.common, t.rows[k])
    ensures ReadIndexEntry(mem, Add64(index, k * INDEX_ENTRY_SIZE)).Some?
    ensures var e := ReadIndexEntry(mem, Add64(index, k * INDEX_ENTRY_SIZE)).value;
            e.functionOffset == t.rows[k].start && PageStored(mem, base, e.secondLevel, t.rows[k].page)
  {
    hide ReadIndexEntry, PageStored, RowOk;
    assert RowStored(mem, base, index, k, t.rows[k]);
  }

  /** Row k - 1 is read from its index entry, and its page is searched as a scan of its functions. */
  lemma RowRefines(mem: Memory, base: uint64, h: SectionHeader, index: uint64, t: UnwindTable, k: nat, pcOffset: uint32)
    requires h.commonCount == |t.common| && WordsStored(mem, base, h.commonOffset, t.common)
    requires RowsStored(mem, base, index, t.rows) && RowsOk(t.common, t.rows) && Tight(t)
    requires 0 < k <= |t.rows| && t.rows[k - 1].start <= pcOffset
    ensures var e := ReadIndexEntry(mem, Add64(index, (k - 1) * INDEX_ENTRY_SIZE));
            e.Some? && PageEncoding(mem, base, h, e.value, pcOffset) == RowResult(t.common, t.rows[k - 1], pcOffset)
  {
    hide ReadIndexEntry, PageStored, WordsStored, RowsStored, RowOk, RowsOk, PageEncoding, RowResult, TightPage;
    IndexRow(mem, base, index, t, k - 1);
    var e := ReadIndexEntry(mem, Add64(index, (k - 1) * INDEX_ENTRY_SIZE)).value;
    PageRefines(mem, base, h, e, t.common, t.rows[k - 1], pcOffset);
  }

  /**
   On every well-formed table whose entries lie right behind the page headers, wherever it lies in
   memory, the two-level lookup gives the same answer as a scan of the flat function table. The lookup
   does not read a page's own entry offset; UnwindOffsets shows what other offsets do.
   */
  lemma LookupRefinesFlat(mem: Memory, base: uint64, t: UnwindTable, pcOffset: uint32)
    requires WellFormed(t) && Stored(mem, base, t) && Tight(t)
    ensures ResultOf(LookupEncoding(mem, base, pcOffset)) == FlatResult(Flat(t.common, t.rows), pcOffset)
  {
    hide ReadSectionHeader, ReadIndexEntry, WordsStored, RowsOk, PageEncoding, Flat, RowsStored, Tight, RowFunctions, Scan,
         Bisect, ModeOf, Low64, WellFormed;
    var h := ReadSectionHeader(mem, base).value;
    var index := Add64(base, h.indexOffset);
    var k := RowFound(mem, base, index, t, pcOffset);
    if k > 0 {
      RowRefines(mem, base, h, index, t, k, pcOffset);
    }
  }

  /** The bisection of the index ends behind the row that a scan would take. */
  lemma RowFound(mem: Memory, base: uint64, index: uint64, t: UnwindTable, pcOffset: uint32) returns (k: nat)
    requires WellFormed(t) && RowsStored(mem, base, index, t.rows)
    ensures k <= |t.rows| && Bisect(IndexTable(mem, index), pcOffset, 0, |t.rows|) == Some(k)
    ensures RowsOk(t.common, t.rows) && (k > 0 ==> t.rows[k - 1].start <= pcOffset)
    ensures Scan(Flat(t.common, t.rows), pcOffset)
            == if k == 0 then None else Scan(RowFunctions(t.common, t.rows[k - 1]), pcOffset)
  {
    hide RowsOk, Flat, RowsStored, StaysBelow, Table.Key, HasKeys, RowFunctions, Scan, Bisect;
    var keys := Starts(t.rows);
    IndexKeys(mem, base, index, t.rows);
    BisectSorted(IndexTable(mem, index), keys, pcOffset, 0, |keys|);
    k := Bisect(IndexTable(mem, index), pcOffset, 0, |keys|).value;
    ScanOfFlat(t.common, t.rows, pcOffset, k);
  }

  /** The flat table of a well-formed one is in order, so the scan finds the greatest start. */
  lemma {:induction false} FlatIsSorted(t: UnwindTable, n: nat)
    requires WellFormed(t) && n <= |t.rows|
    ensures SortedFunctions(Flat(t.common, t.rows[..n]))
    ensures var fs := Flat(t.common, t.rows[..n]);
            forall i :: 0 <= i < |fs| ==> fs[i].start <= if n == 0 then 0 else Limit(t.rows, n - 1)
  {
    hide RowFunctions;
    if n > 0 {
      FlatIsSorted(t, n - 1);
      assert t.rows[..n][..n - 1] == t.rows[..n - 1];
      var row := t.rows[n - 1];
      assert RowOk(t.common, row) && StaysBelow(t.common, row, Limit(t.rows, n - 1));
      var a, b := Flat(t.common, t.rows[..n - 1]), RowFunctions(t.common, row);
      assert forall j :: 0 <= j < |b| ==> row.start <= b[j].start <= Limit(t.rows, n - 1);
      assert forall i :: 0 <= i < |a| ==> a[i].start <= row.start;
      assert Flat(t.common, t.rows[..n]) == a + b;
    }
  }
}
