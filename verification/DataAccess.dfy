/** Memory of the suspended process, and the objects that hand its bytes to the core file builder. */
module DataAccess {
  import opened Bytes

  /** The target is suspended, so its memory is an immutable partial function from address to byte. */
  type Memory = map<nat, byte>

  predicate Readable(mem: Memory, address: nat, size: nat) {
    forall a :: address <= a < address + size ==> a in mem
  }

  /** All of [address, address + size), or nothing. */
  function ReadProcessMemory(mem: Memory, address: nat, size: nat): (r: Option<seq<byte>>)
    ensures r.Some? <==> Readable(mem, address, size)
    ensures r.Some? ==> |r.value| == size && forall k :: 0 <= k < size ==> Loaded(mem, address + k) == Some(r.value[k])
  {
    if Readable(mem, address, size)
    then Some(seq(size, k requires 0 <= k < size && Readable(mem, address, size) => mem[address + k]))
    else None
  }

  function Loaded(mem: Memory, a: nat): Option<byte> {
    if a in mem then Some(mem[a]) else None
  }

  function ReadWord32(mem: Memory, address: nat): Option<uint32> {
    match ReadProcessMemory(mem, address, 4)
    case None => None
    case Some(b) => Some(Field32(b, 0))
  }

  // The numbers that lie in memory, the least significant byte first.

  function Half(mem: Memory, a: nat): uint16
    requires Readable(mem, a, 2)
  {
    Two(mem[a], mem[a + 1])
  }

  function Word(mem: Memory, a: nat): uint32
    requires Readable(mem, a, 4)
  {
    Four(mem[a], mem[a + 1], mem[a + 2], mem[a + 3])
  }

  function Quad(mem: Memory, a: nat): uint64
    requires Readable(mem, a, 8)
  {
    var low: nat, high: nat := Word(mem, a), Word(mem, a + 4);
    low + UINT32_MOD * high
  }

  /** Fields of a structure that has been read are the numbers at their addresses. */
  lemma FieldsRead(mem: Memory, a: nat, size: nat, k: nat)
    requires Readable(mem, a, size)
    ensures ReadProcessMemory(mem, a, size).Some?
    ensures k + 2 <= size ==> Field16(ReadProcessMemory(mem, a, size).value, k) == Half(mem, a + k)
    ensures k + 4 <= size ==> Field32(ReadProcessMemory(mem, a, size).value, k) == Word(mem, a + k)
    ensures k + 8 <= size ==> Field64(ReadProcessMemory(mem, a, size).value, k) == Quad(mem, a + k)
  {
    hide Field16, Field32, Field64, Two, Four;
    var b := ReadProcessMemory(mem, a, size).value;
    assert forall i :: 0 <= i < size ==> Loaded(mem, a + i) == Some(b[i]);
    FieldBytes(b, k);
    FieldBytes(b, k + 4);
  }

  lemma WordRead(mem: Memory, a: nat)
    ensures Readable(mem, a, 4) ==> ReadWord32(mem, a) == Some(Word(mem, a))
    ensures !Readable(mem, a, 4) ==> ReadWord32(mem, a) == None
  {
    hide Word, Field32;
    if Readable(mem, a, 4) {
      FieldsRead(mem, a, 4, 0);
    }
  }

  class ProcessMemoryReader {
    const mem: Memory
    const startAddress: uint64
    const maxSize: uint64
    var currentCopy: Option<seq<byte>>

    constructor (mem: Memory, startAddress: uint64, maxSize: uint64)
      ensures this.mem == mem && this.startAddress == startAddress && this.maxSize == maxSize
      ensures currentCopy == None
    {
      this.mem, this.startAddress, this.maxSize := mem, startAddress, maxSize;
      currentCopy := None;
    }

    function Peek(offset: uint64, size: uint64): Option<seq<byte>> {
      if Add64(offset, size) > maxSize then None
      else ReadProcessMemory(mem, Add64(startAddress, offset), size)
    }

    /** Keeps the last piece read; a request past the end is refused without touching it. */
    method Get(offset: uint64, size: uint64) returns (r: Option<seq<byte>>)
      modifies this`currentCopy
      ensures r == Peek(offset, size)
      ensures currentCopy == if Add64(offset, size) > maxSize then old(currentCopy) else r
    {
      if Add64(offset, size) > maxSize {
        return None;
      }
      currentCopy := ReadProcessMemory(mem, Add64(startAddress, offset), size);
      return currentCopy;
    }
  }

  datatype DataPtr = Copied(bytes: seq<byte>) | ProcessMemory(reader: ProcessMemoryReader)

  datatype DataProvider = DataProvider(ptr: DataPtr, size: uint64) {

    /** How the program makes its providers: the size is that of what stands behind it. */
    predicate Valid() {
      match ptr
      case Copied(bytes) => size == |bytes|
      case ProcessMemory(reader) => size == reader.maxSize && reader.startAddress + reader.maxSize <= UINT64_MOD
    }

    function Reader(): set<ProcessMemoryReader> {
      if ptr.ProcessMemory? then {ptr.reader} else {}
    }

    /** Byte k of the data, if it can be had. */
    function At(k: nat): Option<byte> {
      match ptr
      case Copied(bytes) => if k < |bytes| then Some(bytes[k]) else None
      case ProcessMemory(reader) =>
        if k < reader.maxSize then Loaded(reader.mem, reader.startAddress + k) else None
    }

    predicate Available(offset: nat, n: nat) {
      forall k :: offset <= k < offset + n ==> At(k).Some?
    }

    /** A piece of the data; plain copies are only ever asked for pieces that exist. */
    function Piece(offset: uint64, n: uint64): Option<seq<byte>> {
      match ptr
      case Copied(bytes) => if offset + n <= |bytes| then Some(bytes[offset..offset + n]) else None
      case ProcessMemory(reader) => reader.Peek(offset, n)
    }

    /** The data as a whole; a process memory reader does not offer that. */
    function Whole(): Option<seq<byte>> {
      match ptr
      case Copied(bytes) => Some(bytes)
      case ProcessMemory(_) => None
    }

    lemma PieceIsData(offset: uint64, n: uint64)
      requires Valid() && offset + n <= size
      ensures Piece(offset, n).Some? <==> Available(offset, n)
      ensures Piece(offset, n).Some? ==>
                |Piece(offset, n).value| == n
                && IsPrefix(this, offset, Piece(offset, n).value)
    {
      match ptr
      case Copied(_) =>
        assert Available(offset, n);
      case ProcessMemory(reader) =>
        var base := reader.startAddress + offset;
        if Available(offset, n) {
          forall a | base <= a < base + n ensures a in reader.mem {
            assert At(a - reader.startAddress).Some?;
          }
        }
        if Readable(reader.mem, base, n) {
          forall k | offset <= k < offset + n ensures At(k).Some? {
            assert reader.startAddress + k in reader.mem;
          }
        }
    }
  }

  method GetPiece(p: DataProvider, offset: uint64, n: uint64) returns (r: Option<seq<byte>>)
    modifies p.Reader()`currentCopy
    ensures r == p.Piece(offset, n)
  {
    match p.ptr {
      case Copied(_) => r := p.Piece(offset, n);
      case ProcessMemory(reader) => r := reader.Get(offset, n);
    }
  }

  predicate IsPrefix(p: DataProvider, offset: nat, b: seq<byte>) {
    forall k :: 0 <= k < |b| ==> p.At(offset + k) == Some(b[k])
  }

  // ---------------------------------------------------------------- data in chunks

  const MAX_CHUNK_SIZE := 4096 * 1024

  function ChunkSize(size: uint64): uint64 {
    Min64(size, MAX_CHUNK_SIZE)
  }

  /** The bytes of the readable chunks before the first unreadable one. */
  function ReadableChunks(p: DataProvider, offset: nat, chunk: uint64, iters: nat): seq<byte>
    decreases iters
  {
    if iters == 0 || offset + chunk > p.size then []
    else
      match p.Piece(offset, chunk)
      case None => []
      case Some(b) => b + ReadableChunks(p, offset + chunk, chunk, iters - 1)
  }

  /** What is written for a segment: the chunks, then the left-over read from where they stopped. */
  function SegmentBytes(p: DataProvider): Option<seq<byte>>
    requires p.size > 0
  {
    var chunk := ChunkSize(p.size);
    var chunks := ReadableChunks(p, 0, chunk, p.size / chunk);
    var left := p.size % chunk;
    if |chunks| + left > p.size then None
    else
      match p.Piece(|chunks|, left)
      case None => if left == 0 then Some(chunks) else None
      case Some(b) => Some(chunks + b)
  }

  /** Size of `iters` chunks. */
  function Span(iters: nat, chunk: nat): nat {
    if iters == 0 then 0 else chunk + Span(iters - 1, chunk)
  }

  lemma {:induction false} SpanIsProduct(iters: nat, chunk: nat)
    ensures Span(iters, chunk) == iters * chunk
  {
    if iters > 0 {
      SpanIsProduct(iters - 1, chunk);
      assert iters * chunk == (iters - 1) * chunk + chunk;
    }
  }

  lemma ChunkArithmetic(size: uint64)
    requires size > 0
    ensures ChunkSize(size) > 0
    ensures Span(size / ChunkSize(size), ChunkSize(size)) + size % ChunkSize(size) == size
  {
    SpanIsProduct(size / ChunkSize(size), ChunkSize(size));
    if size <= MAX_CHUNK_SIZE {
      assert size / size == 1 && size % size == 0;
    }
  }

  /** One round of the chunk loop: a readable chunk comes first, an unreadable one ends it. */
  lemma ChunkStep(p: DataProvider, offset: uint64, chunk: uint64, iters: nat)
    requires p.Valid() && iters > 0 && offset + Span(iters, chunk) <= p.size
    ensures Span(iters, chunk) == chunk + Span(iters - 1, chunk)
    ensures p.Piece(offset, chunk).None? ==> ReadableChunks(p, offset, chunk, iters) == []
    ensures p.Piece(offset, chunk).Some? ==>
              && |p.Piece(offset, chunk).value| == chunk
              && ReadableChunks(p, offset, chunk, iters)
                 == p.Piece(offset, chunk).value + ReadableChunks(p, offset + chunk, chunk, iters - 1)
  {
    p.PieceIsData(offset, chunk);
  }

  lemma PrefixJoin(p: DataProvider, offset: nat, a: seq<byte>, b: seq<byte>)
    requires IsPrefix(p, offset, a) && IsPrefix(p, offset + |a|, b)
    ensures IsPrefix(p, offset, a + b)
  {
    forall k | 0 <= k < |a + b|
      ensures p.At(offset + k) == Some((a + b)[k])
    {
      if k >= |a| {
        assert p.At(offset + |a| + (k - |a|)) == Some(b[k - |a|]);
      }
    }
  }

  lemma AvailableSplit(p: DataProvider, offset: nat, a: nat, b: nat)
    ensures p.Available(offset, a + b) <==> p.Available(offset, a) && p.Available(offset + a, b)
  {
  }

  lemma {:induction false} ReadableChunksArePrefix(p: DataProvider, offset: nat, chunk: uint64, iters: nat)
    requires p.Valid()
    ensures offset <= p.size ==> offset + |ReadableChunks(p, offset, chunk, iters)| <= p.size
    ensures IsPrefix(p, offset, ReadableChunks(p, offset, chunk, iters))
    decreases iters
  {
    if iters > 0 && offset + chunk <= p.size {
      p.PieceIsData(offset, chunk);
      if p.Piece(offset, chunk).Some? {
        ReadableChunksArePrefix(p, offset + chunk, chunk, iters - 1);
        PrefixJoin(p, offset, p.Piece(offset, chunk).value, ReadableChunks(p, offset + chunk, chunk, iters - 1));
      }
    }
  }

  lemma {:induction false} ReadableChunksComplete(p: DataProvider, offset: nat, chunk: uint64, iters: nat)
    requires p.Valid() && offset + Span(iters, chunk) <= p.size
    ensures |ReadableChunks(p, offset, chunk, iters)| <= Span(iters, chunk)
    ensures |ReadableChunks(p, offset, chunk, iters)| == Span(iters, chunk)
            <==> p.Available(offset, Span(iters, chunk))
    decreases iters
  {
    if iters > 0 {
      p.PieceIsData(offset, chunk);
      AvailableSplit(p, offset, chunk, Span(iters - 1, chunk));
      ReadableChunksComplete(p, offset + chunk, chunk, iters - 1);
    }
  }

  /**
   Whatever is written for a segment is a prefix of its data, and all of its data exactly when all
   of it can be read.
   */
  lemma SegmentBytesArePrefix(p: DataProvider)
    requires p.Valid() && p.size > 0
    ensures SegmentBytes(p).Some? ==> |SegmentBytes(p).value| <= p.size && IsPrefix(p, 0, SegmentBytes(p).value)
    ensures SegmentBytes(p).Some? && |SegmentBytes(p).value| == p.size <==> p.Available(0, p.size)
  {
    ChunkArithmetic(p.size);
    var chunk := ChunkSize(p.size);
    var iters, left := p.size / chunk, p.size % chunk;
    ReadableChunksArePrefix(p, 0, chunk, iters);
    ReadableChunksComplete(p, 0, chunk, iters);
    var chunks := ReadableChunks(p, 0, chunk, iters);
    p.PieceIsData(|chunks|, left);
    AvailableSplit(p, 0, Span(iters, chunk), left);
    if p.Piece(|chunks|, left).Some? {
      PrefixJoin(p, 0, chunks, p.Piece(|chunks|, left).value);
    }
  }

  lemma {:induction false} ReadableChunksCount(p: DataProvider, offset: nat, chunk: uint64, iters: nat, k: nat)
    requires p.Valid() && offset + Span(iters, chunk) <= p.size && k <= iters
    requires forall i :: 0 <= i < k ==> p.Available(offset + Span(i, chunk), chunk)
    requires k < iters ==> !p.Available(offset + Span(k, chunk), chunk)
    ensures |ReadableChunks(p, offset, chunk, iters)| == Span(k, chunk)
    decreases iters
  {
    hide DataProvider.Available;
    if iters > 0 {
      SpanGrows(iters, chunk);
      p.PieceIsData(offset, chunk);
      assert Span(0, chunk) == 0;
      if k > 0 {
        assert p.Available(offset + Span(0, chunk), chunk);
        forall i | 0 <= i < k - 1 ensures p.Available(offset + chunk + Span(i, chunk), chunk) {
          assert p.Available(offset + Span(i + 1, chunk), chunk);
        }
        ReadableChunksCount(p, offset + chunk, chunk, iters - 1, k - 1);
      }
    }
  }

  lemma SpanGrows(iters: nat, chunk: nat)
    requires iters > 0
    ensures Span(iters, chunk) == chunk + Span(iters - 1, chunk)
  {
  }

  /**
   How much of a segment is written. It is read in chunks of 4 MiB, or in one piece if it is smaller. If the first k
   chunks can be read and the next one cannot (or there is none), the segment is these k chunks and, from there on,
   as many bytes as the size exceeds a whole number of chunks; without these the build fails.
   */
  lemma SegmentBytesSize(p: DataProvider, k: nat)
    requires p.Valid() && p.size > 0
    requires var c := if p.size < 4194304 then p.size else 4194304;
             && k <= p.size / c && (forall i :: 0 <= i < k ==> p.Available(i * c, c))
             && (k < p.size / c ==> !p.Available(k * c, c))
    ensures var c := if p.size < 4194304 then p.size else 4194304;
            && (SegmentBytes(p).Some? <==> p.Available(k * c, p.size % c))
            && (SegmentBytes(p).Some? ==> |SegmentBytes(p).value| == k * c + p.size % c)
  {
    hide DataProvider.Available, ReadableChunks, Span;
    ChunkArithmetic(p.size);
    var c := ChunkSize(p.size);
    var iters, left := p.size / c, p.size % c;
    forall i: nat ensures Span(i, c) == i * c {
      SpanIsProduct(i, c);
    }
    ReadableChunksCount(p, 0, c, iters, k);
    SpanMonotone(k, iters, c);
    p.PieceIsData(k * c, left);
    if left == 0 {
      NothingAvailable(p, k * c);
    }
  }

  lemma SpanMonotone(k: nat, iters: nat, c: nat)
    requires k <= iters
    ensures k * c <= iters * c
  {
  }

  lemma NothingAvailable(p: DataProvider, offset: nat)
    ensures p.Available(offset, 0)
  {
  }
}
