/** The structures of a 64-bit Mach-O core file, with their little-endian encodings. */
module MachO {
  import opened Bytes
  import opened CStrings

  const MH_MAGIC_64: uint32 := 0xFEED_FACF
  const CPU_TYPE_ARM64: uint32 := 0x100_000C
  const MH_EXECUTE: uint32 := 2
  const MH_CORE: uint32 := 4
  const LC_THREAD: uint32 := 4
  const LC_SEGMENT_64: uint32 := 0x19
  const LC_UUID: uint32 := 0x1b
  const LC_NOTE: uint32 := 0x31

  const HEADER_SIZE := 32
  const NOTE_SIZE := 40
  const SEGMENT_SIZE := 72
  const THREAD_SIZE := 312

  datatype Header = Header(magic: uint32, cputype: uint32, cpusubtype: uint32, filetype: uint32,
                           ncmds: uint32, sizeofcmds: uint32, flags: uint32, reserved: uint32)

  datatype NoteCommand = NoteCommand(owner: name16, offset: uint64, size: uint64)

  datatype SegmentCommand = SegmentCommand(segname: name16, vmaddr: uint64, vmsize: uint64, fileoff: uint64,
                                           filesize: uint64, maxprot: uint32, initprot: uint32,
                                           nsects: uint32, flags: uint32)

  function EncodeHeader(h: Header): (s: seq<byte>)
    ensures |s| == HEADER_SIZE
  {
    LE32(h.magic) + LE32(h.cputype) + LE32(h.cpusubtype) + LE32(h.filetype)
    + LE32(h.ncmds) + LE32(h.sizeofcmds) + LE32(h.flags) + LE32(h.reserved)
  }

  function EncodeNote(n: NoteCommand): (s: seq<byte>)
    ensures |s| == NOTE_SIZE
  {
    LE32(LC_NOTE) + LE32(NOTE_SIZE) + n.owner + LE64(n.offset) + LE64(n.size)
  }

  function EncodeSegment(c: SegmentCommand): (s: seq<byte>)
    ensures |s| == SEGMENT_SIZE
  {
    LE32(LC_SEGMENT_64) + LE32(SEGMENT_SIZE) + c.segname
    + LE64(c.vmaddr) + LE64(c.vmsize) + LE64(c.fileoff) + LE64(c.filesize)
    + LE32(c.maxprot) + LE32(c.initprot) + LE32(c.nsects) + LE32(c.flags)
  }

  function DecodeHeader(file: seq<byte>, pos: nat): Header
    requires InFile(file, pos, HEADER_SIZE)
  {
    Header(Field32(file, pos), Field32(file, pos + 4), Field32(file, pos + 8), Field32(file, pos + 12),
           Field32(file, pos + 16), Field32(file, pos + 20), Field32(file, pos + 24), Field32(file, pos + 28))
  }

  function DecodeNote(file: seq<byte>, pos: nat): NoteCommand
    requires InFile(file, pos, NOTE_SIZE)
  {
    NoteCommand(Slice(file, pos + 8, 16), Field64(file, pos + 24), Field64(file, pos + 32))
  }

  function DecodeSegment(file: seq<byte>, pos: nat): SegmentCommand
    requires InFile(file, pos, SEGMENT_SIZE)
  {
    SegmentCommand(Slice(file, pos + 8, 16), Field64(file, pos + 24), Field64(file, pos + 32),
                   Field64(file, pos + 40), Field64(file, pos + 48), Field32(file, pos + 56),
                   Field32(file, pos + 60), Field32(file, pos + 64), Field32(file, pos + 68))
  }

  /** Reading one 32-bit field back, given where it lies in an encoded structure. */
  lemma Read32(file: seq<byte>, pos: nat, width: nat, code: seq<byte>, off: nat, n: uint32)
    requires InFile(file, pos, width) && Slice(file, pos, width) == code
    requires off + 4 <= width && Slice(code, off, 4) == LE32(n)
    ensures Field32(file, pos + off) == n
  {
    SliceOfSlice(file, pos, width, off, 4);
    Field32Of(n, file, pos + off);
  }

  lemma Read64(file: seq<byte>, pos: nat, width: nat, code: seq<byte>, off: nat, n: uint64)
    requires InFile(file, pos, width) && Slice(file, pos, width) == code
    requires off + 8 <= width && Slice(code, off, 8) == LE64(n)
    ensures Field64(file, pos + off) == n
  {
    SliceOfSlice(file, pos, width, off, 8);
    Field64Of(n, file, pos + off);
  }

  lemma HeaderRoundTrip(h: Header, file: seq<byte>, pos: nat)
    requires InFile(file, pos, HEADER_SIZE) && Slice(file, pos, HEADER_SIZE) == EncodeHeader(h)
    ensures DecodeHeader(file, pos) == h
  {
    var code := EncodeHeader(h);
    Read32(file, pos, 32, code, 0, h.magic);
    Read32(file, pos, 32, code, 4, h.cputype);
    Read32(file, pos, 32, code, 8, h.cpusubtype);
    Read32(file, pos, 32, code, 12, h.filetype);
    Read32(file, pos, 32, code, 16, h.ncmds);
    Read32(file, pos, 32, code, 20, h.sizeofcmds);
    Read32(file, pos, 32, code, 24, h.flags);
    Read32(file, pos, 32, code, 28, h.reserved);
  }

  lemma NoteRoundTrip(n: NoteCommand, file: seq<byte>, pos: nat)
    requires InFile(file, pos, NOTE_SIZE) && Slice(file, pos, NOTE_SIZE) == EncodeNote(n)
    ensures Field32(file, pos) == LC_NOTE && Field32(file, pos + 4) == NOTE_SIZE
    ensures DecodeNote(file, pos) == n
  {
    var code := EncodeNote(n);
    Read32(file, pos, 40, code, 0, LC_NOTE);
    Read32(file, pos, 40, code, 4, NOTE_SIZE);
    SliceOfSlice(file, pos, 40, 8, 16);
    assert Slice(code, 8, 16) == n.owner;
    Read64(file, pos, 40, code, 24, n.offset);
    Read64(file, pos, 40, code, 32, n.size);
  }

  lemma SegmentRoundTrip(c: SegmentCommand, file: seq<byte>, pos: nat)
    requires InFile(file, pos, SEGMENT_SIZE) && Slice(file, pos, SEGMENT_SIZE) == EncodeSegment(c)
    ensures Field32(file, pos) == LC_SEGMENT_64 && Field32(file, pos + 4) == SEGMENT_SIZE
    ensures DecodeSegment(file, pos) == c
  {
    hide Field32, Field64;
    var code := EncodeSegment(c);
    Read32(file, pos, 72, code, 0, LC_SEGMENT_64);
    Read32(file, pos, 72, code, 4, SEGMENT_SIZE);
    SliceOfSlice(file, pos, 72, 8, 16);
    assert Slice(code, 8, 16) == c.segname;
    SegmentWords(c, file, pos);
  }

  lemma SegmentWords(c: SegmentCommand, file: seq<byte>, pos: nat)
    requires InFile(file, pos, SEGMENT_SIZE) && Slice(file, pos, SEGMENT_SIZE) == EncodeSegment(c)
    ensures Field64(file, pos + 24) == c.vmaddr && Field64(file, pos + 32) == c.vmsize
    ensures Field64(file, pos + 40) == c.fileoff && Field64(file, pos + 48) == c.filesize
    ensures Field32(file, pos + 56) == c.maxprot && Field32(file, pos + 60) == c.initprot
    ensures Field32(file, pos + 64) == c.nsects && Field32(file, pos + 68) == c.flags
  {
    hide Field32, Field64, EncodeSegment;
    var code := EncodeSegment(c);
    SegmentAddressCodes(c);
    SegmentFlagCodes(c);
    Read64(file, pos, 72, code, 24, c.vmaddr);
    Read64(file, pos, 72, code, 32, c.vmsize);
    Read64(file, pos, 72, code, 40, c.fileoff);
    Read64(file, pos, 72, code, 48, c.filesize);
    Read32(file, pos, 72, code, 56, c.maxprot);
    Read32(file, pos, 72, code, 60, c.initprot);
    Read32(file, pos, 72, code, 64, c.nsects);
    Read32(file, pos, 72, code, 68, c.flags);
  }

  lemma SegmentAddressCodes(c: SegmentCommand)
    ensures var code := EncodeSegment(c);
            && |code| == SEGMENT_SIZE
            && Slice(code, 24, 8) == LE64(c.vmaddr) && Slice(code, 32, 8) == LE64(c.vmsize)
            && Slice(code, 40, 8) == LE64(c.fileoff) && Slice(code, 48, 8) == LE64(c.filesize)
  {
    hide LE32, LE64;
  }

  lemma SegmentFlagCodes(c: SegmentCommand)
    ensures var code := EncodeSegment(c);
            && |code| == SEGMENT_SIZE
            && Slice(code, 56, 4) == LE32(c.maxprot) && Slice(code, 60, 4) == LE32(c.initprot)
            && Slice(code, 64, 4) == LE32(c.nsects) && Slice(code, 68, 4) == LE32(c.flags)
  {
    hide LE32, LE64;
  }
}
