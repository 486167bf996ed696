/** The reader side: the walk over the load commands, and what it finds in a file that was built. */
module CoreReader {
  import opened Bytes
  import opened MachO
  import opened Layout

  const MH_CIGAM_64: uint32 := 0xCFFA_EDFE
  const UUID_SIZE := 24

  datatype Command =
    | Note(note: NoteCommand)
    | Thread(state: thread_state)
    | Segment(segment: SegmentCommand)
    | Uuid(uuid: seq<byte>)
    | Unknown(cmd: uint32, data: seq<byte>)

  datatype Core = Core(header: Header, commands: seq<Command>, end: nat)

  /** One command and its size; the known ones have the size of their structure. */
  function DecodeCommand(file: seq<byte>, pos: nat): Option<(Command, nat)> {
    if !InFile(file, pos, 8) then None
    else
      var cmd, cmdsize := Field32(file, pos), Field32(file, pos + 4);
      if cmd == LC_UUID then
        if InFile(file, pos, UUID_SIZE) then Some((Uuid(Slice(file, pos + 8, 16)), UUID_SIZE)) else None
      else if cmd == LC_NOTE then
        if InFile(file, pos, NOTE_SIZE) then Some((Note(DecodeNote(file, pos)), NOTE_SIZE)) else None
      else if cmd == LC_THREAD then
        if InFile(file, pos, THREAD_SIZE)
        then Some((Thread(Slice(file, pos + 8, THREAD_SIZE - 8)), THREAD_SIZE)) else None
      else if cmd == LC_SEGMENT_64 then
        if InFile(file, pos, SEGMENT_SIZE) then Some((Segment(DecodeSegment(file, pos)), SEGMENT_SIZE)) else None
      else if cmdsize >= 8 && InFile(file, pos, cmdsize) then
        Some((Unknown(cmd, Slice(file, pos + 8, cmdsize - 8)), cmdsize))
      else
        None
  }

  /** The n commands from a position on, and where they end. */
  function Walk(file: seq<byte>, pos: nat, n: nat): Option<(seq<Command>, nat)> {
    if n == 0 then Some(([], pos))
    else
      match Walk(file, pos, n - 1)
      case None => None
      case Some((cs, end)) =>
        match DecodeCommand(file, end)
        case None => None
        case Some((c, size)) => Some((cs + [c], end + size))
  }

  function ParseFile(file: seq<byte>): Option<Core> {
    if !InFile(file, 0, HEADER_SIZE) then None
    else
      var header := DecodeHeader(file, 0);
      if header.magic != MH_MAGIC_64 && header.magic != MH_CIGAM_64 then None
      else
        match Walk(file, HEADER_SIZE, header.ncmds)
        case None => None
        case Some((commands, end)) => Some(Core(header, commands, end))
  }

  lemma WalkStep(file: seq<byte>, pos: nat, n: nat, cs: seq<Command>, end: nat)
    requires Walk(file, pos, n) == Some((cs, end))
    ensures DecodeCommand(file, end).None? ==> Walk(file, pos, n + 1).None?
    ensures DecodeCommand(file, end).Some? ==>
              var (c, size) := DecodeCommand(file, end).value;
              Walk(file, pos, n + 1) == Some((cs + [c], end + size))
  {
    hide DecodeCommand;
  }

  /** Once a walk has failed, a longer one fails as well. */
  lemma {:induction false} WalkFails(file: seq<byte>, pos: nat, n: nat, m: nat)
    requires n <= m && Walk(file, pos, n).None?
    ensures Walk(file, pos, m).None?
    decreases m
  {
    hide DecodeCommand;
    if n < m {
      WalkFails(file, pos, n, m - 1);
    }
  }

  /** The walk as the reader performs it: one command after the other, counting them. */
  method HandleCommands(file: seq<byte>, start: nat, n: nat) returns (r: Option<(seq<Command>, nat)>)
    ensures r == Walk(file, start, n)
  {
    hide DecodeCommand, Walk;
    WalkNothing(file, start);
    var pos: nat, commands, handled := start, [], 0;
    while handled < n
      invariant 0 <= handled <= n
      invariant Walk(file, start, handled) == Some((commands, pos))
    {
      WalkStep(file, start, handled, commands, pos);
      var next := DecodeCommand(file, pos);
      if next.None? {
        WalkFails(file, start, handled + 1, n);
        return None;
      }
      commands, pos := commands + [next.value.0], pos + next.value.1;
      handled := handled + 1;
    }
    return Some((commands, pos));
  }

  method AutoParseMachOFile(file: seq<byte>) returns (r: Option<Core>)
    ensures r == ParseFile(file)
  {
    hide Walk;
    if !InFile(file, 0, HEADER_SIZE) {
      return None;
    }
    var header := DecodeHeader(file, 0);
    if header.magic != MH_MAGIC_64 && header.magic != MH_CIGAM_64 {
      return None;
    }
    var walked := HandleCommands(file, HEADER_SIZE, header.ncmds);
    match walked
    case None => return None;
    case Some((commands, end)) => return Some(Core(header, commands, end));
  }

  // ---------------------------------------------------------------- what was written is what is read

  /** A command as some file may have it; the reader skips over what it does not know. */
  predicate IsCommand(c: Command) {
    match c
    case Uuid(u) => |u| == 16
    case Unknown(cmd, data) => cmd !in [4, 0x19, 0x1b, 0x31] && 8 + |data| < UINT32_MOD
    case _ => true
  }

  function EncodeCommand(c: Command): seq<byte>
    requires IsCommand(c)
  {
    match c
    case Note(n) => EncodeNote(n)
    case Thread(s) => EncodeThread(s)
    case Segment(s) => EncodeSegment(s)
    case Uuid(u) => LE32(0x1b) + LE32(24) + u
    case Unknown(cmd, data) => LE32(cmd) + LE32(8 + |data|) + data
  }

  predicate AllCommands(cs: seq<Command>) {
    forall i :: 0 <= i < |cs| ==> IsCommand(cs[i])
  }

  function Commands(notes: seq<NoteEntry>, threads: seq<thread_state>, segments: seq<SegmentEntry>): seq<Command> {
    seq(|notes|, i requires 0 <= i < |notes| => Note(notes[i].cmd))
    + seq(|threads|, i requires 0 <= i < |threads| => Thread(threads[i]))
    + seq(|segments|, i requires 0 <= i < |segments| => Segment(segments[i].cmd))
  }

  function Codes(cs: seq<Command>): (r: seq<seq<byte>>)
    requires AllCommands(cs)
    ensures |r| == |cs|
  {
    seq(|cs|, i requires 0 <= i < |cs| => EncodeCommand(cs[i]))
  }

  lemma CommandRoundTrip(c: Command, file: seq<byte>, pos: nat)
    requires IsCommand(c) && HoldsAt(file, pos, EncodeCommand(c))
    ensures DecodeCommand(file, pos) == Some((c, |EncodeCommand(c)|))
  {
    match c
    case Uuid(u) => UuidRoundTrip(u, file, pos);
    case Unknown(cmd, data) => UnknownRoundTrip(cmd, data, file, pos);
    case Note(n) => NoteRoundTrip(n, file, pos);
    case Segment(s) => SegmentRoundTrip(s, file, pos);
    case Thread(s) =>
      var code := EncodeThread(s);
      Read32(file, pos, THREAD_SIZE, code, 0, LC_THREAD);
      SliceOfSlice(file, pos, THREAD_SIZE, 8, THREAD_SIZE - 8);
      assert Slice(code, 8, THREAD_SIZE - 8) == s;
  }

  lemma UuidRoundTrip(u: seq<byte>, file: seq<byte>, pos: nat)
    requires |u| == 16 && HoldsAt(file, pos, LE32(0x1b) + LE32(24) + u)
    ensures DecodeCommand(file, pos) == Some((Uuid(u), 24))
  {
    hide Field32, LE32, DecodeNote, DecodeSegment;
    HoldsSplit(file, pos, LE32(0x1b) + LE32(24), u);
    HoldsSplit(file, pos, LE32(0x1b), LE32(24));
    Field32Of(0x1b, file, pos);
    Field32Of(24, file, pos + 4);
  }

  lemma UnknownRoundTrip(cmd: uint32, data: seq<byte>, file: seq<byte>, pos: nat)
    requires IsCommand(Unknown(cmd, data)) && HoldsAt(file, pos, LE32(cmd) + LE32(8 + |data|) + data)
    ensures DecodeCommand(file, pos) == Some((Unknown(cmd, data), 8 + |data|))
  {
    hide Field32, LE32, DecodeNote, DecodeSegment;
    HoldsSplit(file, pos, LE32(cmd) + LE32(8 + |data|), data);
    HoldsSplit(file, pos, LE32(cmd), LE32(8 + |data|));
    Field32Of(cmd, file, pos);
    Field32Of(8 + |data|, file, pos + 4);
  }

  lemma {:induction false} WalkRoundTrip(file: seq<byte>, pos: nat, cs: seq<Command>)
    requires AllCommands(cs) && HoldsAt(file, pos, Flatten(Codes(cs)))
    ensures Walk(file, pos, |cs|) == Some((cs, pos + |Flatten(Codes(cs))|))
    decreases |cs|
  {
    hide EncodeCommand, DecodeCommand, Walk, HoldsAt, IsCommand;
    if cs != [] {
      var n := |cs| - 1;
      var init, last := cs[..n], cs[n];
      assert Codes(cs) == Codes(init) + [EncodeCommand(last)];
      FlattenSnoc(Codes(init), EncodeCommand(last));
      var size := |Flatten(Codes(init))|;
      HoldsSplit(file, pos, Flatten(Codes(init)), EncodeCommand(last));
      WalkRoundTrip(file, pos, init);
      CommandRoundTrip(last, file, pos + size);
      WalkStep(file, pos, n, init, pos + size);
      assert init + [last] == cs;
    } else {
      WalkNothing(file, pos);
    }
  }

  lemma WalkNothing(file: seq<byte>, pos: nat)
    ensures Walk(file, pos, 0) == Some(([], pos))
  {
  }

  lemma CommandsAreCodes(notes: seq<NoteEntry>, threads: seq<thread_state>, segments: seq<SegmentEntry>)
    ensures AllCommands(Commands(notes, threads, segments))
    ensures Codes(Commands(notes, threads, segments)) == CommandCodes(notes, threads, segments)
  {
    hide EncodeNote, EncodeThread, EncodeSegment;
  }

  /** A header that counts the commands which follow it. */
  predicate HeaderFor(header: Header, notes: nat, threads: nat, segments: nat) {
    && header.magic == MH_MAGIC_64
    && header.ncmds == notes + threads + segments
    && header.sizeofcmds == CommandsSize(notes, threads, segments)
  }

  /**
   A file of either byte order mark that begins with a header and as many commands as the header counts reads back to
   them, whatever commands they are; a file that begins with anything else is refused.
   */
  lemma AnyFileReadsBack(file: seq<byte>, header: Header, cs: seq<Command>)
    requires AllCommands(cs) && HoldsAt(file, 0, EncodeHeader(header) + Flatten(Codes(cs)))
    ensures header.magic in [0xFEED_FACF, 0xCFFA_EDFE] && header.ncmds == |cs| ==>
              ParseFile(file) == Some(Core(header, cs, 32 + |Flatten(Codes(cs))|))
    ensures header.magic !in [0xFEED_FACF, 0xCFFA_EDFE] ==> ParseFile(file) == None
  {
    hide Walk, DecodeHeader, EncodeHeader, Codes, Flatten, HoldsAt;
    HoldsSplit(file, 0, EncodeHeader(header), Flatten(Codes(cs)));
    HeaderRead(file, header);
    WalkRoundTrip(file, HEADER_SIZE, cs);
  }

  lemma HeaderRead(file: seq<byte>, header: Header)
    requires HoldsAt(file, 0, EncodeHeader(header))
    ensures InFile(file, 0, HEADER_SIZE) && DecodeHeader(file, 0) == header
  {
    hide EncodeHeader, DecodeHeader;
    HeaderRoundTrip(header, file, 0);
  }

  /** Walking the commands of a file with the right beginning returns exactly the added commands. */
  lemma ParseRoundTrip(file: seq<byte>, header: Header, notes: seq<NoteEntry>, threads: seq<thread_state>,
                       segments: seq<SegmentEntry>)
    requires HeaderFor(header, |notes|, |threads|, |segments|)
    requires var head := Head(header, notes, threads, segments); InFile(file, 0, |head|) && Slice(file, 0, |head|) == head
    ensures ParseFile(file)
            == Some(Core(header, Commands(notes, threads, segments), HEADER_SIZE + header.sizeofcmds))
  {
    hide Commands, ParseFile, EncodeHeader, CommandCodes, Codes, CommandsSize, EncodeCommand, Flatten, AllCommands;
    CommandCodesSize(notes, threads, segments);
    CommandsAreCodes(notes, threads, segments);
    CommandsCounted(notes, threads, segments);
    AnyFileReadsBack(file, header, Commands(notes, threads, segments));
  }

  lemma CommandsCounted(notes: seq<NoteEntry>, threads: seq<thread_state>, segments: seq<SegmentEntry>)
    ensures |Commands(notes, threads, segments)| == |notes| + |threads| + |segments|
  {
  }
}
