/** What the program learns from the header and the load commands of a loaded image. */
module ModuleImage {
  import opened Bytes
  import opened CStrings
  import opened MachO
  import opened DataAccess

  const SECTION_SIZE := 80

  datatype Section = Section(name: name16, addr: uint64)

  datatype ImageCommand =
    | SegmentCmd(name: name16, vmaddr: uint64, vmsize: uint64, sections: seq<Section>)
    | UuidCmd(uuid: name16)
    | OtherCmd

  datatype SegmentInfo = SegmentInfo(segmentName: name16, address: uint64, size: uint64)

  datatype ModuleInfo = ModuleInfo(loadAddress: uint64, uuid: name16, filePath: seq<byte>, segments: seq<SegmentInfo>,
                                   executing: bool, headerAndLoadCommands: seq<byte>)

  const TEXT_NAME: seq<byte> := [0x5f, 0x5f, 0x54, 0x45, 0x58, 0x54]                                 // __TEXT
  const PAGEZERO_NAME: seq<byte> := [0x5f, 0x5f, 0x50, 0x41, 0x47, 0x45, 0x5a, 0x45, 0x52, 0x4f]     // __PAGEZERO
  const UNWIND_NAME: seq<byte> :=
    [0x5f, 0x5f, 0x75, 0x6e, 0x77, 0x69, 0x6e, 0x64, 0x5f, 0x69, 0x6e, 0x66, 0x6f]                   // __unwind_info

  predicate IsText(name: name16) {
    CString(name) == TEXT_NAME
  }

  // ---------------------------------------------------------------- raw load commands

  /** The bytes of the command at `pos` are all there. */
  predicate CommandFits(raw: seq<byte>, pos: nat) {
    && InFile(raw, pos, 8)
    && (Field32(raw, pos) == LC_SEGMENT_64 ==>
          InFile(raw, pos, SEGMENT_SIZE)
          && InFile(raw, pos + SEGMENT_SIZE, SECTION_SIZE * Field32(raw, pos + 64)))
    && (Field32(raw, pos) == LC_UUID ==> InFile(raw, pos, 24))
  }

  predicate CommandsFit(raw: seq<byte>, pos: nat, n: nat)
    decreases n
  {
    n == 0 || (CommandFits(raw, pos) && CommandsFit(raw, pos + Field32(raw, pos + 4), n - 1))
  }

  /** The header and all of its load commands lie within the bytes. */
  predicate WellFormedImage(raw: seq<byte>) {
    InFile(raw, 0, HEADER_SIZE) && CommandsFit(raw, HEADER_SIZE, Field32(raw, 16))
  }

  function SectionsAt(raw: seq<byte>, pos: nat, n: nat): seq<Section>
    requires InFile(raw, pos, SECTION_SIZE * n)
  {
    if n == 0 then []
    else SectionsAt(raw, pos, n - 1) + [SectionAt(raw, pos + SECTION_SIZE * (n - 1))]
  }

  function SectionAt(raw: seq<byte>, pos: nat): Section
    requires InFile(raw, pos, SECTION_SIZE)
  {
    Section(Slice(raw, pos, 16), Field64(raw, pos + 32))
  }

  function CommandAt(raw: seq<byte>, pos: nat): ImageCommand
    requires CommandFits(raw, pos)
  {
    if Field32(raw, pos) == LC_SEGMENT_64 then
      SegmentCmd(Slice(raw, pos + 8, 16), Field64(raw, pos + 24), Field64(raw, pos + 32),
                 SectionsAt(raw, pos + SEGMENT_SIZE, Field32(raw, pos + 64)))
    else if Field32(raw, pos) == LC_UUID then
      UuidCmd(Slice(raw, pos + 8, 16))
    else
      OtherCmd
  }

  function CommandsAt(raw: seq<byte>, pos: nat, n: nat): seq<ImageCommand>
    requires CommandsFit(raw, pos, n)
    decreases n
  {
    if n == 0 then []
    else [CommandAt(raw, pos)] + CommandsAt(raw, pos + Field32(raw, pos + 4), n - 1)
  }

  /** The load commands of an image. */
  function ImageCommands(raw: seq<byte>): seq<ImageCommand>
    requires WellFormedImage(raw)
  {
    CommandsAt(raw, HEADER_SIZE, Field32(raw, 16))
  }

  /** Where a walk over the raw commands stands: `done` have been passed, `left` are still to come. */
  ghost predicate Walking(raw: seq<byte>, done: seq<ImageCommand>, pos: nat, left: nat)
    requires WellFormedImage(raw)
  {
    CommandsFit(raw, pos, left) && ImageCommands(raw) == done + CommandsAt(raw, pos, left)
  }

  lemma WalkStart(raw: seq<byte>)
    requires WellFormedImage(raw)
    ensures Walking(raw, [], HEADER_SIZE, Field32(raw, 16))
  {
    assert [] + CommandsAt(raw, HEADER_SIZE, Field32(raw, 16)) == ImageCommands(raw);
  }

  lemma WalkStep(raw: seq<byte>, done: seq<ImageCommand>, pos: nat, left: nat)
    requires WellFormedImage(raw) && Walking(raw, done, pos, left) && left > 0
    ensures CommandFits(raw, pos)
    ensures Walking(raw, done + [CommandAt(raw, pos)], pos + Field32(raw, pos + 4), left - 1)
  {
    hide CommandAt;
    var rest := CommandsAt(raw, pos + Field32(raw, pos + 4), left - 1);
    assert done + ([CommandAt(raw, pos)] + rest) == (done + [CommandAt(raw, pos)]) + rest;
  }

  lemma WalkEnd(raw: seq<byte>, done: seq<ImageCommand>, pos: nat)
    requires WellFormedImage(raw) && Walking(raw, done, pos, 0)
    ensures done == ImageCommands(raw)
  {
    assert done + [] == done;
  }

  // ---------------------------------------------------------------- what each walker looks for

  /** Names are copied up to their terminator; what follows it is zero. */
  function CopiedName(name: name16): name16 {
    PadName(CString(name))
  }

  function SegmentsOf(cs: seq<ImageCommand>): seq<SegmentInfo> {
    if cs == [] then []
    else
      var last := cs[|cs| - 1];
      SegmentsOf(cs[..|cs| - 1])
      + if last.SegmentCmd? then [SegmentInfo(CopiedName(last.name), last.vmaddr, last.vmsize)] else []
  }

  function IsTextCmd(c: ImageCommand): bool {
    c.SegmentCmd? && IsText(c.name)
  }

  /** Preferred address of the first __TEXT segment. */
  function FirstText(cs: seq<ImageCommand>): Option<uint64> {
    if cs == [] then None
    else
      var last := cs[|cs| - 1];
      match FirstText(cs[..|cs| - 1])
      case Some(a) => Some(a)
      case None => if IsTextCmd(last) then Some(last.vmaddr) else None
  }

  /** Preferred address of the last __TEXT segment. */
  function LastText(cs: seq<ImageCommand>): Option<uint64> {
    if cs == [] then None
    else
      var last := cs[|cs| - 1];
      if IsTextCmd(last) then Some(last.vmaddr) else LastText(cs[..|cs| - 1])
  }

  function LastUnwindSection(sections: seq<Section>, before: uint64): uint64 {
    if sections == [] then before
    else
      var last := sections[|sections| - 1];
      if CString(last.name) == UNWIND_NAME then last.addr else LastUnwindSection(sections[..|sections| - 1], before)
  }

  /** Preferred address of the last unwind section of all segments, 0 if there is none. */
  function UnwindSection(cs: seq<ImageCommand>): uint64 {
    if cs == [] then 0
    else
      var last := cs[|cs| - 1];
      var before := UnwindSection(cs[..|cs| - 1]);
      if last.SegmentCmd? then LastUnwindSection(last.sections, before) else before
  }

  function FirstUuid(cs: seq<ImageCommand>): Option<name16> {
    if cs == [] then None
    else
      var last := cs[|cs| - 1];
      match FirstUuid(cs[..|cs| - 1])
      case Some(u) => Some(u)
      case None => if last.UuidCmd? then Some(last.uuid) else None
  }

  lemma {:induction false} FirstOnesStay(a: seq<ImageCommand>, b: seq<ImageCommand>)
    ensures FirstText(a).Some? ==> FirstText(a + b) == FirstText(a)
    ensures FirstUuid(a).Some? ==> FirstUuid(a + b) == FirstUuid(a)
  {
    if b == [] {
      assert a + b == a;
    } else {
      FirstOnesStay(a, b[..|b| - 1]);
      assert (a + b)[..|a + b| - 1] == a + b[..|b| - 1];
    }
  }

  lemma Snoc(cs: seq<ImageCommand>, c: ImageCommand)
    ensures (cs + [c])[..|cs|] == cs && (cs + [c])[|cs|] == c
  {
  }

  // ---------------------------------------------------------------- the walkers

  function NumberOfCommands(raw: seq<byte>): uint32
    requires WellFormedImage(raw)
  {
    Field32(raw, 16)
  }

  method GetSegmentsOfModule(raw: seq<byte>) returns (result: seq<SegmentInfo>)
    requires WellFormedImage(raw)
    ensures result == SegmentsOf(ImageCommands(raw))
  {
    hide WellFormedImage, ImageCommands, Walking, CommandsAt, CommandsFit, CopiedName;
    result := [];
    var pos: nat := HEADER_SIZE;
    WalkStart(raw);
    ghost var done: seq<ImageCommand> := [];
    var n := NumberOfCommands(raw);
    var i := 0;
    while i < n
      invariant 0 <= i <= n
      invariant Walking(raw, done, pos, n - i)
      invariant result == SegmentsOf(done)
    {
      WalkStep(raw, done, pos, n - i);
      var c := CommandAt(raw, pos);
      Snoc(done, c);
      if Field32(raw, pos) == LC_SEGMENT_64 {
        result := result + [SegmentInfo(CopiedName(c.name), c.vmaddr, c.vmsize)];
      }
      done := done + [c];
      pos := pos + Field32(raw, pos + 4);
      i := i + 1;
    }
    WalkEnd(raw, done, pos);
  }

  /** The first UUID, or zeros. */
  method GetUuidOfModule(raw: seq<byte>) returns (uuid: name16)
    requires WellFormedImage(raw)
    ensures uuid == UuidOf(ImageCommands(raw))
  {
    hide WellFormedImage, ImageCommands, Walking, CommandsAt, CommandsFit;
    var pos: nat := HEADER_SIZE;
    WalkStart(raw);
    ghost var done: seq<ImageCommand> := [];
    var n := NumberOfCommands(raw);
    var i := 0;
    while i < n
      invariant 0 <= i <= n
      invariant Walking(raw, done, pos, n - i)
      invariant FirstUuid(done).None?
    {
      WalkStep(raw, done, pos, n - i);
      var c := CommandAt(raw, pos);
      Snoc(done, c);
      done := done + [c];
      pos := pos + Field32(raw, pos + 4);
      i := i + 1;
      if c.UuidCmd? {
        FoundIsFirst(raw, done, pos, n - i);
        return c.uuid;
      }
    }
    WalkEnd(raw, done, pos);
    return Zeros(16);
  }

  function UuidOf(cs: seq<ImageCommand>): name16 {
    if FirstUuid(cs).Some? then FirstUuid(cs).value else Zeros(16)
  }

  /** What has been found before the end of the walk is the first one of the whole image. */
  lemma FoundIsFirst(raw: seq<byte>, done: seq<ImageCommand>, pos: nat, left: nat)
    requires WellFormedImage(raw) && Walking(raw, done, pos, left)
    ensures FirstText(done).Some? ==> FirstText(ImageCommands(raw)) == FirstText(done)
    ensures FirstUuid(done).Some? ==> FirstUuid(ImageCommands(raw)) == FirstUuid(done)
  {
    FirstOnesStay(done, CommandsAt(raw, pos, left));
  }

  /** The preferred address of __TEXT as the main executable's note uses it; 0 without __TEXT. */
  method GetPreferredTextAddress(raw: seq<byte>) returns (address: uint64)
    requires WellFormedImage(raw)
    ensures address == PreferredText(ImageCommands(raw))
  {
    hide WellFormedImage, ImageCommands, Walking, CommandsAt, CommandsFit, IsText;
    var pos: nat := HEADER_SIZE;
    WalkStart(raw);
    ghost var done: seq<ImageCommand> := [];
    var n := NumberOfCommands(raw);
    var i := 0;
    while i < n
      invariant 0 <= i <= n
      invariant Walking(raw, done, pos, n - i)
      invariant FirstText(done).None?
    {
      WalkStep(raw, done, pos, n - i);
      var c := CommandAt(raw, pos);
      Snoc(done, c);
      done := done + [c];
      pos := pos + Field32(raw, pos + 4);
      i := i + 1;
      if c.SegmentCmd? && IsText(c.name) {
        FoundIsFirst(raw, done, pos, n - i);
        return c.vmaddr;
      }
    }
    WalkEnd(raw, done, pos);
    return 0;
  }

  function PreferredText(cs: seq<ImageCommand>): uint64 {
    if FirstText(cs).Some? then FirstText(cs).value else 0
  }

  /** The walk of the unwind lookup: it never stops early, so later finds replace earlier ones. */
  method FindUnwindSection(raw: seq<byte>) returns (unwindInfoAddr: uint64, text: Option<uint64>)
    requires WellFormedImage(raw)
    ensures unwindInfoAddr == UnwindSection(ImageCommands(raw))
    ensures text == LastText(ImageCommands(raw))
  {
    hide WellFormedImage, ImageCommands, Walking, CommandsAt, CommandsFit, IsText;
    unwindInfoAddr, text := 0, None;
    var pos: nat := HEADER_SIZE;
    WalkStart(raw);
    ghost var done: seq<ImageCommand> := [];
    var n := NumberOfCommands(raw);
    var i := 0;
    while i < n
      invariant 0 <= i <= n
      invariant Walking(raw, done, pos, n - i)
      invariant unwindInfoAddr == UnwindSection(done) && text == LastText(done)
    {
      WalkStep(raw, done, pos, n - i);
      var c := CommandAt(raw, pos);
      Snoc(done, c);
      if c.SegmentCmd? {
        if IsText(c.name) {
          text := Some(c.vmaddr);
        }
        unwindInfoAddr := FindInSections(c.sections, unwindInfoAddr);
      }
      done := done + [c];
      pos := pos + Field32(raw, pos + 4);
      i := i + 1;
    }
    WalkEnd(raw, done, pos);
  }

  method FindInSections(sections: seq<Section>, before: uint64) returns (address: uint64)
    ensures address == LastUnwindSection(sections, before)
  {
    address := before;
    for j := 0 to |sections|
      invariant address == LastUnwindSection(sections[..j], before)
    {
      assert sections[..j + 1][..j] == sections[..j];
      if CString(sections[j].name) == UNWIND_NAME {
        address := sections[j].addr;
      }
    }
    assert sections[..|sections|] == sections;
  }

  // ---------------------------------------------------------------- one module

  function IsPageZero(name: name16): bool {
    CString(name) == PAGEZERO_NAME
  }

  /** The first __TEXT segment of a module. */
  function TextSegment(segments: seq<SegmentInfo>): Option<SegmentInfo> {
    if segments == [] then None
    else
      var last := segments[|segments| - 1];
      match TextSegment(segments[..|segments| - 1])
      case Some(s) => Some(s)
      case None => if IsText(last.segmentName) then Some(last) else None
  }

  lemma {:induction false} TextSegmentStays(a: seq<SegmentInfo>, b: seq<SegmentInfo>)
    ensures TextSegment(a).Some? ==> TextSegment(a + b) == TextSegment(a)
  {
    if b == [] {
      assert a + b == a;
    } else {
      TextSegmentStays(a, b[..|b| - 1]);
      assert (a + b)[..|a + b| - 1] == a + b[..|b| - 1];
    }
  }

  method GetTextSegmentOfModule(segments: seq<SegmentInfo>) returns (r: Option<SegmentInfo>)
    ensures r == TextSegment(segments)
  {
    for i := 0 to |segments|
      invariant TextSegment(segments[..i]).None?
    {
      assert segments[..i + 1][..i] == segments[..i];
      if IsText(segments[i].segmentName) {
        TextSegmentStays(segments[..i + 1], segments[i + 1..]);
        assert segments[..i + 1] + segments[i + 1..] == segments;
        return Some(segments[i]);
      }
    }
    assert segments[..|segments|] == segments;
    return None;
  }

  /** The slide of the segments: from the first __TEXT segment, 0 without one. */
  function SegmentSlide(segments: seq<SegmentInfo>, loadAddress: uint64): uint64 {
    match TextSegment(segments)
    case Some(s) => Sub64(loadAddress, s.address)
    case None => 0
  }

  /** All segments but __PAGEZERO move by the slide. */
  function Slid(s: SegmentInfo, slide: uint64): SegmentInfo {
    if IsPageZero(s.segmentName) then s else s.(address := Add64(s.address, slide))
  }

  function SlidSegments(segments: seq<SegmentInfo>, slide: uint64): (r: seq<SegmentInfo>)
    ensures |r| == |segments|
  {
    seq(|segments|, i requires 0 <= i < |segments| => Slid(segments[i], slide))
  }

  /** The module behind an image at a load address. */
  function ModuleOf(loadAddress: uint64, path: seq<byte>, raw: seq<byte>): ModuleInfo
    requires WellFormedImage(raw)
  {
    var cs := ImageCommands(raw);
    var segments := SegmentsOf(cs);
    ModuleInfo(loadAddress, UuidOf(cs), path, SlidSegments(segments, SegmentSlide(segments, loadAddress)), false, raw)
  }

  lemma {:induction false} SegmentsAmongCommands(cs: seq<ImageCommand>)
    ensures |SegmentsOf(cs)| <= |cs|
  {
    if cs != [] {
      SegmentsAmongCommands(cs[..|cs| - 1]);
    }
  }

  lemma {:induction false} CommandsCounted(raw: seq<byte>, pos: nat, n: nat)
    requires CommandsFit(raw, pos, n)
    ensures |CommandsAt(raw, pos, n)| == n
    decreases n
  {
    if n > 0 {
      CommandsCounted(raw, pos + Field32(raw, pos + 4), n - 1);
    }
  }

  lemma SegmentsAreFew(raw: seq<byte>)
    requires WellFormedImage(raw)
    ensures |SegmentsOf(ImageCommands(raw))| < UINT32_MOD
  {
    SegmentsAmongCommands(ImageCommands(raw));
    CommandsCounted(raw, HEADER_SIZE, Field32(raw, 16));
  }

  /** Header and load commands as they lie in memory, if all of them can be read. */
  function RawImage(mem: Memory, loadAddress: uint64): Option<seq<byte>> {
    match ReadProcessMemory(mem, loadAddress, HEADER_SIZE)
    case None => None
    case Some(header) => ReadProcessMemory(mem, loadAddress, HEADER_SIZE + Field32(header, 20))
  }

  method CreateModuleInfo(mem: Memory, loadAddress: uint64, path: seq<byte>) returns (r: Option<ModuleInfo>)
    requires var raw := RawImage(mem, loadAddress); raw.Some? ==> WellFormedImage(raw.value)
    ensures var raw := RawImage(mem, loadAddress);
            r == if raw.Some? then Some(ModuleOf(loadAddress, path, raw.value)) else None
  {
    var raw := RawImage(mem, loadAddress);
    if raw.None? {
      return None;
    }
    var segments := GetSegmentsOfModule(raw.value);
    ghost var unslid := segments;
    var text := GetTextSegmentOfModule(segments);
    var slide := if text.Some? then Sub64(loadAddress, text.value.address) else 0;
    for i := 0 to |segments|
      invariant |segments| == |unslid|
      invariant forall k :: 0 <= k < |unslid| ==> segments[k] == if k < i then Slid(unslid[k], slide) else unslid[k]
    {
      if !IsPageZero(segments[i].segmentName) {
        segments := segments[i := segments[i].(address := Add64(segments[i].address, slide))];
      }
    }
    assert segments == SlidSegments(unslid, slide);
    var uuid := GetUuidOfModule(raw.value);
    return Some(ModuleInfo(loadAddress, uuid, path, segments, false, raw.value));
  }

  // ---------------------------------------------------------------- what the walkers find

  /** Command i is a segment called __TEXT. */
  predicate TextAt(cs: seq<ImageCommand>, i: nat) {
    i < |cs| && cs[i].SegmentCmd? && CString(cs[i].name) == [0x5f, 0x5f, 0x54, 0x45, 0x58, 0x54]
  }

  lemma {:induction false} FirstTextMeans(cs: seq<ImageCommand>, i: nat)
    requires i == |cs| || TextAt(cs, i)
    requires forall j :: 0 <= j < i ==> !TextAt(cs, j)
    ensures FirstText(cs) == if i < |cs| then Some(cs[i].vmaddr) else None
  {
    if cs != [] {
      var n := |cs| - 1;
      assert forall j :: 0 <= j < n ==> (TextAt(cs[..n], j) <==> TextAt(cs, j));
      assert TextAt(cs, n) <==> IsTextCmd(cs[n]);
      FirstTextMeans(cs[..n], if i < n then i else n);
    }
  }

  lemma {:induction false} LastTextMeans(cs: seq<ImageCommand>, i: nat)
    requires TextAt(cs, i) && forall j :: i < j < |cs| ==> !TextAt(cs, j)
    ensures LastText(cs) == Some(cs[i].vmaddr)
  {
    var n := |cs| - 1;
    assert TextAt(cs, n) <==> IsTextCmd(cs[n]);
    if i < n {
      assert forall j :: 0 <= j < n ==> (TextAt(cs[..n], j) <==> TextAt(cs, j));
      LastTextMeans(cs[..n], i);
    }
  }

  lemma {:induction false} FirstUuidMeans(cs: seq<ImageCommand>, i: nat)
    requires i == |cs| || (i < |cs| && cs[i].UuidCmd?)
    requires forall j :: 0 <= j < i ==> !cs[j].UuidCmd?
    ensures UuidOf(cs) == if i < |cs| then cs[i].uuid else Zeros(16)
    ensures FirstUuid(cs) == if i < |cs| then Some(cs[i].uuid) else None
  {
    if cs != [] {
      var n := |cs| - 1;
      FirstUuidMeans(cs[..n], if i < n then i else n);
    }
  }

  /** Section j of command i is called __unwind_info. */
  predicate UnwindAt(cs: seq<ImageCommand>, i: nat, j: nat) {
    && i < |cs| && cs[i].SegmentCmd? && j < |cs[i].sections|
    && CString(cs[i].sections[j].name)
       == [0x5f, 0x5f, 0x75, 0x6e, 0x77, 0x69, 0x6e, 0x64, 0x5f, 0x69, 0x6e, 0x66, 0x6f]
  }

  lemma {:induction false} LastOfSections(xs: seq<Section>, before: uint64, j: nat)
    requires j < |xs| && CString(xs[j].name) == UNWIND_NAME
    requires forall k :: j < k < |xs| ==> CString(xs[k].name) != UNWIND_NAME
    ensures LastUnwindSection(xs, before) == xs[j].addr
  {
    if j < |xs| - 1 {
      LastOfSections(xs[..|xs| - 1], before, j);
    }
  }

  lemma {:induction false} NoneOfSections(xs: seq<Section>, before: uint64)
    requires forall k :: 0 <= k < |xs| ==> CString(xs[k].name) != UNWIND_NAME
    ensures LastUnwindSection(xs, before) == before
  {
    if xs != [] {
      NoneOfSections(xs[..|xs| - 1], before);
    }
  }

  /** The unwind section that the walk ends up with is the last one of the last segment that has one. */
  lemma {:induction false} UnwindSectionMeans(cs: seq<ImageCommand>, i: nat, j: nat)
    requires UnwindAt(cs, i, j)
    requires forall k: nat :: j < k ==> !UnwindAt(cs, i, k)
    requires forall l: nat, k: nat :: i < l ==> !UnwindAt(cs, l, k)
    ensures UnwindSection(cs) == cs[i].sections[j].addr
  {
    var n := |cs| - 1;
    if i < n {
      forall l: nat, k: nat ensures UnwindAt(cs[..n], l, k) ==> UnwindAt(cs, l, k) {
      }
      UnwindSectionMeans(cs[..n], i, j);
      if cs[n].SegmentCmd? {
        forall k: nat | k < |cs[n].sections| ensures CString(cs[n].sections[k].name) != UNWIND_NAME {
          assert !UnwindAt(cs, n, k);
        }
        NoneOfSections(cs[n].sections, UnwindSection(cs[..n]));
      }
    } else {
      forall k: nat | j < k < |cs[n].sections| ensures CString(cs[n].sections[k].name) != UNWIND_NAME {
        assert !UnwindAt(cs, n, k);
      }
      LastOfSections(cs[n].sections, UnwindSection(cs[..n]), j);
    }
  }

  /**
   The segments of a module are its segment commands in order: entry j comes from command from[j]. All but
   __PAGEZERO are moved by the distance from the first __TEXT to the load address, if there is one.
   */
  lemma SegmentsInOrder(loadAddress: uint64, path: seq<byte>, raw: seq<byte>, text: nat) returns (from: seq<nat>)
    requires WellFormedImage(raw)
    requires var cs := ImageCommands(raw);
             (text == |cs| || TextAt(cs, text)) && forall j :: 0 <= j < text ==> !TextAt(cs, j)
    ensures var cs, segments := ImageCommands(raw), ModuleOf(loadAddress, path, raw).segments;
            && |from| == |segments| && (forall i, j :: 0 <= i < j < |from| ==> from[i] < from[j])
            && (forall k :: 0 <= k < |cs| ==> (k in from <==> cs[k].SegmentCmd?))
            && forall j :: 0 <= j < |from| ==>
                 && from[j] < |cs| && cs[from[j]].SegmentCmd?
                 && IsSlid(segments[j], cs[from[j]], loadAddress, if text < |cs| then Some(cs[text].vmaddr) else None)
  {
    hide WellFormedImage, ImageCommands, CString, CopiedName;
    var cs := ImageCommands(raw);
    FirstTextMeans(cs, text);
    TextOfSegments(cs);
    from := SegmentSources(cs);
    var segments, slide := SegmentsOf(cs), SegmentSlide(SegmentsOf(cs), loadAddress);
    forall j | 0 <= j < |from|
      ensures IsSlid(Slid(segments[j], slide), cs[from[j]], loadAddress,
                     if text < |cs| then Some(cs[text].vmaddr) else None)
    {
      CopiedNameKeeps(cs[from[j]].name);
      SlidIsMoved(segments[j], cs[from[j]], loadAddress, if text < |cs| then Some(cs[text].vmaddr) else None, slide);
    }
  }

  /** A segment of a module that was loaded where its command says, moved as far as its text. */
  predicate IsSlid(s: SegmentInfo, c: ImageCommand, loadAddress: uint64, text: Option<uint64>)
    requires c.SegmentCmd?
  {
    && CString(s.segmentName) == CString(c.name) && s.size == c.vmsize
    && (if CString(c.name) == [0x5f, 0x5f, 0x50, 0x41, 0x47, 0x45, 0x5a, 0x45, 0x52, 0x4f] || text.None?
        then s.address == c.vmaddr
        else (s.address - c.vmaddr - (loadAddress - text.value)) % UINT64_MOD == 0)
  }

  lemma SlidIsMoved(s: SegmentInfo, c: ImageCommand, loadAddress: uint64, text: Option<uint64>, slide: uint64)
    requires c.SegmentCmd? && CString(s.segmentName) == CString(c.name) && s.size == c.vmsize && s.address == c.vmaddr
    requires slide == match text case Some(t) => Sub64(loadAddress, t) case None => 0
    ensures IsSlid(Slid(s, slide), c, loadAddress, text)
  {
    hide CString, Low64;
    Low64IsModulo(c.vmaddr + slide);
    if text.Some? {
      MovedBy(c.vmaddr, loadAddress, text.value);
    }
  }

  lemma MovedBy(address: uint64, to: uint64, text: uint64)
    ensures (Add64(address, Sub64(to, text)) - address - (to - text)) % UINT64_MOD == 0
  {
    hide Low64;
    var slide: nat := Sub64(to, text);
    Low64IsModulo(address + slide);
    var n := (address + slide) / UINT64_MOD;
    assert Add64(address, slide) == address + slide - n * UINT64_MOD;
    assert slide == to - text || slide == to - text + UINT64_MOD;
    var m := if slide == to - text then -n else 1 - n;
    assert Add64(address, slide) - address - (to - text) == m * UINT64_MOD;
  }

  lemma {:induction false} NoUnwindSection(cs: seq<ImageCommand>)
    requires forall l: nat, k: nat :: !UnwindAt(cs, l, k)
    ensures UnwindSection(cs) == 0
  {
    if cs != [] {
      var n := |cs| - 1;
      forall l: nat, k: nat ensures !UnwindAt(cs[..n], l, k) {
        assert !UnwindAt(cs, l, k);
      }
      NoUnwindSection(cs[..n]);
      if cs[n].SegmentCmd? {
        forall k: nat | k < |cs[n].sections| ensures CString(cs[n].sections[k].name) != UNWIND_NAME {
          assert !UnwindAt(cs, n, k);
        }
        NoneOfSections(cs[n].sections, 0);
      }
    }
  }

  /** The __TEXT segment of a module is the first of its segments with that name. */
  lemma {:induction false} TextSegmentMeans(segments: seq<SegmentInfo>, i: nat)
    requires i == |segments|
             || (i < |segments| && CString(segments[i].segmentName) == [0x5f, 0x5f, 0x54, 0x45, 0x58, 0x54])
    requires forall j :: 0 <= j < i ==> CString(segments[j].segmentName) != [0x5f, 0x5f, 0x54, 0x45, 0x58, 0x54]
    ensures TextSegment(segments) == if i < |segments| then Some(segments[i]) else None
  {
    hide CString;
    if segments != [] {
      var n := |segments| - 1;
      TextSegmentMeans(segments[..n], if i < n then i else n);
    }
  }

  /** Entry j of the segments comes from command from[j], and `from` has all segment commands in order. */
  predicate ComeFrom(segments: seq<SegmentInfo>, from: seq<nat>, cs: seq<ImageCommand>) {
    && |from| == |segments| && (forall i, j :: 0 <= i < j < |from| ==> from[i] < from[j])
    && (forall k :: 0 <= k < |cs| ==> (k in from <==> cs[k].SegmentCmd?))
    && forall j :: 0 <= j < |from| ==>
         && from[j] < |cs| && cs[from[j]].SegmentCmd?
         && segments[j] == SegmentInfo(CopiedName(cs[from[j]].name), cs[from[j]].vmaddr, cs[from[j]].vmsize)
  }

  lemma {:induction false} SegmentSources(cs: seq<ImageCommand>) returns (from: seq<nat>)
    ensures ComeFrom(SegmentsOf(cs), from, cs)
  {
    hide CopiedName, ComeFrom;
    if cs == [] {
      from := [];
      NoSources();
    } else {
      var n := |cs| - 1;
      from := SegmentSources(cs[..n]);
      assert cs == cs[..n] + [cs[n]];
      MoreSources(SegmentsOf(cs[..n]), from, cs[..n], cs[n]);
      if cs[n].SegmentCmd? {
        from := from + [n];
      } else {
        assert SegmentsOf(cs) == SegmentsOf(cs[..n]);
      }
    }
  }

  lemma NoSources()
    ensures ComeFrom([], [], [])
  {
  }

  lemma MoreSources(segments: seq<SegmentInfo>, from: seq<nat>, cs: seq<ImageCommand>, c: ImageCommand)
    requires ComeFrom(segments, from, cs)
    ensures c.SegmentCmd? ==>
              ComeFrom(segments + [SegmentInfo(CopiedName(c.name), c.vmaddr, c.vmsize)], from + [|cs|], cs + [c])
    ensures !c.SegmentCmd? ==> ComeFrom(segments, from, cs + [c])
  {
    hide CopiedName;
    assert |cs| !in from;
  }

  /** Everything else about a module as it is found. */
  lemma ModuleFields(loadAddress: uint64, path: seq<byte>, raw: seq<byte>, uuid: nat)
    requires WellFormedImage(raw)
    requires var cs := ImageCommands(raw);
             (uuid == |cs| || (uuid < |cs| && cs[uuid].UuidCmd?)) && forall j :: 0 <= j < uuid ==> !cs[j].UuidCmd?
    ensures var m := ModuleOf(loadAddress, path, raw);
            && m.loadAddress == loadAddress && m.filePath == path && !m.executing && m.headerAndLoadCommands == raw
            && m.uuid == if uuid < |ImageCommands(raw)| then ImageCommands(raw)[uuid].uuid else Zeros(16)
  {
    hide WellFormedImage, ImageCommands;
    FirstUuidMeans(ImageCommands(raw), uuid);
  }

  /** Header and commands are had exactly when all of their bytes can be read, and they are those bytes. */
  lemma RawImageMeans(mem: Memory, loadAddress: uint64)
    ensures RawImage(mem, loadAddress).Some?
            <==> Readable(mem, loadAddress, 32) && Readable(mem, loadAddress, 32 + Word(mem, loadAddress + 20))
    ensures var raw := RawImage(mem, loadAddress);
            raw.Some? ==>
              && |raw.value| == 32 + Word(mem, loadAddress + 20)
              && forall i :: 0 <= i < |raw.value| ==> loadAddress + i in mem && raw.value[i] == mem[loadAddress + i]
  {
    hide Word, Field32;
    if Readable(mem, loadAddress, 32) {
      FieldsRead(mem, loadAddress, 32, 20);
      var raw := RawImage(mem, loadAddress);
      if raw.Some? {
        assert forall i :: 0 <= i < |raw.value| ==> Loaded(mem, loadAddress + i) == Some(raw.value[i]);
      }
    }
  }

  // ---------------------------------------------------------------- the three slides

  lemma CopiedNameKeeps(name: name16)
    ensures CString(CopiedName(name)) == CString(name)
  {
    PadNameRoundTrip(CString(name));
  }

  /** The module's own segment list leads to the same first __TEXT as its raw load commands. */
  lemma {:induction false} TextOfSegments(cs: seq<ImageCommand>)
    ensures TextSegment(SegmentsOf(cs)).Some? <==> FirstText(cs).Some?
    ensures FirstText(cs).Some? ==> TextSegment(SegmentsOf(cs)).value.address == FirstText(cs).value
  {
    hide CopiedName, IsText, IsTextCmd;
    if cs != [] {
      var init, last := cs[..|cs| - 1], cs[|cs| - 1];
      TextOfSegments(init);
      if last.SegmentCmd? {
        TextOfCopied(last);
        var info := SegmentInfo(CopiedName(last.name), last.vmaddr, last.vmsize);
        assert SegmentsOf(cs) == SegmentsOf(init) + [info];
        assert (SegmentsOf(init) + [info])[..|SegmentsOf(init)|] == SegmentsOf(init);
      } else {
        NotText(last);
        assert SegmentsOf(cs) == SegmentsOf(init);
      }
    }
  }

  lemma TextOfCopied(c: ImageCommand)
    requires c.SegmentCmd?
    ensures IsText(CopiedName(c.name)) == IsTextCmd(c)
  {
    CopiedNameKeeps(c.name);
  }

  lemma NotText(c: ImageCommand)
    requires !c.SegmentCmd?
    ensures !IsTextCmd(c)
  {
  }

  lemma SubAdd(a: uint64, b: uint64)
    ensures Add64(a, Sub64(b, a)) == b
  {
    Low64IsModulo(a + Sub64(b, a));
  }

  lemma {:induction false} SlidText(segments: seq<SegmentInfo>, slide: uint64)
    ensures TextSegment(SlidSegments(segments, slide))
            == match TextSegment(segments)
               case Some(s) => Some(s.(address := Add64(s.address, slide)))
               case None => None
  {
    if segments != [] {
      var n := |segments| - 1;
      SlidText(segments[..n], slide);
      assert SlidSegments(segments, slide)[..n] == SlidSegments(segments[..n], slide);
      assert TEXT_NAME[2] != PAGEZERO_NAME[2];
    }
  }

  /** After sliding, the first __TEXT segment starts at the load address. */
  lemma TextStartsAtLoadAddress(loadAddress: uint64, path: seq<byte>, raw: seq<byte>)
    requires WellFormedImage(raw)
    ensures var text := TextSegment(ModuleOf(loadAddress, path, raw).segments);
            && (text.Some? <==> FirstText(ImageCommands(raw)).Some?)
            && (text.Some? ==> text.value.address == loadAddress)
  {
    var segments := SegmentsOf(ImageCommands(raw));
    SlidText(segments, SegmentSlide(segments, loadAddress));
    TextOfSegments(ImageCommands(raw));
    if TextSegment(segments).Some? {
      SubAdd(TextSegment(segments).value.address, loadAddress);
    }
  }

  /** The slide in the note about the main executable. */
  function MainBinSlide(cs: seq<ImageCommand>, loadAddress: uint64): uint64 {
    Sub64(loadAddress, PreferredText(cs))
  }

  /** The slide of the unwind lookup, which gives up without __TEXT. */
  function UnwindSlide(cs: seq<ImageCommand>, loadAddress: uint64): Option<uint64> {
    match LastText(cs)
    case Some(a) => Some(Sub64(loadAddress, a))
    case None => None
  }

  lemma {:induction false} FirstAndLastExist(cs: seq<ImageCommand>)
    ensures FirstText(cs).Some? <==> LastText(cs).Some?
  {
    if cs != [] {
      FirstAndLastExist(cs[..|cs| - 1]);
    }
  }

  /**
   Three walkers compute a slide for the same module. The two that take the first __TEXT agree
   exactly when there is one (or the load address is 0); the third takes the last __TEXT, and agrees
   with them exactly when first and last __TEXT prefer the same address.
   */
  lemma SlidesAgreeIff(cs: seq<ImageCommand>, loadAddress: uint64)
    ensures MainBinSlide(cs, loadAddress) == SegmentSlide(SegmentsOf(cs), loadAddress)
            <==> FirstText(cs).Some? || loadAddress == 0
    ensures UnwindSlide(cs, loadAddress) == Some(SegmentSlide(SegmentsOf(cs), loadAddress))
            <==> FirstText(cs).Some? && FirstText(cs) == LastText(cs)
  {
    TextOfSegments(cs);
    FirstAndLastExist(cs);
  }

  /** With two __TEXT segments that prefer different addresses, the slides differ. */
  lemma SlidesCanDiffer()
    ensures var text := PadName(TEXT_NAME);
            var cs := [SegmentCmd(text, 0x1000, 0x1000, []), SegmentCmd(text, 0x5000, 0x1000, [])];
            && MainBinSlide(cs, 0x9000) == 0x8000 && UnwindSlide(cs, 0x9000) == Some(0x4000)
  {
    var text := PadName(TEXT_NAME);
    PadNameRoundTrip(TEXT_NAME);
    var c1, c2 := SegmentCmd(text, 0x1000, 0x1000, []), SegmentCmd(text, 0x5000, 0x1000, []);
    var cs := [c1, c2];
    assert cs[..1] == [c1] && [c1][..0] == [];
    assert FirstText([c1]) == Some(0x1000);
    assert FirstText(cs) == Some(0x1000) && LastText(cs) == Some(0x5000);
  }
}
