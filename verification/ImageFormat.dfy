/** Images as a linker writes their header and load commands, and that the walkers read them back. */
module ImageFormat {
  import opened Bytes
  import opened CStrings
  import opened MachO
  import opened ModuleImage

  function EncodeSection(x: Section): (r: seq<byte>)
    ensures |r| == SECTION_SIZE
  {
    x.name + Zeros(16) + LE64(x.addr) + Zeros(40)
  }

  function EncodeSections(xs: seq<Section>): (r: seq<seq<byte>>)
    ensures |r| == |xs|
  {
    seq(|xs|, i requires 0 <= i < |xs| => EncodeSection(xs[i]))
  }

  /** A command whose size field is right; fields the program does not look at are zero. */
  function EncodeImageCommand(c: ImageCommand): seq<byte>
    requires SizeOf(c) < UINT32_MOD
  {
    match c
    case SegmentCmd(name, vmaddr, vmsize, sections) =>
      LE32(0x19) + LE32(SizeOf(c)) + name + LE64(vmaddr) + LE64(vmsize) + Zeros(24) + LE32(|sections|) + LE32(0)
      + Flatten(EncodeSections(sections))
    case UuidCmd(uuid) => LE32(0x1b) + LE32(24) + uuid
    case OtherCmd => LE32(2) + LE32(8)
  }

  function SizeOf(c: ImageCommand): nat {
    match c
    case SegmentCmd(_, _, _, sections) => 72 + 80 * |sections|
    case UuidCmd(_) => 24
    case OtherCmd => 8
  }

  function EncodeImageCommands(cs: seq<ImageCommand>): (r: seq<seq<byte>>)
    requires forall i :: 0 <= i < |cs| ==> SizeOf(cs[i]) < UINT32_MOD
    ensures |r| == |cs|
  {
    seq(|cs|, i requires 0 <= i < |cs| => EncodeImageCommand(cs[i]))
  }

  lemma SectionRoundTrip(x: Section, raw: seq<byte>, pos: nat)
    requires HoldsAt(raw, pos, EncodeSection(x))
    ensures SectionAt(raw, pos) == x
  {
    hide Field64;
    var code := EncodeSection(x);
    SliceOfSlice(raw, pos, SECTION_SIZE, 0, 16);
    assert Slice(code, 0, 16) == x.name && Slice(code, 32, 8) == LE64(x.addr);
    Read64(raw, pos, SECTION_SIZE, code, 32, x.addr);
  }

  lemma SectionsSize(xs: seq<Section>, n: nat)
    requires n <= |xs|
    ensures |Flatten(EncodeSections(xs)[..n])| == 80 * n
  {
    hide EncodeSection;
    EqualWidths(EncodeSections(xs)[..n], SECTION_SIZE);
  }

  lemma {:induction false} SectionsRoundTrip(xs: seq<Section>, raw: seq<byte>, pos: nat, n: nat)
    requires HoldsAt(raw, pos, Flatten(EncodeSections(xs))) && n <= |xs|
    ensures InFile(raw, pos, SECTION_SIZE * n) && SectionsAt(raw, pos, n) == xs[..n]
  {
    hide EncodeSection, SectionAt, HoldsAt, Flatten, Slice;
    if n > 0 {
      SectionsRoundTrip(xs, raw, pos, n - 1);
      SectionsSize(xs, n - 1);
      HoldsPart(raw, pos, EncodeSections(xs), n - 1);
      SectionInFile(xs[n - 1], raw, pos + SECTION_SIZE * (n - 1));
      SectionRoundTrip(xs[n - 1], raw, pos + SECTION_SIZE * (n - 1));
      assert xs[..n] == xs[..n - 1] + [xs[n - 1]];
    } else {
      HoldsInFile(raw, pos, Flatten(EncodeSections(xs)));
    }
  }

  lemma SectionInFile(x: Section, raw: seq<byte>, pos: nat)
    requires HoldsAt(raw, pos, EncodeSection(x))
    ensures InFile(raw, pos, SECTION_SIZE)
  {
  }

  lemma HoldsInFile(raw: seq<byte>, pos: nat, bytes: seq<byte>)
    requires HoldsAt(raw, pos, bytes)
    ensures InFile(raw, pos, |bytes|)
  {
  }

  lemma CommandSize(c: ImageCommand)
    requires SizeOf(c) < UINT32_MOD
    ensures |EncodeImageCommand(c)| == SizeOf(c)
  {
    if c.SegmentCmd? {
      SectionsSize(c.sections, |c.sections|);
      assert EncodeSections(c.sections)[..|c.sections|] == EncodeSections(c.sections);
    }
  }

  lemma SegmentCmdRoundTrip(c: ImageCommand, raw: seq<byte>, pos: nat)
    requires c.SegmentCmd? && SizeOf(c) < UINT32_MOD && HoldsAt(raw, pos, EncodeImageCommand(c))
    ensures CommandFits(raw, pos) && CommandAt(raw, pos) == c && Field32(raw, pos + 4) == SizeOf(c)
  {
    hide Field32, Field64, HoldsAt, SectionsAt, Flatten, EncodeSections;
    var head := LE32(0x19) + LE32(SizeOf(c)) + c.name + LE64(c.vmaddr) + LE64(c.vmsize) + Zeros(24)
                + LE32(|c.sections|) + LE32(0);
    var tail := Flatten(EncodeSections(c.sections));
    HoldsSplit(raw, pos, head, tail);
    SectionsRoundTrip(c.sections, raw, pos + 72, |c.sections|);
    assert c.sections[..|c.sections|] == c.sections;
    SegmentHeadFields(c, raw, pos, head);
  }

  lemma SegmentHeadFields(c: ImageCommand, raw: seq<byte>, pos: nat, head: seq<byte>)
    requires c.SegmentCmd? && SizeOf(c) < UINT32_MOD
    requires head == LE32(0x19) + LE32(SizeOf(c)) + c.name + LE64(c.vmaddr) + LE64(c.vmsize) + Zeros(24)
                     + LE32(|c.sections|) + LE32(0)
    requires HoldsAt(raw, pos, head)
    ensures InFile(raw, pos, 72) && Field32(raw, pos) == 0x19 && Field32(raw, pos + 4) == SizeOf(c)
    ensures Slice(raw, pos + 8, 16) == c.name
    ensures Field64(raw, pos + 24) == c.vmaddr && Field64(raw, pos + 32) == c.vmsize
    ensures Field32(raw, pos + 64) == |c.sections|
  {
    hide Field32, Field64, LE32, LE64;
    assert Slice(head, 0, 4) == LE32(0x19) && Slice(head, 4, 4) == LE32(SizeOf(c)) && Slice(head, 8, 16) == c.name;
    assert Slice(head, 24, 8) == LE64(c.vmaddr) && Slice(head, 32, 8) == LE64(c.vmsize);
    assert Slice(head, 64, 4) == LE32(|c.sections|);
    Read32(raw, pos, 72, head, 0, 0x19);
    Read32(raw, pos, 72, head, 4, SizeOf(c));
    SliceOfSlice(raw, pos, 72, 8, 16);
    Read64(raw, pos, 72, head, 24, c.vmaddr);
    Read64(raw, pos, 72, head, 32, c.vmsize);
    Read32(raw, pos, 72, head, 64, |c.sections|);
  }

  /** A command that was written is read back, and its size field leads to the next one. */
  lemma ImageCommandRoundTrip(c: ImageCommand, raw: seq<byte>, pos: nat)
    requires SizeOf(c) < UINT32_MOD && HoldsAt(raw, pos, EncodeImageCommand(c))
    ensures CommandFits(raw, pos) && CommandAt(raw, pos) == c && Field32(raw, pos + 4) == SizeOf(c)
  {
    hide Field32, Field64, LE32, Flatten;
    match c
    case SegmentCmd(_, _, _, _) => SegmentCmdRoundTrip(c, raw, pos);
    case UuidCmd(uuid) =>
      var code := EncodeImageCommand(c);
      assert Slice(code, 0, 4) == LE32(0x1b) && Slice(code, 4, 4) == LE32(24) && Slice(code, 8, 16) == uuid;
      Read32(raw, pos, 24, code, 0, 0x1b);
      Read32(raw, pos, 24, code, 4, 24);
      SliceOfSlice(raw, pos, 24, 8, 16);
    case OtherCmd =>
      var code := EncodeImageCommand(c);
      assert Slice(code, 0, 4) == LE32(2) && Slice(code, 4, 4) == LE32(8);
      Read32(raw, pos, 8, code, 0, 2);
      Read32(raw, pos, 8, code, 4, 8);
  }

  lemma {:induction false} CommandsRoundTrip(cs: seq<ImageCommand>, raw: seq<byte>, pos: nat, i: nat)
    requires forall i :: 0 <= i < |cs| ==> SizeOf(cs[i]) < UINT32_MOD
    requires HoldsAt(raw, pos, Flatten(EncodeImageCommands(cs))) && i <= |cs|
    ensures var at := pos + |Flatten(EncodeImageCommands(cs)[..i])|;
            CommandsFit(raw, at, |cs| - i) && CommandsAt(raw, at, |cs| - i) == cs[i..]
    decreases |cs| - i
  {
    hide EncodeImageCommand, CommandAt, CommandFits, HoldsAt, Flatten, SizeOf, Field32;
    if i < |cs| {
      var codes := EncodeImageCommands(cs);
      var at := pos + |Flatten(codes[..i])|;
      HoldsPart(raw, pos, codes, i);
      ImageCommandRoundTrip(cs[i], raw, at);
      CommandSize(cs[i]);
      FlattenSnoc(codes[..i], codes[i]);
      assert codes[..i + 1] == codes[..i] + [codes[i]];
      CommandsRoundTrip(cs, raw, pos, i + 1);
      assert cs[i..] == [cs[i]] + cs[i + 1..];
    }
  }

  function EncodeImage(filetype: uint32, cs: seq<ImageCommand>): seq<byte>
    requires forall i :: 0 <= i < |cs| ==> SizeOf(cs[i]) < UINT32_MOD
    requires |cs| < UINT32_MOD && |Flatten(EncodeImageCommands(cs))| < UINT32_MOD
  {
    LE32(0xFEED_FACF) + LE32(0x100_000C) + LE32(0) + LE32(filetype) + LE32(|cs|)
    + LE32(|Flatten(EncodeImageCommands(cs))|) + LE32(0) + LE32(0) + Flatten(EncodeImageCommands(cs))
  }

  /** The header and the load commands of an image, as a linker writes them, read back. */
  lemma ImageRoundTrip(filetype: uint32, cs: seq<ImageCommand>)
    requires forall i :: 0 <= i < |cs| ==> SizeOf(cs[i]) < UINT32_MOD
    requires |cs| < UINT32_MOD && |Flatten(EncodeImageCommands(cs))| < UINT32_MOD
    ensures var raw := EncodeImage(filetype, cs);
            && WellFormedImage(raw) && ImageCommands(raw) == cs
            && Field32(raw, 12) == filetype && |raw| == 32 + Field32(raw, 20)
  {
    hide Field32, LE32, Flatten, EncodeImageCommands, SizeOf, CommandsFit, CommandsAt;
    var raw, codes := EncodeImage(filetype, cs), Flatten(EncodeImageCommands(cs));
    assert Slice(raw, 32, |codes|) == codes;
    assert Slice(raw, 12, 4) == LE32(filetype) && Slice(raw, 16, 4) == LE32(|cs|) && Slice(raw, 20, 4) == LE32(|codes|);
    Field32Of(filetype, raw, 12);
    Field32Of(|cs|, raw, 16);
    Field32Of(|codes|, raw, 20);
    CommandsRoundTrip(cs, raw, 32, 0);
    assert EncodeImageCommands(cs)[..0] == [] && |Flatten([])| == 0 by { NothingFlat(); }
    assert cs[0..] == cs;
  }

  lemma NothingFlat()
    ensures Flatten([]) == []
  {
  }
}
