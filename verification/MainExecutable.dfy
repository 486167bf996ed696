/** The note that identifies the main executable by UUID and slide. */
module MainExecutable {
  import opened Bytes
  import opened CStrings
  import opened MachO
  import opened ModuleImage
  import opened Modules
  import opened ImageInfos

  datatype MainBinSpec = MainBinSpec(version: uint32, kind: uint32, address: uint64, slide: uint64, uuid: name16,
                                     log2Pagesize: uint32, platform: uint32)

  const MAIN_BIN_SPEC_SIZE := 48

  function EncodeMainBinSpec(b: MainBinSpec): (s: seq<byte>)
    ensures |s| == MAIN_BIN_SPEC_SIZE
  {
    LE32(b.version) + LE32(b.kind) + LE64(b.address) + LE64(b.slide) + b.uuid + LE32(b.log2Pagesize) + LE32(b.platform)
  }

  function DecodeMainBinSpec(file: seq<byte>, pos: nat): MainBinSpec
    requires InFile(file, pos, MAIN_BIN_SPEC_SIZE)
  {
    MainBinSpec(Field32(file, pos), Field32(file, pos + 4), Field64(file, pos + 8), Field64(file, pos + 16),
                Slice(file, pos + 24, 16), Field32(file, pos + 40), Field32(file, pos + 44))
  }

  lemma MainBinSpecRoundTrip(b: MainBinSpec, file: seq<byte>, pos: nat)
    requires HoldsAt(file, pos, EncodeMainBinSpec(b))
    ensures DecodeMainBinSpec(file, pos) == b
  {
    var code := EncodeMainBinSpec(b);
    Read32(file, pos, 48, code, 0, b.version);
    Read32(file, pos, 48, code, 4, b.kind);
    Read64(file, pos, 48, code, 8, b.address);
    Read64(file, pos, 48, code, 16, b.slide);
    SliceOfSlice(file, pos, 48, 24, 16);
    assert Slice(code, 24, 16) == b.uuid;
    Read32(file, pos, 48, code, 40, b.log2Pagesize);
    Read32(file, pos, 48, code, 44, b.platform);
  }

  /** The note for a main executable: unspecified address, but UUID and slide. */
  function SpecOf(m: ModuleInfo): MainBinSpec
    requires ModuleOk(m)
  {
    MainBinSpec(2, 0, UINT64_MOD - 1, MainBinSlide(ImageCommands(m.headerAndLoadCommands), m.loadAddress), m.uuid, 0, 0)
  }

  /** The first main executable of the list. */
  predicate FirstMain(modules: seq<ModuleInfo>, k: nat)
    requires AllOk(modules)
  {
    k < |modules| && IsMainExecutable(modules[k]) && forall j :: 0 <= j < k ==> !IsMainExecutable(modules[j])
  }

  lemma {:induction false} SomeMain(modules: seq<ModuleInfo>, k: nat)
    requires AllOk(modules) && k < |modules| && IsMainExecutable(modules[k])
    ensures MainCount(modules) >= 1
  {
    hide ModuleOk, IsMainExecutable;
    if k < |modules| - 1 {
      SomeMain(modules[..|modules| - 1], k);
    }
  }

  /** There is a first one if there is one at all. */
  lemma {:induction false} FirstMainExists(modules: seq<ModuleInfo>) returns (k: nat)
    requires AllOk(modules) && MainCount(modules) >= 1
    ensures FirstMain(modules, k)
  {
    hide ModuleOk, IsMainExecutable;
    var n := |modules| - 1;
    if MainCount(modules[..n]) >= 1 {
      k := FirstMainExists(modules[..n]);
      assert forall j :: 0 <= j <= k ==> modules[..n][j] == modules[j];
    } else {
      k := n;
      forall j | 0 <= j < n ensures !IsMainExecutable(modules[j]) {
        if IsMainExecutable(modules[j]) {
          SomeMain(modules[..n], j);
        }
      }
    }
  }

  method SpecFor(m: ModuleInfo) returns (r: MainBinSpec)
    requires ModuleOk(m)
    ensures r == SpecOf(m)
  {
    hide WellFormedImage, ImageCommands, TextSegment, NulFree;
    var address := GetPreferredTextAddress(m.headerAndLoadCommands);
    r := MainBinSpec(2, 0, UINT64_MOD - 1, Sub64(m.loadAddress, address), m.uuid, 0, 0);
  }

  /** What the structure holds by default: no slide and no UUID. */
  function DefaultSpec(): MainBinSpec {
    MainBinSpec(2, 0, UINT64_MOD - 1, UINT64_MOD - 1, Zeros(16), 0, 0)
  }

  /** The specification of the first main executable; the default one if there is none. */
  predicate IsSpec(r: MainBinSpec, modules: seq<ModuleInfo>)
    requires AllOk(modules)
  {
    && (forall k :: 0 <= k < |modules| && FirstMain(modules, k) ==> r == SpecOf(modules[k]))
    && (MainCount(modules) == 0 ==> r == DefaultSpec())
  }

  /** Module k is the first whose header names the file type 2, an executable. */
  predicate FirstExecutable(modules: seq<ModuleInfo>, k: nat)
    requires AllOk(modules)
  {
    && k < |modules| && Field32(modules[k].headerAndLoadCommands, 12) == 2
    && forall j :: 0 <= j < k ==> Field32(modules[j].headerAndLoadCommands, 12) != 2
  }

  /** Command `text` is the first __TEXT; there is none if it is the number of commands. */
  predicate FirstTextAt(cs: seq<ImageCommand>, text: nat) {
    (text == |cs| || TextAt(cs, text)) && forall j :: 0 <= j < text ==> !TextAt(cs, j)
  }

  /** What leads from the address that __TEXT prefers (0 without one) to the load address, modulo 2^64. */
  predicate IsSlide(slide: uint64, m: ModuleInfo, text: nat)
    requires ModuleOk(m)
  {
    var cs := ImageCommands(m.headerAndLoadCommands);
    (slide + (if text < |cs| && cs[text].SegmentCmd? then cs[text].vmaddr else 0) - m.loadAddress) % 0x1_0000_0000_0000_0000 == 0
  }

  /** The specification that belongs to an executable, field by field. */
  predicate TellsAbout(r: MainBinSpec, m: ModuleInfo, text: nat)
    requires ModuleOk(m)
  {
    && r.version == 2 && r.kind == 0 && r.address == 0xFFFF_FFFF_FFFF_FFFF && r.log2Pagesize == 0 && r.platform == 0
    && r.uuid == m.uuid && IsSlide(r.slide, m, text)
  }

  lemma SpecFields(modules: seq<ModuleInfo>, r: MainBinSpec, k: nat, text: nat)
    requires AllOk(modules) && IsSpec(r, modules) && FirstExecutable(modules, k)
    requires FirstTextAt(ImageCommands(modules[k].headerAndLoadCommands), text)
    ensures TellsAbout(r, modules[k], text)
  {
    var m := modules[k];
    assert FirstMain(modules, k);
    hide FirstMain, AllOk, ImageCommands, TextAt, WellFormedImage, FirstText, MainCount;
    FirstTextMeans(ImageCommands(m.headerAndLoadCommands), text);
    assert r == SpecOf(m);
    FirstTextSegment(ImageCommands(m.headerAndLoadCommands), text);
    SlideDistance(m.loadAddress, PreferredText(ImageCommands(m.headerAndLoadCommands)));
  }

  lemma FirstTextSegment(cs: seq<ImageCommand>, text: nat)
    requires FirstTextAt(cs, text)
    ensures text < |cs| ==> cs[text].SegmentCmd?
  {
  }

  lemma SlideDistance(to: uint64, from: uint64)
    ensures (Sub64(to, from) + from - to) % UINT64_MOD == 0
  {
  }

  lemma DefaultFields(modules: seq<ModuleInfo>, r: MainBinSpec)
    requires AllOk(modules) && IsSpec(r, modules)
    requires forall k :: 0 <= k < |modules| ==> Field32(modules[k].headerAndLoadCommands, 12) != 2
    ensures r == MainBinSpec(2, 0, 0xFFFF_FFFF_FFFF_FFFF, 0xFFFF_FFFF_FFFF_FFFF, Zeros(16), 0, 0)
  {
    if MainCount(modules) >= 1 {
      var k := FirstMainExists(modules);
    }
  }

  /** The fields are those of the first executable, and the default without one: no slide and no UUID. */
  ghost predicate TellsMain(r: MainBinSpec, modules: seq<ModuleInfo>)
    requires AllOk(modules)
  {
    && (forall k: nat, text: nat ::
          FirstExecutable(modules, k) && FirstTextAt(ImageCommands(modules[k].headerAndLoadCommands), text)
          ==> TellsAbout(r, modules[k], text))
    && ((forall k :: 0 <= k < |modules| ==> Field32(modules[k].headerAndLoadCommands, 12) != 2) ==>
          r == MainBinSpec(2, 0, 0xFFFF_FFFF_FFFF_FFFF, 0xFFFF_FFFF_FFFF_FFFF, Zeros(16), 0, 0))
  }

  lemma SpecTells(modules: seq<ModuleInfo>, r: MainBinSpec)
    requires AllOk(modules) && IsSpec(r, modules)
    ensures TellsMain(r, modules)
  {
    hide IsSpec, FirstTextAt, TellsAbout, CommandsFit, ImageCommands;
    forall k: nat, text: nat |
      FirstExecutable(modules, k) && FirstTextAt(ImageCommands(modules[k].headerAndLoadCommands), text)
      ensures TellsAbout(r, modules[k], text)
    {
      SpecFields(modules, r, k, text);
    }
    if forall k :: 0 <= k < |modules| ==> Field32(modules[k].headerAndLoadCommands, 12) != 2 {
      DefaultFields(modules, r);
    }
  }

  /** The 48 bytes of the note: version 2, no kind, no address, slide and UUID, neither page size nor platform. */
  predicate SpecShows(file: seq<byte>, at: nat, slide: uint64, uuid: seq<byte>) {
    && InFile(file, at, 48) && Field32(file, at) == 2 && Field32(file, at + 4) == 0
    && Field64(file, at + 8) == 0xFFFF_FFFF_FFFF_FFFF && Field64(file, at + 16) == slide
    && Slice(file, at + 24, 16) == uuid && Field32(file, at + 40) == 0 && Field32(file, at + 44) == 0
  }

  lemma SpecHeld(file: seq<byte>, at: nat, r: MainBinSpec)
    requires HoldsAt(file, at, EncodeMainBinSpec(r))
    requires r.version == 2 && r.kind == 0 && r.address == 0xFFFF_FFFF_FFFF_FFFF && r.log2Pagesize == 0 && r.platform == 0
    ensures SpecShows(file, at, r.slide, r.uuid)
  {
    hide Field32, Field64;
    MainBinSpecRoundTrip(r, file, at);
  }

  /** Without a main executable a debug build stops here, and any other build goes on with the default. */
  method CreateMainBinSpecPayload(modules: seq<ModuleInfo>) returns (r: MainBinSpec)
    requires AllOk(modules)
    ensures IsSpec(r, modules) && TellsMain(r, modules)
  {
    r := FindMainBinSpec(modules);
    SpecTells(modules, r);
  }

  method FindMainBinSpec(modules: seq<ModuleInfo>) returns (r: MainBinSpec)
    requires AllOk(modules)
    ensures IsSpec(r, modules)
  {
    hide ModuleOk, IsMainExecutable, MainCount, SpecOf;
    for k := 0 to |modules|
      invariant forall j :: 0 <= j < k ==> !IsMainExecutable(modules[j])
    {
      if IsMainExecutable(modules[k]) {
        r := SpecFor(modules[k]);
        SomeMain(modules, k);
        return;
      }
    }
    return DefaultSpec();
  }
}
