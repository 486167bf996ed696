/**
 The "all image infos" payload: image entries, segment addresses and paths in one flat buffer, tied
 together by absolute file offsets.
 */
module ImageInfos {
  import opened Bytes
  import opened CStrings
  import opened MachO
  import opened ModuleImage
  import opened Modules

  const IMAGE_HEADER_SIZE := 24
  const IMAGE_ENTRY_SIZE := 48
  const SEGMENT_ADDR_SIZE := 32

  datatype ImageHeader = ImageHeader(version: uint32, imgcount: uint32, entriesFileoff: uint64, entriesSize: uint32)

  datatype ImageEntry = ImageEntry(filepathOffset: uint64, uuid: name16, loadAddress: uint64, segAddrsOffset: uint64,
                                   segmentCount: uint32, reserved: uint32)

  datatype SegmentAddr = SegmentAddr(segname: name16, vmaddr: uint64)

  function EncodeImageHeader(h: ImageHeader): (s: seq<byte>)
    ensures |s| == IMAGE_HEADER_SIZE
  {
    LE32(h.version) + LE32(h.imgcount) + LE64(h.entriesFileoff) + LE32(h.entriesSize) + LE32(0)
  }

  function EncodeImageEntry(e: ImageEntry): (s: seq<byte>)
    ensures |s| == IMAGE_ENTRY_SIZE
  {
    LE64(e.filepathOffset) + e.uuid + LE64(e.loadAddress) + LE64(e.segAddrsOffset)
    + LE32(e.segmentCount) + LE32(e.reserved)
  }

  function EncodeSegmentAddr(a: SegmentAddr): (s: seq<byte>)
    ensures |s| == SEGMENT_ADDR_SIZE
  {
    a.segname + LE64(a.vmaddr) + LE64(0)
  }

  // ---------------------------------------------------------------- which modules

  predicate IsMainExecutable(m: ModuleInfo)
    requires ModuleOk(m)
  {
    Field32(m.headerAndLoadCommands, 12) == MH_EXECUTE
  }

  predicate AllOk(modules: seq<ModuleInfo>) {
    forall i :: 0 <= i < |modules| ==> ModuleOk(modules[i])
  }

  /** The modules other than main executables, in order. */
  function Images(modules: seq<ModuleInfo>): (r: seq<ModuleInfo>)
    requires AllOk(modules)
    ensures AllOk(r) && |r| <= |modules|
  {
    if modules == [] then []
    else
      var last := modules[|modules| - 1];
      Images(modules[..|modules| - 1]) + if IsMainExecutable(last) then [] else [last]
  }

  function MainCount(modules: seq<ModuleInfo>): nat
    requires AllOk(modules)
  {
    if modules == [] then 0
    else MainCount(modules[..|modules| - 1]) + if IsMainExecutable(modules[|modules| - 1]) then 1 else 0
  }

  lemma {:induction false} ImagesCount(modules: seq<ModuleInfo>)
    requires AllOk(modules)
    ensures |Images(modules)| + MainCount(modules) == |modules|
  {
    hide ModuleOk;
    if modules != [] {
      ImagesCount(modules[..|modules| - 1]);
    }
  }

  lemma ImagesStep(modules: seq<ModuleInfo>, i: nat)
    requires AllOk(modules) && i < |modules|
    ensures Images(modules[..i + 1]) == Images(modules[..i]) + if IsMainExecutable(modules[i]) then [] else [modules[i]]
  {
    hide ModuleOk;
    assert modules[..i + 1][..i] == modules[..i];
  }

  lemma {:induction false} ImagesPrefix(modules: seq<ModuleInfo>, i: nat)
    requires AllOk(modules) && i <= |modules|
    ensures Images(modules[..i]) <= Images(modules)
    decreases |modules| - i
  {
    hide ModuleOk;
    if i < |modules| {
      ImagesStep(modules, i);
      ImagesPrefix(modules, i + 1);
    } else {
      assert modules[..i] == modules;
    }
  }

  // ---------------------------------------------------------------- the payload

  function SegmentAddrs(m: ModuleInfo): (r: seq<SegmentAddr>)
    ensures |r| == |m.segments|
  {
    seq(|m.segments|, i requires 0 <= i < |m.segments| =>
      SegmentAddr(CopiedName(m.segments[i].segmentName), m.segments[i].address))
  }

  function AddrCodes(addrs: seq<SegmentAddr>): (r: seq<seq<byte>>)
    ensures |r| == |addrs|
  {
    seq(|addrs|, i requires 0 <= i < |addrs| => EncodeSegmentAddr(addrs[i]))
  }

  /** The segment addresses of one image as one block. */
  function AddrBlock(m: ModuleInfo): seq<byte> {
    Flatten(AddrCodes(SegmentAddrs(m)))
  }

  function AddrBlocks(images: seq<ModuleInfo>): (r: seq<seq<byte>>)
    ensures |r| == |images|
  {
    seq(|images|, i requires 0 <= i < |images| => AddrBlock(images[i]))
  }

  /** The zero-terminated path of each image. */
  function PathBlocks(images: seq<ModuleInfo>): (r: seq<seq<byte>>)
    ensures |r| == |images|
  {
    seq(|images|, i requires 0 <= i < |images| => images[i].filePath + [0])
  }

  /** Where the segment addresses and the paths start in a payload with room for `room` entries. */
  function AddrsStart(room: nat): nat {
    IMAGE_HEADER_SIZE + IMAGE_ENTRY_SIZE * room
  }

  function PathsStart(room: nat, images: seq<ModuleInfo>): nat {
    AddrsStart(room) + |Flatten(AddrBlocks(images))|
  }

  /** The file offset of the segment addresses of image k, for a payload that lies at offset `base`. */
  function AddrsOffset(base: nat, room: nat, images: seq<ModuleInfo>, k: nat): nat
    requires k <= |images|
  {
    base + AddrsStart(room) + |Flatten(AddrBlocks(images)[..k])|
  }

  function PathOffset(base: nat, room: nat, images: seq<ModuleInfo>, k: nat): nat
    requires k <= |images|
  {
    base + PathsStart(room, images) + |Flatten(PathBlocks(images)[..k])|
  }

  function EntryOf(base: nat, room: nat, images: seq<ModuleInfo>, k: nat): ImageEntry
    requires AllOk(images) && k < |images|
  {
    assert ModuleOk(images[k]);
    ImageEntry(Low64(PathOffset(base, room, images, k)), images[k].uuid, images[k].loadAddress,
               Low64(AddrsOffset(base, room, images, k)), |images[k].segments|, if images[k].executing then 1 else 0)
  }

  function EntryCodes(base: nat, room: nat, images: seq<ModuleInfo>): (r: seq<seq<byte>>)
    requires AllOk(images)
    ensures |r| == |images|
  {
    seq(|images|, k requires 0 <= k < |images| => EncodeImageEntry(EntryOf(base, room, images, k)))
  }

  function HeaderOf(base: nat, room: nat): ImageHeader {
    ImageHeader(1, room % UINT32_MOD, Low64(base + IMAGE_HEADER_SIZE), IMAGE_ENTRY_SIZE)
  }

  /** How many entries survive: one more than there is room for is overwritten by what follows the entries. */
  function Kept(room: nat, images: seq<ModuleInfo>): (k: nat)
    ensures k <= room && k <= |images|
  {
    if |images| <= room then |images| else room
  }

  /** Header and entries, filled up with zeros to the room reserved for entries. */
  function EntryArea(base: nat, room: nat, images: seq<ModuleInfo>): seq<byte>
    requires AllOk(images) && |images| <= room + 1
  {
    EncodeImageHeader(HeaderOf(base, room)) + Flatten(EntryCodes(base, room, images)[..Kept(room, images)])
    + Zeros(IMAGE_ENTRY_SIZE * (room - Kept(room, images)))
  }

  function Payload(base: nat, room: nat, images: seq<ModuleInfo>): seq<byte>
    requires AllOk(images) && |images| <= room + 1
  {
    EntryArea(base, room, images) + Flatten(AddrBlocks(images)) + Flatten(PathBlocks(images))
  }

  lemma EntryCodesSize(base: nat, room: nat, images: seq<ModuleInfo>, k: nat)
    requires AllOk(images) && k <= |images|
    ensures |Flatten(EntryCodes(base, room, images)[..k])| == IMAGE_ENTRY_SIZE * k
  {
    hide ModuleOk, EntryOf, EncodeImageEntry;
    EqualWidths(EntryCodes(base, room, images)[..k], IMAGE_ENTRY_SIZE);
  }

  lemma AddrCodesSize(addrs: seq<SegmentAddr>, j: nat)
    requires j <= |addrs|
    ensures |Flatten(AddrCodes(addrs)[..j])| == SEGMENT_ADDR_SIZE * j
  {
    EqualWidths(AddrCodes(addrs)[..j], SEGMENT_ADDR_SIZE);
  }

  lemma AddrBlockSize(m: ModuleInfo)
    ensures |AddrBlock(m)| == SEGMENT_ADDR_SIZE * |m.segments|
  {
    AddrCodesSize(SegmentAddrs(m), |m.segments|);
    assert AddrCodes(SegmentAddrs(m))[..|m.segments|] == AddrCodes(SegmentAddrs(m));
  }

  lemma EntryAreaSize(base: nat, room: nat, images: seq<ModuleInfo>)
    requires AllOk(images) && |images| <= room + 1
    ensures |EntryArea(base, room, images)| == AddrsStart(room)
  {
    hide ModuleOk, EntryOf, EncodeImageEntry, EncodeImageHeader;
    EntryCodesSize(base, room, images, Kept(room, images));
  }

  lemma PayloadSize(base: nat, room: nat, images: seq<ModuleInfo>)
    requires AllOk(images) && |images| <= room + 1
    ensures |Payload(base, room, images)| == PathsStart(room, images) + |Flatten(PathBlocks(images))|
  {
    hide ModuleOk, EntryArea;
    EntryAreaSize(base, room, images);
  }

  lemma BlocksStep(images: seq<ModuleInfo>, k: nat)
    requires k < |images|
    ensures Flatten(AddrBlocks(images)[..k + 1]) == Flatten(AddrBlocks(images)[..k]) + AddrBlock(images[k])
    ensures Flatten(PathBlocks(images)[..k + 1]) == Flatten(PathBlocks(images)[..k]) + images[k].filePath + [0]
    ensures |Flatten(AddrBlocks(images)[..k + 1])|
            == |Flatten(AddrBlocks(images)[..k])| + SEGMENT_ADDR_SIZE * |images[k].segments|
    ensures |Flatten(PathBlocks(images)[..k + 1])| == |Flatten(PathBlocks(images)[..k])| + |images[k].filePath| + 1
  {
    hide AddrBlock;
    AddrBlockSize(images[k]);
    var a, p := AddrBlocks(images), PathBlocks(images);
    assert a[..k + 1] == a[..k] + [a[k]] && p[..k + 1] == p[..k] + [p[k]];
    FlattenSnoc(a[..k], a[k]);
    FlattenSnoc(p[..k], p[k]);
  }

  // ---------------------------------------------------------------- filling the buffer

  /** What a buffer holds: `head`, `done`, and then `rest`. */
  predicate LaidOut(a: seq<byte>, at: nat, head: seq<byte>, done: seq<byte>, rest: seq<byte>) {
    a == head + done + rest && at == |head + done|
  }

  /** Copies bytes behind what has been laid out so far. */
  method CopyInto(a: array<byte>, at: nat, bytes: seq<byte>, ghost head: seq<byte>, ghost done: seq<byte>,
                  ghost rest: seq<byte>)
    requires LaidOut(a[..], at, head, done, rest) && |bytes| <= |rest|
    modifies a
    ensures LaidOut(a[..], at + |bytes|, head, done + bytes, rest[|bytes|..])
  {
    forall k | 0 <= k < |bytes| {
      a[at + k] := bytes[k];
    }
    var now := head + (done + bytes) + rest[|bytes|..];
    assert |now| == a.Length;
    assert forall k :: at + |bytes| <= k < a.Length ==> a[k] == old(a[..])[k] == rest[k - at];
    assert a[..] == now;
  }

  /** The number of images among the first i modules. */
  function ImagesBefore(modules: seq<ModuleInfo>, i: nat): nat
    requires AllOk(modules) && i <= |modules|
  {
    |Images(modules[..i])|
  }

  /** Walking the modules in order, the next one that is not a main executable is the next image. */
  lemma NextImage(modules: seq<ModuleInfo>, i: nat)
    requires AllOk(modules) && i < |modules|
    ensures ImagesBefore(modules, i + 1) == ImagesBefore(modules, i) + if IsMainExecutable(modules[i]) then 0 else 1
    ensures !IsMainExecutable(modules[i]) ==>
              ImagesBefore(modules, i) < |Images(modules)| && Images(modules)[ImagesBefore(modules, i)] == modules[i]
  {
    hide ModuleOk, IsMainExecutable;
    ImagesStep(modules, i);
    ImagesPrefix(modules, i + 1);
  }

  lemma AllImages(modules: seq<ModuleInfo>)
    requires AllOk(modules)
    ensures ImagesBefore(modules, 0) == 0 && ImagesBefore(modules, |modules|) == |Images(modules)|
  {
    assert modules[..|modules|] == modules;
  }

  /** The address lists of the images, and the space that lists and paths need. */
  method Tally(modules: seq<ModuleInfo>) returns (lists: seq<seq<SegmentAddr>>, nSegments: nat, modulePathsSize: nat)
    requires AllOk(modules)
    ensures ListsOf(lists, Images(modules), |Images(modules)|)
    ensures SEGMENT_ADDR_SIZE * nSegments == |Flatten(AddrBlocks(Images(modules)))|
    ensures modulePathsSize == |Flatten(PathBlocks(Images(modules)))|
  {
    hide ModuleOk, IsMainExecutable, Images, ImagesBefore, AddrBlocks, PathBlocks;
    ghost var images := Images(modules);
    AllImages(modules);
    lists, nSegments, modulePathsSize := [], 0, 0;
    for i := 0 to |modules|
      invariant ImagesBefore(modules, i) <= |images| && ListsOf(lists, images, ImagesBefore(modules, i))
      invariant SEGMENT_ADDR_SIZE * nSegments == |Flatten(AddrBlocks(images)[..ImagesBefore(modules, i)])|
      invariant modulePathsSize == |Flatten(PathBlocks(images)[..ImagesBefore(modules, i)])|
    {
      NextImage(modules, i);
      if !IsMainExecutable(modules[i]) {
        BlocksStep(images, ImagesBefore(modules, i));
        modulePathsSize := modulePathsSize + |modules[i].filePath| + 1;
        var segmentVMAddrs := CopyAddrs(modules[i]);
        nSegments := nSegments + |modules[i].segments|;
        lists := lists + [segmentVMAddrs];
      }
    }
    WholeBlocks(images);
  }

  predicate ListsOf(lists: seq<seq<SegmentAddr>>, images: seq<ModuleInfo>, n: nat) {
    |lists| == n <= |images| && forall k :: 0 <= k < n ==> lists[k] == SegmentAddrs(images[k])
  }

  lemma WholeBlocks(images: seq<ModuleInfo>)
    ensures AddrBlocks(images)[..|images|] == AddrBlocks(images)
    ensures PathBlocks(images)[..|images|] == PathBlocks(images)
  {
  }

  method CopyAddrs(m: ModuleInfo) returns (addrs: seq<SegmentAddr>)
    ensures addrs == SegmentAddrs(m)
  {
    addrs := [];
    for j := 0 to |m.segments|
      invariant addrs == SegmentAddrs(m)[..j]
    {
      addrs := addrs + [SegmentAddr(CopiedName(m.segments[j].segmentName), m.segments[j].address)];
    }
  }

  method FillEntries(a: array<byte>, base: nat, ghost room: nat, modules: seq<ModuleInfo>, pathsAt: nat, addrsAt: nat,
                     ghost head: seq<byte>, ghost rest: seq<byte>)
    requires AllOk(modules) && IMAGE_ENTRY_SIZE * |Images(modules)| <= |rest|
    requires LaidOut(a[..], IMAGE_HEADER_SIZE, head, [], rest)
    requires pathsAt == PathOffset(base, room, Images(modules), 0)
    requires addrsAt == AddrsOffset(base, room, Images(modules), 0)
    modifies a
    ensures var size := IMAGE_ENTRY_SIZE * |Images(modules)|;
            LaidOut(a[..], IMAGE_HEADER_SIZE + size, head, Flatten(EntryCodes(base, room, Images(modules))), rest[size..])
  {
    hide ModuleOk, IsMainExecutable, Images, ImagesBefore, AddrBlocks, PathBlocks, EncodeImageEntry, PathsStart,
         AddrsStart, LaidOut, EntryCodes, PathOffset, AddrsOffset;
    ghost var images := Images(modules);
    ghost var codes := EntryCodes(base, room, images);
    AllImages(modules);
    var currModulePathOffset, currSegAddrsOffset, at: nat := pathsAt, addrsAt, IMAGE_HEADER_SIZE;
    ghost var k := 0;
    assert codes[..0] == [];
    for i := 0 to |modules|
      invariant k == ImagesBefore(modules, i) <= |images| && at == IMAGE_HEADER_SIZE + IMAGE_ENTRY_SIZE * k
      invariant currModulePathOffset == PathOffset(base, room, images, k)
      invariant currSegAddrsOffset == AddrsOffset(base, room, images, k)
      invariant LaidOut(a[..], at, head, Flatten(codes[..k]), rest[IMAGE_ENTRY_SIZE * k..])
    {
      NextImage(modules, i);
      if !IsMainExecutable(modules[i]) {
        EntryStep(base, room, images, k);
        var entry := ImageEntry(Low64(currModulePathOffset), modules[i].uuid, modules[i].loadAddress,
                                Low64(currSegAddrsOffset), |modules[i].segments|, if modules[i].executing then 1 else 0);
        CopyInto(a, at, EncodeImageEntry(entry), head, Flatten(codes[..k]), rest[IMAGE_ENTRY_SIZE * k..]);
        currModulePathOffset := currModulePathOffset + |modules[i].filePath| + 1;
        currSegAddrsOffset := currSegAddrsOffset + SEGMENT_ADDR_SIZE * |modules[i].segments|;
        at := at + IMAGE_ENTRY_SIZE;
        k := k + 1;
      }
    }
    assert codes[..|images|] == codes;
  }

  lemma EntryStep(base: nat, room: nat, images: seq<ModuleInfo>, k: nat)
    requires AllOk(images) && k < |images|
    ensures |images[k].segments| < UINT32_MOD
    ensures var codes := EntryCodes(base, room, images);
            Flatten(codes[..k + 1]) == Flatten(codes[..k]) + EncodeImageEntry(EntryOf(base, room, images, k))
    ensures PathOffset(base, room, images, k + 1) == PathOffset(base, room, images, k) + |images[k].filePath| + 1
    ensures AddrsOffset(base, room, images, k + 1)
            == AddrsOffset(base, room, images, k) + SEGMENT_ADDR_SIZE * |images[k].segments|
  {
    hide ModuleOk, AllOk, EncodeImageEntry, EntryOf, EntryCodes, AddrBlocks, PathBlocks, PathsStart, AddrsStart, Flatten;
    FewSegments(images, k);
    CodesGrow(base, room, images, k);
    BlocksStep(images, k);
  }

  lemma FewSegments(images: seq<ModuleInfo>, k: nat)
    requires AllOk(images) && k < |images|
    ensures |images[k].segments| < UINT32_MOD
  {
    assert ModuleOk(images[k]);
  }

  lemma CodesGrow(base: nat, room: nat, images: seq<ModuleInfo>, k: nat)
    requires AllOk(images) && k < |images|
    ensures var codes := EntryCodes(base, room, images);
            Flatten(codes[..k + 1]) == Flatten(codes[..k]) + EncodeImageEntry(EntryOf(base, room, images, k))
  {
    hide ModuleOk, AllOk, EncodeImageEntry, EntryOf;
    var codes := EntryCodes(base, room, images);
    assert codes[..k + 1] == codes[..k] + [codes[k]];
    FlattenSnoc(codes[..k], codes[k]);
  }

  /** The address lists go one after the other. */
  method FillAddrs(a: array<byte>, start: nat, lists: seq<seq<SegmentAddr>>, ghost images: seq<ModuleInfo>,
                   ghost head: seq<byte>, ghost rest: seq<byte>) returns (at: nat)
    requires ListsOf(lists, images, |images|) && |Flatten(AddrBlocks(images))| <= |rest|
    requires LaidOut(a[..], start, head, [], rest)
    modifies a
    ensures at == start + |Flatten(AddrBlocks(images))|
    ensures LaidOut(a[..], at, head, Flatten(AddrBlocks(images)), rest[|Flatten(AddrBlocks(images))|..])
  {
    hide AddrBlocks, PathBlocks, LaidOut, EncodeSegmentAddr;
    ghost var blocks := AddrBlocks(images);
    WholeBlocks(images);
    at := start;
    assert blocks[..0] == [];
    for k := 0 to |lists|
      invariant |Flatten(blocks[..k])| <= |rest| && at == start + |Flatten(blocks[..k])|
      invariant LaidOut(a[..], at, head, Flatten(blocks[..k]), rest[|Flatten(blocks[..k])|..])
    {
      BlocksStep(images, k);
      BlocksGrow(images, k);
      AddrBlockSize(images[k]);
      at := FillAddrList(a, at, lists[k], head, Flatten(blocks[..k]), rest[|Flatten(blocks[..k])|..]);
    }
  }

  lemma BlocksGrow(images: seq<ModuleInfo>, k: nat)
    requires k < |images|
    ensures |Flatten(AddrBlocks(images)[..k + 1])| <= |Flatten(AddrBlocks(images))|
  {
    FlattenPart(AddrBlocks(images), k);
  }

  lemma PathStep(images: seq<ModuleInfo>, k: nat)
    requires k < |images|
    ensures var blocks := PathBlocks(images);
            && Flatten(blocks[..k + 1]) == Flatten(blocks[..k]) + (images[k].filePath + [0])
            && |Flatten(blocks[..k + 1])| <= |Flatten(blocks)|
  {
    var blocks := PathBlocks(images);
    assert blocks[..k + 1] == blocks[..k] + [blocks[k]];
    FlattenSnoc(blocks[..k], blocks[k]);
    FlattenPart(blocks, k);
  }

  lemma AddrStep(done: seq<byte>, addrs: seq<SegmentAddr>, j: nat)
    requires j < |addrs|
    ensures var codes := AddrCodes(addrs);
            done + Flatten(codes[..j + 1]) == done + Flatten(codes[..j]) + EncodeSegmentAddr(addrs[j])
  {
    hide EncodeSegmentAddr;
    var codes := AddrCodes(addrs);
    assert codes[..j + 1] == codes[..j] + [codes[j]];
    FlattenSnoc(codes[..j], codes[j]);
  }

  method FillAddrList(a: array<byte>, start: nat, addrs: seq<SegmentAddr>,
                      ghost head: seq<byte>, ghost done: seq<byte>, ghost rest: seq<byte>) returns (at: nat)
    requires SEGMENT_ADDR_SIZE * |addrs| <= |rest|
    requires LaidOut(a[..], start, head, done, rest)
    modifies a
    ensures at == start + SEGMENT_ADDR_SIZE * |addrs|
    ensures LaidOut(a[..], at, head, done + Flatten(AddrCodes(addrs)), rest[SEGMENT_ADDR_SIZE * |addrs|..])
  {
    hide EncodeSegmentAddr, AddrCodes, LaidOut;
    ghost var codes := AddrCodes(addrs);
    at := start;
    assert codes[..0] == [] && done + [] == done;
    for j := 0 to |addrs|
      invariant at == start + SEGMENT_ADDR_SIZE * j
      invariant LaidOut(a[..], at, head, done + Flatten(codes[..j]), rest[SEGMENT_ADDR_SIZE * j..])
    {
      AddrStep(done, addrs, j);
      CopyInto(a, at, EncodeSegmentAddr(addrs[j]), head, done + Flatten(codes[..j]), rest[SEGMENT_ADDR_SIZE * j..]);
      at := at + SEGMENT_ADDR_SIZE;
    }
    assert codes[..|addrs|] == codes;
  }

  /** The paths go one after the other, each with its terminator. */
  method FillPaths(a: array<byte>, start: nat, modules: seq<ModuleInfo>, ghost head: seq<byte>, ghost rest: seq<byte>)
    requires AllOk(modules) && |Flatten(PathBlocks(Images(modules)))| == |rest|
    requires LaidOut(a[..], start, head, [], rest)
    modifies a
    ensures LaidOut(a[..], a.Length, head, Flatten(PathBlocks(Images(modules))), [])
  {
    hide ModuleOk, IsMainExecutable, Images, ImagesBefore, AddrBlocks, PathBlocks, LaidOut;
    ghost var images := Images(modules);
    ghost var blocks := PathBlocks(images);
    AllImages(modules);
    WholeBlocks(images);
    var at := start;
    ghost var k := 0;
    assert blocks[..0] == [];
    for i := 0 to |modules|
      invariant k == ImagesBefore(modules, i) <= |images|
      invariant |Flatten(blocks[..k])| <= |rest| && at == start + |Flatten(blocks[..k])|
      invariant LaidOut(a[..], at, head, Flatten(blocks[..k]), rest[|Flatten(blocks[..k])|..])
    {
      NextImage(modules, i);
      if !IsMainExecutable(modules[i]) {
        PathStep(images, k);
        var path := modules[i].filePath + [0];
        CopyInto(a, at, path, head, Flatten(blocks[..k]), rest[|Flatten(blocks[..k])|..]);
        at := at + |path|;
        k := k + 1;
      }
    }
    LaidOutEnd(a[..], at, head, Flatten(blocks), rest[|rest|..]);
  }

  lemma LaidOutEnd(a: seq<byte>, at: nat, head: seq<byte>, done: seq<byte>, rest: seq<byte>)
    requires LaidOut(a, at, head, done, rest)
    ensures rest == [] ==> at == |a| && a == head + done
    ensures rest == [] ==> LaidOut(a, |a|, head, done, [])
  {
  }

  /** The entries, which are written first, do not run past the end of the buffer. */
  predicate StaysInBuffer(modules: seq<ModuleInfo>)
    requires AllOk(modules)
  {
    modules != [] ==>
      AddrsStart(|Images(modules)|) <= PathsStart(|modules| - 1, Images(modules)) + |Flatten(PathBlocks(Images(modules)))|
  }

  /**
   The whole payload for file offset `payloadOffset`; nothing without modules. Room is reserved for all
   modules but one. Without a main executable there is one entry too many, and what follows the entries is
   laid over it.
   */
  method CreateAllImageInfosPayload(payloadOffset: uint64, modules: seq<ModuleInfo>) returns (result: array<byte>)
    requires AllOk(modules) && StaysInBuffer(modules)
    ensures fresh(result)
    ensures modules == [] ==> result.Length == 0
    ensures modules != [] ==> result[..] == Payload(payloadOffset, |modules| - 1, Images(modules))
  {
    hide ModuleOk, Images, MainCount, AddrBlocks, PathBlocks, EncodeImageHeader, EntryCodes;
    if modules == [] {
      result := new byte[0];
      return;
    }
    ghost var images := Images(modules);
    var nModules := |modules| - 1;
    var lists, nSegments, modulePathsSize := Tally(modules);
    var imageEntriesSize, segmentEntriesSize := nModules * IMAGE_ENTRY_SIZE, nSegments * SEGMENT_ADDR_SIZE;
    var payloadSize := IMAGE_HEADER_SIZE + imageEntriesSize + segmentEntriesSize + modulePathsSize;
    result := new byte[payloadSize](_ => 0);
    ghost var room := Zeros(payloadSize - IMAGE_HEADER_SIZE);
    CopyHeader(result, EncodeImageHeader(HeaderOf(payloadOffset, nModules)));
    var modulePathOffset := payloadOffset + payloadSize - modulePathsSize;
    var segAddrsOffset := modulePathOffset - segmentEntriesSize;
    StartOffsets(payloadOffset, nModules, images);
    FillEntries(result, payloadOffset, nModules, modules, modulePathOffset, segAddrsOffset,
                EncodeImageHeader(HeaderOf(payloadOffset, nModules)), room);
    ghost var free := EntriesDone(result[..], payloadOffset, nModules, images, room);
    var at := FillAddrs(result, IMAGE_HEADER_SIZE + imageEntriesSize, lists, images,
                        EntryArea(payloadOffset, nModules, images), free);
    NextArea(result[..], at, EntryArea(payloadOffset, nModules, images), Flatten(AddrBlocks(images)),
             free[segmentEntriesSize..]);
    FillPaths(result, payloadSize - modulePathsSize, modules,
              EntryArea(payloadOffset, nModules, images) + Flatten(AddrBlocks(images)), free[segmentEntriesSize..]);
    LaidOutEnd(result[..], result.Length, EntryArea(payloadOffset, nModules, images) + Flatten(AddrBlocks(images)),
               Flatten(PathBlocks(images)), []);
  }

  method CopyHeader(a: array<byte>, code: seq<byte>)
    requires |code| == IMAGE_HEADER_SIZE <= a.Length && a[..] == Zeros(a.Length)
    modifies a
    ensures LaidOut(a[..], IMAGE_HEADER_SIZE, code, [], Zeros(a.Length - IMAGE_HEADER_SIZE))
  {
    assert a[..] == [] + [] + Zeros(a.Length);
    CopyInto(a, 0, code, [], [], Zeros(a.Length));
    assert Zeros(a.Length)[IMAGE_HEADER_SIZE..] == Zeros(a.Length - IMAGE_HEADER_SIZE);
    assert a[..] == code + [] + Zeros(a.Length - IMAGE_HEADER_SIZE);
  }

  /** Entries that were reserved but not filled stay zero; one entry too many counts as free space. */
  lemma EntriesDone(a: seq<byte>, base: nat, room: nat, images: seq<ModuleInfo>, rest: seq<byte>) returns (free: seq<byte>)
    requires AllOk(images) && |images| <= room + 1
    requires rest == Zeros(|rest|) && IMAGE_ENTRY_SIZE * |images| <= |rest| && IMAGE_ENTRY_SIZE * room <= |rest|
    requires LaidOut(a, IMAGE_HEADER_SIZE + IMAGE_ENTRY_SIZE * |images|, EncodeImageHeader(HeaderOf(base, room)),
                     Flatten(EntryCodes(base, room, images)), rest[IMAGE_ENTRY_SIZE * |images|..])
    ensures |free| == |rest| - IMAGE_ENTRY_SIZE * room
    ensures LaidOut(a, AddrsStart(room), EntryArea(base, room, images), [], free)
  {
    hide ModuleOk, EntryCodes, EncodeImageHeader;
    EntryAreaSize(base, room, images);
    var codes := EntryCodes(base, room, images);
    if |images| <= room {
      free := Zeros(|rest| - IMAGE_ENTRY_SIZE * room);
      assert codes[..|images|] == codes;
      assert rest[IMAGE_ENTRY_SIZE * |images|..] == Zeros(IMAGE_ENTRY_SIZE * (room - |images|)) + free;
    } else {
      EntryCodesSize(base, room, images, room);
      EntryCodesSize(base, room, images, |images|);
      FlattenSnoc(codes[..room], codes[room]);
      assert codes[..|images|] == codes == codes[..room] + [codes[room]];
      free := codes[room] + rest[IMAGE_ENTRY_SIZE * |images|..];
    }
    assert a == EntryArea(base, room, images) + [] + free;
  }

  lemma NextArea(a: seq<byte>, at: nat, head: seq<byte>, done: seq<byte>, rest: seq<byte>)
    requires LaidOut(a, at, head, done, rest)
    ensures LaidOut(a, at, head + done, [], rest)
  {
    assert head + done + [] == head + done;
  }

  lemma StartOffsets(base: nat, room: nat, images: seq<ModuleInfo>)
    ensures PathOffset(base, room, images, 0) == base + PathsStart(room, images)
    ensures AddrsOffset(base, room, images, 0) == base + AddrsStart(room)
  {
    assert AddrBlocks(images)[..0] == [] && PathBlocks(images)[..0] == [];
  }

  /**
   The entries stay inside their room exactly when there is a main executable, and fill it exactly when
   there is one.
   */
  lemma EntriesFillTheirRoom(base: nat, modules: seq<ModuleInfo>)
    requires AllOk(modules) && modules != []
    ensures var images, room := Images(modules), |modules| - 1;
            var end := |EncodeImageHeader(HeaderOf(base, room)) + Flatten(EntryCodes(base, room, images))|;
            && (end <= AddrsStart(room) <==> MainCount(modules) >= 1)
            && (end == AddrsStart(room) <==> MainCount(modules) == 1)
  {
    hide ModuleOk, Images, MainCount, EncodeImageHeader, EntryCodes;
    var images := Images(modules);
    ImagesCount(modules);
    EntryCodesSize(base, |modules| - 1, images, |images|);
    assert EntryCodes(base, |modules| - 1, images)[..|images|] == EntryCodes(base, |modules| - 1, images);
  }

  function SegmentCount(images: seq<ModuleInfo>): nat {
    if images == [] then 0 else SegmentCount(images[..|images| - 1]) + |images[|images| - 1].segments|
  }

  /** The size of all paths with their terminators. */
  function PathBytes(images: seq<ModuleInfo>): nat {
    if images == [] then 0 else PathBytes(images[..|images| - 1]) + |images[|images| - 1].filePath| + 1
  }

  lemma {:induction false} BlocksSize(images: seq<ModuleInfo>, k: nat)
    requires k <= |images|
    ensures |Flatten(AddrBlocks(images)[..k])| == SEGMENT_ADDR_SIZE * SegmentCount(images[..k])
    ensures |Flatten(PathBlocks(images)[..k])| == PathBytes(images[..k])
  {
    hide AddrBlocks, PathBlocks;
    if k > 0 {
      BlocksSize(images, k - 1);
      BlocksStep(images, k - 1);
      assert images[..k][..k - 1] == images[..k - 1];
    }
  }

  lemma AllBlocksSize(images: seq<ModuleInfo>)
    ensures |Flatten(AddrBlocks(images))| == SEGMENT_ADDR_SIZE * SegmentCount(images)
    ensures |Flatten(PathBlocks(images))| == PathBytes(images)
  {
    hide AddrBlocks, PathBlocks, Flatten, SegmentCount, PathBytes;
    BlocksSize(images, |images|);
    assert images[..|images|] == images && AddrBlocks(images)[..|images|] == AddrBlocks(images);
    assert PathBlocks(images)[..|images|] == PathBlocks(images);
  }

  /**
   The last entry ends beyond the payload exactly when there is no main executable, and the segment
   addresses and paths of all modules together are shorter than one entry.
   */
  lemma StaysInBufferIff(base: nat, modules: seq<ModuleInfo>)
    requires AllOk(modules) && modules != []
    ensures var images, room := Images(modules), |modules| - 1;
            var end := |EncodeImageHeader(HeaderOf(base, room)) + Flatten(EntryCodes(base, room, images))|;
            && (StaysInBuffer(modules) <==> end <= |Payload(base, room, images)|)
            && (StaysInBuffer(modules) <==>
                  MainCount(modules) >= 1
                  || IMAGE_ENTRY_SIZE <= SEGMENT_ADDR_SIZE * SegmentCount(images) + PathBytes(images))
  {
    hide ModuleOk, Images, MainCount, EncodeImageHeader, EntryCodes, AddrBlocks, PathBlocks, Payload, Flatten, SegmentCount,
         PathBytes;
    var images, room := Images(modules), |modules| - 1;
    ImagesCount(modules);
    AllBlocksSize(images);
    PayloadSize(base, room, images);
    EntryCodesSize(base, room, images, |images|);
    assert EntryCodes(base, room, images)[..|images|] == EntryCodes(base, room, images);
  }

  /** One module with a short path and no segments, and no main executable: its entry is written past the buffer. */
  lemma EntryPastBuffer(base: nat) returns (modules: seq<ModuleInfo>)
    ensures AllOk(modules) && |modules| == 1 && MainCount(modules) == 0 && Images(modules) == modules
    ensures !StaysInBuffer(modules)
    ensures |EncodeImageHeader(HeaderOf(base, 0)) + Flatten(EntryCodes(base, 0, modules))| > |Payload(base, 0, modules)|
  {
    var m := ModuleInfo(0, Zeros(16), [], [], false, Zeros(32));
    modules := [m];
    ZeroHeader(Zeros(32));
    hide EncodeImageHeader, EntryCodes, Payload, StaysInBuffer, ModuleOk, IsMainExecutable;
    OneImage(m);
    StaysInBufferIff(base, modules);
  }

  lemma OneImage(m: ModuleInfo)
    requires ModuleOk(m) && !IsMainExecutable(m)
    ensures AllOk([m]) && Images([m]) == [m] && MainCount([m]) == 0
    ensures SegmentCount([m]) == |m.segments| && PathBytes([m]) == |m.filePath| + 1
  {
    hide ModuleOk, IsMainExecutable;
    assert [m][..0] == [] && [] + [m] == [m];
  }

  lemma ZeroHeader(raw: seq<byte>)
    requires |raw| == 32 && raw == Zeros(32)
    ensures Field32(raw, 12) == 0 && WellFormedImage(raw)
  {
    hide CommandsAt;
    Field32Of(0, raw, 12);
    Field32Of(0, raw, 16);
  }
}
