/** Readers of the "all image infos" payload, and what they find in a payload that was written. */
module ImageInfosReader {
  import opened Bytes
  import opened CStrings
  import opened MachO
  import opened ModuleImage
  import opened Modules
  import opened ImageInfos

  // ---------------------------------------------------------------- the reader

  /** What a reader learns about one image. */
  datatype Image = Image(loadAddress: uint64, uuid: name16, executing: bool, path: seq<byte>, segments: seq<SegmentAddr>)

  function ImageOf(m: ModuleInfo): Image {
    Image(m.loadAddress, m.uuid, m.executing, m.filePath, SegmentAddrs(m))
  }

  function ImagesOf(images: seq<ModuleInfo>): (r: seq<Image>)
    ensures |r| == |images|
  {
    seq(|images|, i requires 0 <= i < |images| => ImageOf(images[i]))
  }

  function DecodeImageHeader(file: seq<byte>, pos: nat): ImageHeader
    requires InFile(file, pos, IMAGE_HEADER_SIZE)
  {
    ImageHeader(Field32(file, pos), Field32(file, pos + 4), Field64(file, pos + 8), Field32(file, pos + 16))
  }

  function DecodeImageEntry(file: seq<byte>, pos: nat): ImageEntry
    requires InFile(file, pos, IMAGE_ENTRY_SIZE)
  {
    ImageEntry(Field64(file, pos), Slice(file, pos + 8, 16), Field64(file, pos + 24), Field64(file, pos + 32),
               Field32(file, pos + 40), Field32(file, pos + 44))
  }

  function DecodeSegmentAddr(file: seq<byte>, pos: nat): SegmentAddr
    requires InFile(file, pos, SEGMENT_ADDR_SIZE)
  {
    SegmentAddr(Slice(file, pos, 16), Field64(file, pos + 16))
  }

  /** A zero-terminated string. */
  function ReadString(file: seq<byte>, pos: nat): Option<seq<byte>> {
    if pos > |file| then None
    else
      var n := NulIndex(file[pos..]);
      if pos + n == |file| then None else Some(file[pos..pos + n])
  }

  function ReadEntries(file: seq<byte>, pos: nat, n: nat): (r: Option<seq<ImageEntry>>)
    ensures r.Some? ==> |r.value| == n
  {
    if n == 0 then Some([])
    else
      var at := pos + IMAGE_ENTRY_SIZE * (n - 1);
      match ReadEntries(file, pos, n - 1)
      case None => None
      case Some(es) => if InFile(file, at, IMAGE_ENTRY_SIZE) then Some(es + [DecodeImageEntry(file, at)]) else None
  }

  /** A position as a counter holds it that wraps at `width`. */
  function Wrapped(pos: nat, width: nat): nat
    requires width > 0
  {
    pos % width
  }

  lemma NotWrapped(pos: nat, width: nat)
    requires pos < width
    ensures Wrapped(pos, width) == pos
  {
  }

  /** Segment addresses from a position on, which is kept in a counter that wraps at `width`. */
  function ReadAddrs(file: seq<byte>, pos: nat, n: nat, width: nat): (r: Option<seq<SegmentAddr>>)
    requires width > 0
    ensures r.Some? ==> |r.value| == n
  {
    if n == 0 then Some([])
    else
      var at := Wrapped(pos + SEGMENT_ADDR_SIZE * (n - 1), width);
      match ReadAddrs(file, pos, n - 1, width)
      case None => None
      case Some(addrs) =>
        if InFile(file, at, SEGMENT_ADDR_SIZE) then Some(addrs + [DecodeSegmentAddr(file, at)]) else None
  }

  /** An entry and what its two pointers lead to. */
  function ReadImage(file: seq<byte>, e: ImageEntry): Option<Image> {
    match (ReadString(file, e.filepathOffset), ReadAddrs(file, e.segAddrsOffset, e.segmentCount, UINT64_MOD))
    case (Some(path), Some(addrs)) => Some(Image(e.loadAddress, e.uuid, e.reserved == 1, path, addrs))
    case _ => None
  }

  function ReadImages(file: seq<byte>, es: seq<ImageEntry>): (r: Option<seq<Image>>)
    ensures r.Some? ==> |r.value| == |es|
  {
    if es == [] then Some([])
    else
      match (ReadImages(file, es[..|es| - 1]), ReadImage(file, es[|es| - 1]))
      case (Some(read), Some(next)) => Some(read + [next])
      case _ => None
  }

  /** The images behind a note payload, found through its file offsets. */
  function ReadAllImageInfos(file: seq<byte>, at: nat): Option<seq<Image>> {
    if !InFile(file, at, IMAGE_HEADER_SIZE) then None
    else
      var h := DecodeImageHeader(file, at);
      match ReadEntries(file, h.entriesFileoff, h.imgcount)
      case None => None
      case Some(es) => ReadImages(file, es)
  }

  // ---------------------------------------------------------------- what was written is what is read

  lemma ImageHeaderRoundTrip(h: ImageHeader, file: seq<byte>, pos: nat)
    requires HoldsAt(file, pos, EncodeImageHeader(h))
    ensures DecodeImageHeader(file, pos) == h
  {
    var code := EncodeImageHeader(h);
    Read32(file, pos, 24, code, 0, h.version);
    Read32(file, pos, 24, code, 4, h.imgcount);
    Read64(file, pos, 24, code, 8, h.entriesFileoff);
    Read32(file, pos, 24, code, 16, h.entriesSize);
  }

  lemma ImageEntryRoundTrip(e: ImageEntry, file: seq<byte>, pos: nat)
    requires HoldsAt(file, pos, EncodeImageEntry(e))
    ensures DecodeImageEntry(file, pos) == e
  {
    var code := EncodeImageEntry(e);
    Read64(file, pos, 48, code, 0, e.filepathOffset);
    SliceOfSlice(file, pos, 48, 8, 16);
    assert Slice(code, 8, 16) == e.uuid;
    Read64(file, pos, 48, code, 24, e.loadAddress);
    Read64(file, pos, 48, code, 32, e.segAddrsOffset);
    Read32(file, pos, 48, code, 40, e.segmentCount);
    Read32(file, pos, 48, code, 44, e.reserved);
  }

  lemma SegmentAddrRoundTrip(a: SegmentAddr, file: seq<byte>, pos: nat)
    requires HoldsAt(file, pos, EncodeSegmentAddr(a))
    ensures DecodeSegmentAddr(file, pos) == a
  {
    var code := EncodeSegmentAddr(a);
    SliceOfSlice(file, pos, 32, 0, 16);
    assert Slice(code, 0, 16) == a.segname;
    Read64(file, pos, 32, code, 16, a.vmaddr);
  }

  lemma StringRoundTrip(file: seq<byte>, pos: nat, path: seq<byte>)
    requires NulFree(path) && HoldsAt(file, pos, path + [0])
    ensures ReadString(file, pos) == Some(path)
  {
    HoldsSplit(file, pos, path, [0]);
    assert file[pos + |path|] == Slice(file, pos + |path|, 1)[0] == 0;
    assert file[pos..][..|path|] == Slice(file, pos, |path|) == path;
    CStringCut(file[pos..], |path|);
    assert NulIndex(file[pos..]) == |CString(file[pos..])|;
  }

  lemma {:induction false} AddrsRoundTrip(file: seq<byte>, pos: nat, addrs: seq<SegmentAddr>, n: nat, width: nat)
    requires HoldsAt(file, pos, Flatten(AddrCodes(addrs))) && n <= |addrs|
    requires width > 0 && (n > 0 ==> pos + SEGMENT_ADDR_SIZE * (n - 1) < width)
    ensures ReadAddrs(file, pos, n, width) == Some(addrs[..n])
  {
    hide EncodeSegmentAddr, DecodeSegmentAddr, Wrapped;
    if n > 0 {
      AddrsRoundTrip(file, pos, addrs, n - 1, width);
      AddrCodesSize(addrs, n - 1);
      HoldsPart(file, pos, AddrCodes(addrs), n - 1);
      var at := pos + SEGMENT_ADDR_SIZE * (n - 1);
      SegmentAddrRoundTrip(addrs[n - 1], file, at);
      NotWrapped(at, width);
      assert addrs[..n] == addrs[..n - 1] + [addrs[n - 1]];
    }
  }

  /** The payload as it lies in a file: header, entries, address lists and paths one after the other. */
  lemma PayloadAreas(file: seq<byte>, base: nat, room: nat, images: seq<ModuleInfo>)
    requires AllOk(images) && |images| <= room + 1
    requires HoldsAt(file, base, Payload(base, room, images))
    ensures HoldsAt(file, base, EncodeImageHeader(HeaderOf(base, room)))
    ensures HoldsAt(file, base + IMAGE_HEADER_SIZE, Flatten(EntryCodes(base, room, images)[..Kept(room, images)]))
    ensures HoldsAt(file, base + AddrsStart(room), Flatten(AddrBlocks(images)))
    ensures HoldsAt(file, base + PathsStart(room, images), Flatten(PathBlocks(images)))
  {
    hide ModuleOk, EntryCodes, EncodeImageHeader, HoldsAt, Payload, EntryArea, AddrBlocks, PathBlocks;
    EntryAreaSize(base, room, images);
    PayloadParts(base, room, images);
    var header, entries := EncodeImageHeader(HeaderOf(base, room)), Flatten(EntryCodes(base, room, images)[..Kept(room, images)]);
    var area := EntryArea(base, room, images);
    HoldsSplit(file, base, area + Flatten(AddrBlocks(images)), Flatten(PathBlocks(images)));
    HoldsSplit(file, base, area, Flatten(AddrBlocks(images)));
    HoldsSplit(file, base, header + entries, Zeros(IMAGE_ENTRY_SIZE * (room - Kept(room, images))));
    HoldsSplit(file, base, header, entries);
  }

  lemma PayloadParts(base: nat, room: nat, images: seq<ModuleInfo>)
    requires AllOk(images) && |images| <= room + 1
    ensures Payload(base, room, images)
            == EntryArea(base, room, images) + Flatten(AddrBlocks(images)) + Flatten(PathBlocks(images))
    ensures EntryArea(base, room, images)
            == EncodeImageHeader(HeaderOf(base, room)) + Flatten(EntryCodes(base, room, images)[..Kept(room, images)])
               + Zeros(IMAGE_ENTRY_SIZE * (room - Kept(room, images)))
  {
    hide ModuleOk;
  }

  function EntriesOf(base: nat, room: nat, images: seq<ModuleInfo>): (r: seq<ImageEntry>)
    requires AllOk(images)
    ensures |r| == |images|
  {
    seq(|images|, k requires 0 <= k < |images| => EntryOf(base, room, images, k))
  }

  lemma {:induction false} EntriesRoundTrip(file: seq<byte>, base: nat, room: nat, images: seq<ModuleInfo>, n: nat)
    requires AllOk(images) && n <= Kept(room, images)
    requires HoldsAt(file, base + IMAGE_HEADER_SIZE, Flatten(EntryCodes(base, room, images)[..Kept(room, images)]))
    ensures ReadEntries(file, base + IMAGE_HEADER_SIZE, n) == Some(EntriesOf(base, room, images)[..n])
  {
    hide ModuleOk, EntryOf, EncodeImageEntry, DecodeImageEntry;
    if n > 0 {
      EntriesRoundTrip(file, base, room, images, n - 1);
      EntryCodesSize(base, room, images, n - 1);
      var codes := EntryCodes(base, room, images)[..Kept(room, images)];
      HoldsPart(file, base + IMAGE_HEADER_SIZE, codes, n - 1);
      assert codes[..n - 1] == EntryCodes(base, room, images)[..n - 1];
      var entries := EntriesOf(base, room, images);
      ImageEntryRoundTrip(entries[n - 1], file, base + IMAGE_HEADER_SIZE + IMAGE_ENTRY_SIZE * (n - 1));
      assert entries[..n] == entries[..n - 1] + [entries[n - 1]];
    }
  }

  lemma PathRoundTrip(file: seq<byte>, base: nat, room: nat, images: seq<ModuleInfo>, k: nat)
    requires k < |images| && NulFree(images[k].filePath)
    requires HoldsAt(file, base + PathsStart(room, images), Flatten(PathBlocks(images)))
    ensures ReadString(file, PathOffset(base, room, images, k)) == Some(images[k].filePath)
  {
    hide HoldsAt, ReadString, NulFree, PathsStart;
    HoldsPart(file, base + PathsStart(room, images), PathBlocks(images), k);
    StringRoundTrip(file, PathOffset(base, room, images, k), images[k].filePath);
  }

  lemma AddrListRoundTrip(file: seq<byte>, base: nat, room: nat, images: seq<ModuleInfo>, k: nat)
    requires k < |images|
    requires HoldsAt(file, base + AddrsStart(room), Flatten(AddrBlocks(images)))
    requires AddrsOffset(base, room, images, k) + SEGMENT_ADDR_SIZE * |images[k].segments| < UINT64_MOD
    ensures ReadAddrs(file, AddrsOffset(base, room, images, k), |images[k].segments|, UINT64_MOD)
            == Some(SegmentAddrs(images[k]))
  {
    hide HoldsAt, ReadAddrs, AddrsStart, AddrCodes;
    HoldsPart(file, base + AddrsStart(room), AddrBlocks(images), k);
    var addrs := SegmentAddrs(images[k]);
    AddrsRoundTrip(file, AddrsOffset(base, room, images, k), addrs, |addrs|, UINT64_MOD);
    assert addrs[..|addrs|] == addrs;
  }

  /** Both pointers of an entry lead to its own path and its own segment addresses. */
  lemma ImageRoundTrip(file: seq<byte>, base: nat, room: nat, images: seq<ModuleInfo>, k: nat)
    requires AllOk(images) && |images| <= room + 1 && k < |images|
    requires HoldsAt(file, base, Payload(base, room, images)) && base + |Payload(base, room, images)| < UINT64_MOD
    ensures ReadImage(file, EntryOf(base, room, images, k)) == Some(ImageOf(images[k]))
  {
    assert ModuleOk(images[k]);
    hide ModuleOk, Payload, AddrBlocks, PathBlocks, AddrsStart, PathsStart, AddrsOffset, PathOffset, HoldsAt, ReadAddrs,
         ReadString, SegmentAddrs, NulFree;
    PayloadAreas(file, base, room, images);
    PayloadSize(base, room, images);
    PointersExact(base, room, images, k);
    AddrListRoundTrip(file, base, room, images, k);
    PathRoundTrip(file, base, room, images, k);
  }

  lemma BlocksAt(images: seq<ModuleInfo>, k: nat)
    requires k < |images|
    ensures AddrBlocks(images)[k] == Flatten(AddrCodes(SegmentAddrs(images[k])))
    ensures PathBlocks(images)[k] == images[k].filePath + [0]
  {
  }

  /** In a payload that ends below 2^64 no pointer is cut off. */
  lemma PointersExact(base: nat, room: nat, images: seq<ModuleInfo>, k: nat)
    requires AllOk(images) && |images| <= room + 1 && k < |images|
    requires base + PathsStart(room, images) + |Flatten(PathBlocks(images))| < UINT64_MOD
    ensures PathOffset(base, room, images, k) < UINT64_MOD
    ensures AddrsOffset(base, room, images, k) + SEGMENT_ADDR_SIZE * |images[k].segments| < UINT64_MOD
    ensures EntryOf(base, room, images, k).filepathOffset == PathOffset(base, room, images, k)
    ensures EntryOf(base, room, images, k).segAddrsOffset == AddrsOffset(base, room, images, k)
  {
    hide ModuleOk, AddrBlocks, PathBlocks, AddrBlock;
    BlocksAt(images, k);
    AddrBlockSize(images[k]);
    FlattenPart(AddrBlocks(images), k);
    FlattenPart(PathBlocks(images), k);
    assert AddrBlock(images[k]) == Flatten(AddrCodes(SegmentAddrs(images[k]))) by { BlockIs(images[k]); }
  }

  lemma BlockIs(m: ModuleInfo)
    ensures AddrBlock(m) == Flatten(AddrCodes(SegmentAddrs(m)))
  {
  }

  lemma {:induction false} AllImagesRoundTrip(file: seq<byte>, base: nat, room: nat, images: seq<ModuleInfo>, n: nat)
    requires AllOk(images) && |images| <= room + 1 && n <= |images|
    requires HoldsAt(file, base, Payload(base, room, images)) && base + |Payload(base, room, images)| < UINT64_MOD
    ensures ReadImages(file, EntriesOf(base, room, images)[..n]) == Some(ImagesOf(images)[..n])
  {
    hide ModuleOk, Payload, HoldsAt, EntryOf, ReadImage, ImageOf;
    if n > 0 {
      AllImagesRoundTrip(file, base, room, images, n - 1);
      ImageRoundTrip(file, base, room, images, n - 1);
      var es, all := EntriesOf(base, room, images), ImagesOf(images);
      assert es[..n][..n - 1] == es[..n - 1];
      assert all[..n] == all[..n - 1] + [all[n - 1]];
    }
  }

  /** The reader takes as many entries as there was room for. */
  lemma HeaderRead(file: seq<byte>, base: nat, room: nat)
    requires HoldsAt(file, base, EncodeImageHeader(HeaderOf(base, room)))
    requires room < UINT32_MOD && base + IMAGE_HEADER_SIZE < UINT64_MOD
    ensures ReadAllImageInfos(file, base)
            == match ReadEntries(file, base + IMAGE_HEADER_SIZE, room)
               case None => None
               case Some(es) => ReadImages(file, es)
  {
    hide HoldsAt, DecodeImageHeader, EncodeImageHeader, ReadEntries, ReadImages;
    ImageHeaderRoundTrip(HeaderOf(base, room), file, base);
    HeaderInFile(file, base, HeaderOf(base, room));
  }

  lemma PathsBehindHeader(room: nat, images: seq<ModuleInfo>)
    ensures IMAGE_HEADER_SIZE <= PathsStart(room, images)
  {
  }

  lemma RoomRead(file: seq<byte>, base: nat, room: nat, images: seq<ModuleInfo>)
    requires AllOk(images) && |images| <= room + 1 && room < UINT32_MOD
    requires var p := Payload(base, room, images); HoldsAt(file, base, p) && base + |p| < UINT64_MOD
    ensures ReadAllImageInfos(file, base)
            == match ReadEntries(file, base + IMAGE_HEADER_SIZE, room)
               case None => None
               case Some(es) => ReadImages(file, es)
  {
    hide ModuleOk, Payload, HoldsAt, ReadAllImageInfos, ReadEntries, ReadImages, PathsStart, PathBlocks, EncodeImageHeader;
    PayloadAreas(file, base, room, images);
    PayloadSize(base, room, images);
    PathsBehindHeader(room, images);
    HeaderRead(file, base, room);
  }

  lemma AllRead(file: seq<byte>, base: nat, images: seq<ModuleInfo>)
    requires AllOk(images)
    requires var p := Payload(base, |images|, images); HoldsAt(file, base, p) && base + |p| < UINT64_MOD
    ensures ReadEntries(file, base + IMAGE_HEADER_SIZE, |images|) == Some(EntriesOf(base, |images|, images))
    ensures ReadImages(file, EntriesOf(base, |images|, images)) == Some(ImagesOf(images))
  {
    hide ModuleOk, Payload, HoldsAt, ReadEntries, ReadImages, EntryOf, ImageOf;
    var room := |images|;
    PayloadAreas(file, base, room, images);
    EntriesRoundTrip(file, base, room, images, room);
    AllImagesRoundTrip(file, base, room, images, room);
    assert EntriesOf(base, room, images)[..room] == EntriesOf(base, room, images);
    assert ImagesOf(images)[..room] == ImagesOf(images);
  }

  /**
   Reading the payload back through its own file offsets recovers every image in order, with load
   address, UUID, executing flag, path and segment list, exactly when the process has one main
   executable: room is reserved for all modules but one.
   */
  lemma ImageInfosRoundTrip(file: seq<byte>, base: nat, modules: seq<ModuleInfo>)
    requires AllOk(modules) && 0 < |modules| <= UINT32_MOD
    requires var p := Payload(base, |modules| - 1, Images(modules)); HoldsAt(file, base, p) && base + |p| < UINT64_MOD
    ensures ReadAllImageInfos(file, base) == Some(ImagesOf(Images(modules))) <==> MainCount(modules) == 1
  {
    hide ModuleOk, Payload, HoldsAt, Images, MainCount, ReadAllImageInfos, ReadEntries, ReadImages, PathsStart,
         PathBlocks, EntriesOf, EncodeImageHeader;
    var images, room := Images(modules), |modules| - 1;
    ImagesCount(modules);
    RoomRead(file, base, room, images);
    if MainCount(modules) == 1 {
      AllRead(file, base, images);
    }
  }

  // ---------------------------------------------------------------- the note, module by module

  /** Module x is the only one whose file type says main executable. */
  predicate OnlyMain(modules: seq<ModuleInfo>, x: nat)
    requires AllOk(modules)
  {
    x < |modules| && forall i :: 0 <= i < |modules| ==> (IsExecutable(modules[i]) <==> i == x)
  }

  predicate IsExecutable(m: ModuleInfo)
    requires ModuleOk(m)
  {
    Field32(m.headerAndLoadCommands, 12) == 2
  }

  /** The module behind image k: the main executable is left out. */
  function Skip(x: nat, k: nat): nat {
    if k < x then k else k + 1
  }

  lemma {:induction false} ImagesSkip(modules: seq<ModuleInfo>, x: nat, n: nat)
    requires AllOk(modules) && OnlyMain(modules, x) && n <= |modules|
    ensures |Images(modules[..n])| == (if n <= x then n else n - 1)
    ensures forall k :: 0 <= k < |Images(modules[..n])| ==> Images(modules[..n])[k] == modules[Skip(x, k)]
    ensures MainCount(modules[..n]) == if n <= x then 0 else 1
  {
    hide ModuleOk;
    if n > 0 {
      ImagesSkip(modules, x, n - 1);
      assert modules[..n][..n - 1] == modules[..n - 1];
    }
  }

  lemma AllImagesSkip(modules: seq<ModuleInfo>, x: nat)
    requires AllOk(modules) && OnlyMain(modules, x)
    ensures |Images(modules)| == |modules| - 1 && MainCount(modules) == 1
    ensures forall k :: 0 <= k < |modules| - 1 ==> Images(modules)[k] == modules[Skip(x, k)]
  {
    hide ModuleOk, Images, MainCount, AllOk;
    ImagesSkip(modules, x, |modules|);
    assert modules[..|modules|] == modules;
  }

  /** An image that was read tells all about a module. */
  predicate ImageShows(im: Image, m: ModuleInfo) {
    && im.loadAddress == m.loadAddress && im.uuid == m.uuid && im.executing == m.executing && im.path == m.filePath
    && |im.segments| == |m.segments|
    && forall j :: 0 <= j < |m.segments| ==>
         && im.segments[j].vmaddr == m.segments[j].address
         && CString(im.segments[j].segname) == CString(m.segments[j].segmentName)
  }

  lemma ImageOfShows(m: ModuleInfo)
    ensures ImageShows(ImageOf(m), m)
  {
    hide CopiedName, CString;
    forall j | 0 <= j < |m.segments|
      ensures CString(SegmentAddrs(m)[j].segname) == CString(m.segments[j].segmentName)
    {
      CopiedNameKeeps(m.segments[j].segmentName);
    }
  }

  /** The images are all modules but module x, in order. */
  predicate AllShown(images: seq<Image>, modules: seq<ModuleInfo>, x: nat) {
    && |images| == |modules| - 1
    && forall k :: 0 <= k < |images| ==> ImageShows(images[k], modules[if k < x then k else k + 1])
  }

  /** What a reader of the note learns about a process with one main executable: all about all other modules, in order. */
  lemma ImagesShowModules(file: seq<byte>, base: nat, modules: seq<ModuleInfo>, x: nat)
    requires AllOk(modules) && |modules| <= UINT32_MOD && OnlyMain(modules, x)
    requires var p := Payload(base, |modules| - 1, Images(modules)); HoldsAt(file, base, p) && base + |p| < UINT64_MOD
    ensures ReadAllImageInfos(file, base).Some? && AllShown(ReadAllImageInfos(file, base).value, modules, x)
  {
    hide ModuleOk, Payload, HoldsAt, Images, MainCount, ReadAllImageInfos, OnlyMain, ImageShows, ImageOf, AllOk;
    AllImagesSkip(modules, x);
    ImageInfosRoundTrip(file, base, modules);
    var images := Images(modules);
    forall k | 0 <= k < |modules| - 1 ensures ImageShows(ImagesOf(images)[k], modules[if k < x then k else k + 1]) {
      ImageOfShows(images[k]);
    }
  }

  /** The path a file offset points to, with its terminator. */
  predicate PathShows(file: seq<byte>, at: nat, path: seq<byte>) {
    InFile(file, at, |path| + 1) && Slice(file, at, |path|) == path && file[at + |path|] == 0
  }

  /** An entry of the address lists: name in 16 bytes, address in 8, and 8 bytes of padding. */
  predicate AddrShows(file: seq<byte>, at: nat, s: SegmentInfo) {
    && InFile(file, at, 32) && CString(Slice(file, at, 16)) == CString(s.segmentName)
    && Field64(file, at + 16) == s.address && Field64(file, at + 24) == 0
  }

  /** The 48 bytes of an entry, and what its two file offsets lead to. */
  predicate EntryShows(file: seq<byte>, at: nat, m: ModuleInfo) {
    && InFile(file, at, 48)
    && PathShows(file, Field64(file, at), m.filePath)
    && Slice(file, at + 8, 16) == m.uuid && Field64(file, at + 24) == m.loadAddress
    && (forall j :: 0 <= j < |m.segments| ==> AddrShows(file, Field64(file, at + 32) + 32 * j, m.segments[j]))
    && Field32(file, at + 40) == |m.segments| && Field32(file, at + 44) == if m.executing then 1 else 0
  }

  lemma PathHeld(file: seq<byte>, base: nat, room: nat, images: seq<ModuleInfo>, k: nat)
    requires k < |images|
    requires HoldsAt(file, base + PathsStart(room, images), Flatten(PathBlocks(images)))
    ensures PathShows(file, PathOffset(base, room, images, k), images[k].filePath)
  {
    hide HoldsAt, PathsStart;
    HoldsPart(file, base + PathsStart(room, images), PathBlocks(images), k);
    PathShown(file, PathOffset(base, room, images, k), images[k].filePath);
  }

  lemma PathShown(file: seq<byte>, at: nat, path: seq<byte>)
    requires HoldsAt(file, at, path + [0])
    ensures PathShows(file, at, path)
  {
    HoldsSplit(file, at, path, [0]);
    assert file[at + |path|] == Slice(file, at + |path|, 1)[0];
  }

  lemma AddrHeld(file: seq<byte>, base: nat, room: nat, images: seq<ModuleInfo>, k: nat, j: nat)
    requires k < |images| && j < |images[k].segments|
    requires HoldsAt(file, base + AddrsStart(room), Flatten(AddrBlocks(images)))
    ensures AddrShows(file, AddrsOffset(base, room, images, k) + 32 * j, images[k].segments[j])
  {
    hide HoldsAt, AddrsStart, AddrCodes, EncodeSegmentAddr, CopiedName, CString, Field64;
    HoldsPart(file, base + AddrsStart(room), AddrBlocks(images), k);
    BlockIs(images[k]);
    var addrs := SegmentAddrs(images[k]);
    AddrCodesSize(addrs, j);
    HoldsPart(file, AddrsOffset(base, room, images, k), AddrCodes(addrs), j);
    AddrCodeIs(addrs, j);
    AddrShown(file, AddrsOffset(base, room, images, k) + 32 * j, images[k].segments[j], addrs[j]);
  }

  lemma AddrCodeIs(addrs: seq<SegmentAddr>, j: nat)
    requires j < |addrs|
    ensures AddrCodes(addrs)[j] == EncodeSegmentAddr(addrs[j])
  {
  }

  lemma AddrShown(file: seq<byte>, at: nat, s: SegmentInfo, a: SegmentAddr)
    requires a == SegmentAddr(CopiedName(s.segmentName), s.address) && HoldsAt(file, at, EncodeSegmentAddr(a))
    ensures AddrShows(file, at, s)
  {
    hide CopiedName, CString, Field64;
    SegmentAddrRoundTrip(a, file, at);
    CopiedNameKeeps(s.segmentName);
    Read64(file, at, 32, EncodeSegmentAddr(a), 24, 0);
  }

  /** Each entry in the note, byte by byte, and what its file offsets lead to. */
  lemma EntryInNote(file: seq<byte>, base: nat, images: seq<ModuleInfo>, k: nat)
    requires AllOk(images) && k < |images|
    requires var p := Payload(base, |images|, images); HoldsAt(file, base, p) && base + |p| < UINT64_MOD
    ensures EntryShows(file, base + 24 + 48 * k, images[k])
  {
    hide ModuleOk, Payload, HoldsAt, EntryCodes, PathsStart, AddrsStart, PathOffset, AddrsOffset, PathShows, AddrShows,
         AddrBlocks, PathBlocks, Flatten, Field32, Field64, Low64;
    var room := |images|;
    PayloadAreas(file, base, room, images);
    PayloadSize(base, room, images);
    PointersExact(base, room, images, k);
    EntryHeld(file, base, room, images, k);
    ImageEntryRoundTrip(EntryOf(base, room, images, k), file, base + 24 + 48 * k);
    EntryIn(file, base + 24 + 48 * k, EntryOf(base, room, images, k));
    PathHeld(file, base, room, images, k);
    forall j | 0 <= j < |images[k].segments|
      ensures AddrShows(file, AddrsOffset(base, room, images, k) + 32 * j, images[k].segments[j])
    {
      AddrHeld(file, base, room, images, k, j);
    }
  }

  lemma EntryIn(file: seq<byte>, at: nat, e: ImageEntry)
    requires HoldsAt(file, at, EncodeImageEntry(e))
    ensures InFile(file, at, 48)
  {
  }

  lemma EntryHeld(file: seq<byte>, base: nat, room: nat, images: seq<ModuleInfo>, k: nat)
    requires AllOk(images) && k < |images| == room
    requires HoldsAt(file, base + IMAGE_HEADER_SIZE, Flatten(EntryCodes(base, room, images)[..Kept(room, images)]))
    ensures HoldsAt(file, base + 24 + 48 * k, EncodeImageEntry(EntryOf(base, room, images, k)))
  {
    hide ModuleOk, EntryOf, EncodeImageEntry, HoldsAt;
    var codes := EntryCodes(base, room, images);
    assert codes[..room] == codes;
    EntryCodesSize(base, room, images, k);
    HoldsPart(file, base + IMAGE_HEADER_SIZE, codes, k);
  }

  /**
   The bytes of the note of a process with one main executable: version, number of images, where the entries
   start and how long one is; and in the entries, all about all other modules, in order.
   */
  lemma NoteShowsModules(file: seq<byte>, base: nat, modules: seq<ModuleInfo>, x: nat)
    requires AllOk(modules) && |modules| <= UINT32_MOD && OnlyMain(modules, x)
    requires var p := Payload(base, |modules| - 1, Images(modules)); HoldsAt(file, base, p) && base + |p| < UINT64_MOD
    ensures InFile(file, base, 24) && Field32(file, base) == 1 && Field32(file, base + 4) == |modules| - 1
    ensures Field64(file, base + 8) == base + 24 && Field32(file, base + 16) == 48
    ensures forall k :: 0 <= k < |modules| - 1 ==> EntryShows(file, base + 24 + 48 * k, modules[if k < x then k else k + 1])
  {
    hide ModuleOk, Payload, HoldsAt, Images, MainCount, OnlyMain, EntryShows, AllOk, Field32, Field64;
    AllImagesSkip(modules, x);
    HeaderInNote(file, base, Images(modules));
    forall k | 0 <= k < |modules| - 1
      ensures EntryShows(file, base + 24 + 48 * k, modules[if k < x then k else k + 1])
    {
      EntryInNote(file, base, Images(modules), k);
    }
  }

  lemma HeaderInNote(file: seq<byte>, base: nat, images: seq<ModuleInfo>)
    requires AllOk(images) && |images| < UINT32_MOD
    requires var p := Payload(base, |images|, images); HoldsAt(file, base, p) && base + |p| < UINT64_MOD
    ensures InFile(file, base, 24) && Field32(file, base) == 1 && Field32(file, base + 4) == |images|
    ensures Field64(file, base + 8) == base + 24 && Field32(file, base + 16) == 48
  {
    hide ModuleOk, Payload, HoldsAt, AllOk, EncodeImageHeader, Field32, Field64, PathsStart, PathBlocks, AddrBlocks, EntryCodes,
         Flatten;
    PayloadAreas(file, base, |images|, images);
    PayloadSize(base, |images|, images);
    PathsBehindHeader(|images|, images);
    ImageHeaderRoundTrip(HeaderOf(base, |images|), file, base);
    HeaderInFile(file, base, HeaderOf(base, |images|));
  }

  lemma HeaderInFile(file: seq<byte>, base: nat, h: ImageHeader)
    requires HoldsAt(file, base, EncodeImageHeader(h))
    ensures InFile(file, base, IMAGE_HEADER_SIZE)
  {
  }

  // ---------------------------------------------------------------- the linear reader

  /** The three tables of the note as the template for a hex editor lists them. */
  datatype NoteView = NoteView(entries: seq<ImageEntry>, addrs: seq<SegmentAddr>, paths: seq<seq<byte>>)

  function SegmentTotal(es: seq<ImageEntry>): nat {
    if es == [] then 0 else SegmentTotal(es[..|es| - 1]) + es[|es| - 1].segmentCount
  }

  function ReadPaths(file: seq<byte>, es: seq<ImageEntry>): (r: Option<seq<seq<byte>>>)
    ensures r.Some? ==> |r.value| == |es|
  {
    if es == [] then Some([])
    else
      match (ReadPaths(file, es[..|es| - 1]), ReadString(file, es[|es| - 1].filepathOffset))
      case (Some(read), Some(next)) => Some(read + [next])
      case _ => None
  }

  /**
   Entries right behind the header, addresses right behind the entries and counted in 32 bits, as is
   their position; only paths are found through a file offset.
   */
  function ViewNote(file: seq<byte>, at: nat): Option<NoteView> {
    if !InFile(file, at, IMAGE_HEADER_SIZE) then None
    else
      var first, n := at + IMAGE_HEADER_SIZE, Field32(file, at + 4);
      match ReadEntries(file, first, n)
      case None => None
      case Some(es) =>
        match (ReadAddrs(file, first + IMAGE_ENTRY_SIZE * n, Wrapped(SegmentTotal(es), UINT32_MOD), UINT32_MOD),
               ReadPaths(file, es))
        case (Some(addrs), Some(paths)) => Some(NoteView(es, addrs, paths))
        case _ => None
  }

  lemma {:induction false} EntriesFail(file: seq<byte>, pos: nat, n: nat, m: nat)
    requires n <= m && ReadEntries(file, pos, n).None?
    ensures ReadEntries(file, pos, m).None?
  {
    if n < m {
      EntriesFail(file, pos, n, m - 1);
    }
  }

  lemma {:induction false} AddrsFail(file: seq<byte>, pos: nat, n: nat, m: nat, width: nat)
    requires width > 0 && n <= m && ReadAddrs(file, pos, n, width).None?
    ensures ReadAddrs(file, pos, m, width).None?
  {
    if n < m {
      AddrsFail(file, pos, n, m - 1, width);
    }
  }

  lemma {:induction false} PathsFail(file: seq<byte>, es: seq<ImageEntry>, n: nat)
    requires n <= |es| && ReadPaths(file, es[..n]).None?
    ensures ReadPaths(file, es).None?
  {
    if n < |es| {
      assert es[..|es| - 1][..n] == es[..n];
      PathsFail(file, es[..|es| - 1], n);
    } else {
      assert es[..n] == es;
    }
  }

  lemma WrappedAdd(pos: nat, step: nat)
    ensures Wrapped(Wrapped(pos, UINT32_MOD) + step, UINT32_MOD) == Wrapped(pos + step, UINT32_MOD)
  {
    var q, r := pos / UINT32_MOD, pos % UINT32_MOD;
    var k := (r + step) / UINT32_MOD;
    assert pos + step == (q + k) * UINT32_MOD + (r + step) % UINT32_MOD;
    assert (pos + step) / UINT32_MOD == q + k;
  }

  method ParseAllImageInfosNote(file: seq<byte>, payloadOffset: nat) returns (r: Option<NoteView>)
    ensures r == ViewNote(file, payloadOffset)
  {
    hide ReadEntries, ReadAddrs, ReadPaths, SegmentTotal;
    if !InFile(file, payloadOffset, IMAGE_HEADER_SIZE) {
      return None;
    }
    var first, imgCount := payloadOffset + IMAGE_HEADER_SIZE, Field32(file, payloadOffset + 4);
    var entries, segCount := ParseEntries(file, first, imgCount);
    if entries.None? {
      return None;
    }
    var addrs := ParseAddrs(file, first + IMAGE_ENTRY_SIZE * imgCount, segCount);
    var paths := ParsePaths(file, entries.value);
    match (addrs, paths)
    case (Some(a), Some(p)) => return Some(NoteView(entries.value, a, p));
    case _ => return None;
  }

  method ParseEntries(file: seq<byte>, first: nat, imgCount: nat) returns (r: Option<seq<ImageEntry>>, segCount: nat)
    ensures r == ReadEntries(file, first, imgCount)
    ensures r.Some? ==> segCount == Wrapped(SegmentTotal(r.value), UINT32_MOD)
  {
    hide DecodeImageEntry, Wrapped;
    var entries := [];
    segCount := 0;
    NotWrapped(0, UINT32_MOD);
    var currImageEntryOffset := first;
    for i := 0 to imgCount
      invariant ReadEntries(file, first, i) == Some(entries)
      invariant segCount == Wrapped(SegmentTotal(entries), UINT32_MOD)
      invariant currImageEntryOffset == first + IMAGE_ENTRY_SIZE * i
    {
      if !InFile(file, currImageEntryOffset, IMAGE_ENTRY_SIZE) {
        EntriesFail(file, first, i + 1, imgCount);
        return None, segCount;
      }
      var entry := DecodeImageEntry(file, currImageEntryOffset);
      assert (entries + [entry])[..i] == entries;
      WrappedAdd(SegmentTotal(entries), entry.segmentCount);
      segCount := Wrapped(segCount + entry.segmentCount, UINT32_MOD);
      entries := entries + [entry];
      currImageEntryOffset := currImageEntryOffset + IMAGE_ENTRY_SIZE;
    }
    r := Some(entries);
  }

  method ParseAddrs(file: seq<byte>, start: nat, segCount: nat) returns (r: Option<seq<SegmentAddr>>)
    ensures r == ReadAddrs(file, start, segCount, UINT32_MOD)
  {
    hide DecodeSegmentAddr, Wrapped;
    var addrs, currSegmentOffset := [], Wrapped(start, UINT32_MOD);
    for j := 0 to segCount
      invariant ReadAddrs(file, start, j, UINT32_MOD) == Some(addrs)
      invariant currSegmentOffset == Wrapped(start + SEGMENT_ADDR_SIZE * j, UINT32_MOD)
    {
      if !InFile(file, currSegmentOffset, SEGMENT_ADDR_SIZE) {
        AddrsFail(file, start, j + 1, segCount, UINT32_MOD);
        return None;
      }
      addrs := addrs + [DecodeSegmentAddr(file, currSegmentOffset)];
      WrappedAdd(start + SEGMENT_ADDR_SIZE * j, SEGMENT_ADDR_SIZE);
      currSegmentOffset := Wrapped(currSegmentOffset + SEGMENT_ADDR_SIZE, UINT32_MOD);
    }
    return Some(addrs);
  }

  method ParsePaths(file: seq<byte>, entries: seq<ImageEntry>) returns (r: Option<seq<seq<byte>>>)
    ensures r == ReadPaths(file, entries)
  {
    hide ReadString;
    var paths := [];
    for k := 0 to |entries|
      invariant ReadPaths(file, entries[..k]) == Some(paths)
    {
      var path := ReadString(file, entries[k].filepathOffset);
      assert entries[..k + 1][..k] == entries[..k];
      if path.None? {
        PathsFail(file, entries, k + 1);
        return None;
      }
      paths := paths + [path.value];
    }
    assert entries[..|entries|] == entries;
    return Some(paths);
  }

  /** The segment addresses of all images in one list. */
  function AllAddrs(images: seq<ModuleInfo>): seq<SegmentAddr> {
    if images == [] then [] else AllAddrs(images[..|images| - 1]) + SegmentAddrs(images[|images| - 1])
  }

  lemma AddrCodesConcat(a: seq<SegmentAddr>, b: seq<SegmentAddr>)
    ensures AddrCodes(a + b) == AddrCodes(a) + AddrCodes(b)
  {
    hide EncodeSegmentAddr;
  }

  /** The blocks of the images, back to back, are the block of all addresses. */
  lemma {:induction false} BlocksAreAddrs(images: seq<ModuleInfo>)
    ensures Flatten(AddrBlocks(images)) == Flatten(AddrCodes(AllAddrs(images)))
  {
    hide AddrCodes, SegmentAddrs;
    if images == [] {
      assert AddrBlocks(images) == [] && AddrCodes([]) == [];
    } else {
      var n := |images| - 1;
      BlocksAreAddrs(images[..n]);
      assert AddrBlocks(images) == AddrBlocks(images[..n]) + [AddrBlock(images[n])];
      FlattenSnoc(AddrBlocks(images[..n]), AddrBlock(images[n]));
      AddrCodesConcat(AllAddrs(images[..n]), SegmentAddrs(images[n]));
      FlattenConcat(AddrCodes(AllAddrs(images[..n])), AddrCodes(SegmentAddrs(images[n])));
    }
  }

  lemma {:induction false} TotalOfEntries(base: nat, room: nat, images: seq<ModuleInfo>, n: nat)
    requires AllOk(images) && n <= |images|
    ensures SegmentTotal(EntriesOf(base, room, images)[..n]) == |AllAddrs(images[..n])|
  {
    hide ModuleOk, PathOffset, AddrsOffset;
    if n > 0 {
      TotalOfEntries(base, room, images, n - 1);
      var es := EntriesOf(base, room, images);
      assert es[..n][..n - 1] == es[..n - 1] && images[..n][..n - 1] == images[..n - 1];
    }
  }

  lemma {:induction false} PathsRoundTrip(file: seq<byte>, base: nat, room: nat, images: seq<ModuleInfo>, n: nat)
    requires AllOk(images) && |images| <= room + 1 && n <= |images|
    requires HoldsAt(file, base, Payload(base, room, images)) && base + |Payload(base, room, images)| < UINT64_MOD
    ensures ReadPaths(file, EntriesOf(base, room, images)[..n]) == Some(PathsOf(images)[..n])
  {
    hide ModuleOk, Payload, HoldsAt, EntryOf, ReadAddrs, ReadString;
    if n > 0 {
      PathsRoundTrip(file, base, room, images, n - 1);
      ImageRoundTrip(file, base, room, images, n - 1);
      var es, all := EntriesOf(base, room, images), PathsOf(images);
      assert es[..n][..n - 1] == es[..n - 1];
      assert all[..n] == all[..n - 1] + [all[n - 1]];
    }
  }

  function PathsOf(images: seq<ModuleInfo>): (r: seq<seq<byte>>)
    ensures |r| == |images|
  {
    seq(|images|, i requires 0 <= i < |images| => images[i].filePath)
  }

  /** Every address list entry starts below 4 GiB, so that the 32-bit position never wraps before one is read. */
  predicate AddrsInView(pos: nat, images: seq<ModuleInfo>) {
    AllAddrs(images) == [] || pos + SEGMENT_ADDR_SIZE * (|AllAddrs(images)| - 1) < UINT32_MOD
  }

  lemma AllAddrsRoundTrip(file: seq<byte>, pos: nat, images: seq<ModuleInfo>)
    requires HoldsAt(file, pos, Flatten(AddrBlocks(images))) && AddrsInView(pos, images)
    ensures |AllAddrs(images)| < UINT32_MOD
    ensures ReadAddrs(file, pos, |AllAddrs(images)|, UINT32_MOD) == Some(AllAddrs(images))
  {
    hide HoldsAt, ReadAddrs, AddrCodes, AddrBlocks, AllAddrs;
    var all := AllAddrs(images);
    BlocksAreAddrs(images);
    AddrsRoundTrip(file, pos, all, |all|, UINT32_MOD);
    assert all[..|all|] == all;
  }

  lemma EntriesAndPaths(file: seq<byte>, base: nat, images: seq<ModuleInfo>)
    requires AllOk(images)
    requires var p := Payload(base, |images|, images); HoldsAt(file, base, p) && base + |p| < UINT64_MOD
    ensures var es := EntriesOf(base, |images|, images);
            && ReadEntries(file, base + IMAGE_HEADER_SIZE, |images|) == Some(es)
            && ReadPaths(file, es) == Some(PathsOf(images))
            && SegmentTotal(es) == |AllAddrs(images)|
  {
    hide ModuleOk, Payload, HoldsAt, EntryOf, ReadPaths, ReadEntries, SegmentTotal;
    var room := |images|;
    AllRead(file, base, images);
    TotalOfEntries(base, room, images, room);
    PathsRoundTrip(file, base, room, images, room);
    assert EntriesOf(base, room, images)[..room] == EntriesOf(base, room, images);
    assert images[..room] == images && PathsOf(images)[..room] == PathsOf(images);
  }

  function ExpectedView(base: nat, images: seq<ModuleInfo>): NoteView
    requires AllOk(images)
  {
    NoteView(EntriesOf(base, |images|, images), AllAddrs(images), PathsOf(images))
  }

  /**
   The linear reader sees the same entries, addresses and paths, as long as every address list entry starts
   below 4 GiB, where its 32-bit position would wrap.
   */
  lemma ViewRoundTrip(file: seq<byte>, base: nat, images: seq<ModuleInfo>)
    requires AllOk(images)
    requires var p := Payload(base, |images|, images); HoldsAt(file, base, p) && base + |p| < UINT64_MOD
    requires |images| < UINT32_MOD && AddrsInView(base + AddrsStart(|images|), images)
    ensures ViewNote(file, base) == Some(ExpectedView(base, images))
  {
    hide ModuleOk, Payload, HoldsAt, EntryOf, ReadAddrs, ReadPaths, ReadEntries, AddrBlocks, EncodeImageHeader,
         PathBlocks, SegmentTotal, AllAddrs, EntriesOf, PathsOf, AddrsInView;
    PayloadAreas(file, base, |images|, images);
    HeaderInFile(file, base, HeaderOf(base, |images|));
    CountRead(file, base, HeaderOf(base, |images|));
    EntriesAndPaths(file, base, images);
    AllAddrsRoundTrip(file, base + AddrsStart(|images|), images);
    NotWrapped(|AllAddrs(images)|, UINT32_MOD);
  }

  lemma CountRead(file: seq<byte>, base: nat, h: ImageHeader)
    requires HoldsAt(file, base, EncodeImageHeader(h))
    ensures Field32(file, base + 4) == h.imgcount
  {
    ImageHeaderRoundTrip(h, file, base);
  }

  // ---------------------------------------------------------------- where the linear reader goes wrong

  lemma {:induction false} AddrsAt(file: seq<byte>, pos: nat, n: nat, width: nat, j: nat)
    requires width > 0 && j < n && ReadAddrs(file, pos, n, width).Some?
    ensures var at := Wrapped(pos + SEGMENT_ADDR_SIZE * j, width);
            InFile(file, at, SEGMENT_ADDR_SIZE)
            && ReadAddrs(file, pos, n, width).value[j] == DecodeSegmentAddr(file, at)
  {
    hide DecodeSegmentAddr, Wrapped;
    if j < n - 1 {
      AddrsAt(file, pos, n - 1, width, j);
    }
  }

  /** The payload behind `base` bytes of one value. */
  function FileWith(base: nat, filler: byte, p: seq<byte>): seq<byte> {
    seq(base, _ => filler) + p
  }

  lemma FileHolds(base: nat, filler: byte, p: seq<byte>)
    ensures HoldsAt(FileWith(base, filler, p), base, p)
  {
  }

  lemma FillerAt(base: nat, filler: byte, payload: seq<byte>, k: nat)
    requires k < base
    ensures base <= |FileWith(base, filler, payload)| && FileWith(base, filler, payload)[k] == filler
  {
  }

  /** A view that is right has read the address lists right. */
  lemma ViewedAddrs(file: seq<byte>, base: nat, images: seq<ModuleInfo>)
    requires AllOk(images) && |images| < UINT32_MOD
    requires base + |Payload(base, |images|, images)| < UINT64_MOD
    requires HoldsAt(file, base, Payload(base, |images|, images))
    requires ViewNote(file, base) == Some(ExpectedView(base, images))
    ensures ReadAddrs(file, base + AddrsStart(|images|), |AllAddrs(images)|, UINT32_MOD) == Some(AllAddrs(images))
  {
    hide ModuleOk, Payload, HoldsAt, EntriesOf, AllAddrs, PathsOf, ReadAddrs, ReadPaths, ReadEntries, SegmentTotal,
         EncodeImageHeader, AddrBlocks, PathBlocks, Wrapped, Field32, AllOk, Flatten;
    PayloadAreas(file, base, |images|, images);
    CountRead(file, base, HeaderOf(base, |images|));
  }

  /** Where the wrapped position of some address lies before the payload, there is a file that is misread. */
  lemma ViewFails(base: nat, images: seq<ModuleInfo>, j: nat) returns (file: seq<byte>)
    requires AllOk(images) && |images| < UINT32_MOD && j < |AllAddrs(images)|
    requires base + |Payload(base, |images|, images)| < UINT64_MOD
    requires var at := base + AddrsStart(|images|) + SEGMENT_ADDR_SIZE * j;
             at >= UINT32_MOD && Wrapped(at, UINT32_MOD) + SEGMENT_ADDR_SIZE <= base
    ensures HoldsAt(file, base, Payload(base, |images|, images))
    ensures ViewNote(file, base) != Some(ExpectedView(base, images))
  {
    hide ModuleOk, Payload, HoldsAt, AllAddrs, ReadAddrs, Wrapped, FileWith, AddrsStart, ViewNote, ExpectedView;
    var addr := AllAddrs(images)[j];
    var filler: byte := if addr.segname[0] == 0 then 1 else 0;
    file := FileWith(base, filler, Payload(base, |images|, images));
    FileHolds(base, filler, Payload(base, |images|, images));
    var pos := base + AddrsStart(|images|);
    FillerAt(base, filler, Payload(base, |images|, images), Wrapped(pos + SEGMENT_ADDR_SIZE * j, UINT32_MOD));
    if ViewNote(file, base) == Some(ExpectedView(base, images)) {
      ViewedAddrs(file, base, images);
      AddrsAt(file, pos, |AllAddrs(images)|, UINT32_MOD, j);
    }
  }

  /**
   The template lists every file with such a payload correctly exactly when all address list entries start
   below 4 GiB; this holds wherever there is room for a wrapped position before the payload.
   */
  lemma ViewAlwaysIff(base: nat, images: seq<ModuleInfo>)
    requires AllOk(images) && |images| < UINT32_MOD
    requires base + |Payload(base, |images|, images)| < UINT64_MOD
    requires base >= if base + AddrsStart(|images|) < UINT32_MOD then 64 else UINT32_MOD + SEGMENT_ADDR_SIZE
    ensures (forall file: seq<byte> :: HoldsAt(file, base, Payload(base, |images|, images)) ==>
               ViewNote(file, base) == Some(ExpectedView(base, images)))
            <==> AddrsInView(base + AddrsStart(|images|), images)
  {
    hide ModuleOk, Payload, HoldsAt, ViewNote, ExpectedView, AllAddrs;
    var pos := base + AddrsStart(|images|);
    if AddrsInView(pos, images) {
      forall file: seq<byte> | HoldsAt(file, base, Payload(base, |images|, images))
        ensures ViewNote(file, base) == Some(ExpectedView(base, images))
      {
        ViewRoundTrip(file, base, images);
      }
    } else {
      var j := FirstWrapped(pos, |AllAddrs(images)|);
      var file := ViewFails(base, images, j);
      assert HoldsAt(file, base, Payload(base, |images|, images));
    }
  }

  lemma FirstWrapped(pos: nat, n: nat) returns (j: nat)
    requires n > 0 && pos + SEGMENT_ADDR_SIZE * (n - 1) >= UINT32_MOD
    ensures j < n && pos + SEGMENT_ADDR_SIZE * j >= UINT32_MOD
    ensures Wrapped(pos + SEGMENT_ADDR_SIZE * j, UINT32_MOD) < if pos < UINT32_MOD then SEGMENT_ADDR_SIZE else UINT32_MOD
  {
    j := if pos >= UINT32_MOD then 0 else (UINT32_MOD - pos + 31) / SEGMENT_ADDR_SIZE;
    var at := pos + SEGMENT_ADDR_SIZE * j;
    assert pos < UINT32_MOD ==> UINT32_MOD <= at < UINT32_MOD + SEGMENT_ADDR_SIZE;
    assert pos < UINT32_MOD ==> at % UINT32_MOD == at - UINT32_MOD;
  }
}
